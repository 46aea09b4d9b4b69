/** The session cache in front of the user tables: login writes a whole Redis hash, project
    updates write one field of it, logout deletes it, and it may expire at any moment. */
module Session {
  import Text
  import opened Options

  /** Encryption as an inverse pair: a ciphertext opens to its plaintext whatever the nonce,
      and the empty string that a missing field reads as does not open. */
  datatype Cipher = Blank | Sealed(plain: string, nonce: nat)

  function Decrypt(c: Cipher): Option<string> {
    if c.Sealed? then Some(c.plain) else None
  }

  datatype TokenRow = TokenRow(token: Cipher, webUrl: Option<Cipher>, projectID: Option<int>)

  /** The user tables: the unique index on user names, the GitLab id of each user, and at
      most one token row per user. */
  datatype Store = Store(byName: map<string, int>, gitlabIDs: map<int, Option<int>>,
                         tokens: map<int, TokenRow>, nextID: int)

  /** A session hash. A field that was never written is None; `expires` says whether the
      key carries a TTL. */
  datatype Hash = Hash(username: Option<string>, projectID: Option<int>, gitlabUserID: Option<int>,
                       token: Option<Cipher>, webUrl: Option<Cipher>, expires: bool)

  type Cache = map<int, Hash>

  datatype World = World(store: Store, cache: Cache)

  const EMPTY := World(Store(map[], map[], map[], 1), map[])

  // ------------------------------------------------------------ reads of the store

  function StoredToken(s: Store, user: int): Option<string> {
    if user in s.tokens then Decrypt(s.tokens[user].token) else None
  }

  function StoredWebUrl(s: Store, user: int): Option<string> {
    if user in s.tokens && s.tokens[user].webUrl.Some? then Decrypt(s.tokens[user].webUrl.value) else None
  }

  function StoredProjectID(s: Store, user: int): int {
    if user in s.tokens && s.tokens[user].projectID.Some? then s.tokens[user].projectID.value else 0
  }

  function StoredGitlabID(s: Store, user: int): int {
    if user in s.gitlabIDs && s.gitlabIDs[user].Some? then s.gitlabIDs[user].value else 0
  }

  // ------------------------------------------------------------ reads of the cache

  /** The TTL runs out. */
  function Expire(c: Cache, user: int, now: bool): Cache {
    if now && user in c && c[user].expires then c - {user} else c
  }

  /** Token and WebUrl: the empty string on a miss, None when decryption fails. */
  function CachedToken(c: Cache, user: int): Option<string> {
    if user !in c then Some("")
    else Decrypt(if c[user].token.Some? then c[user].token.value else Blank)
  }

  function CachedWebUrl(c: Cache, user: int): Option<string> {
    if user !in c then Some("")
    else Decrypt(if c[user].webUrl.Some? then c[user].webUrl.value else Blank)
  }

  function CachedProjectID(c: Cache, user: int): int {
    if user in c && c[user].projectID.Some? then c[user].projectID.value else 0
  }

  function CachedGitlabID(c: Cache, user: int): int {
    if user in c && c[user].gitlabUserID.Some? then c[user].gitlabUserID.value else 0
  }

  // -------------------------------------------------------------------- handlers

  function TrimSlashes(s: string): string {
    if s != "" && s[|s| - 1] == '/' then TrimSlashes(s[..|s| - 1]) else s
  }

  datatype Registration = Registration(username: string, password: string, token: string, webUrl: string)

  function Cleaned(r: Registration): Registration {
    Registration(Text.TrimSpace(r.username), Text.TrimSpace(r.password), Text.TrimSpace(r.token),
                 TrimSlashes(Text.TrimSpace(r.webUrl)))
  }

  predicate AllSlashes(s: string) {
    forall k | 0 <= k < |s| :: s[k] == '/'
  }

  /** Trimming takes the slashes at the end and nothing else. */
  lemma {:induction false} TrimSlashesOf(front: string, slashes: string)
    requires AllSlashes(slashes) && (front != "" ==> front[|front| - 1] != '/')
    ensures TrimSlashes(front + slashes) == front
  {
    if slashes == "" {
      assert front + slashes == front;
    } else {
      var n := |slashes| - 1;
      TrimSlashesOf(front, slashes[..n]);
      assert (front + slashes)[..|front| + n] == front + slashes[..n];
    }
  }

  predicate Complete(r: Registration) {
    r.username != "" && r.password != "" && r.token != "" && r.webUrl != ""
  }

  /** Storing a registration: `gitlabID` is GitLab's answer for the token, None when it
      refuses. An existing user keeps the project, and the cache is not touched. */
  function Enroll(w: World, r: Registration, gitlabID: Option<int>, nonce: nat): World {
    if !Complete(r) || gitlabID.None? then w
    else
      var s := w.store;
      var known := r.username in s.byName;
      var user := if known then s.byName[r.username] else s.nextID;
      var token, webUrl := Sealed(r.token, nonce), Sealed(r.webUrl, nonce + 1);
      var row := if user in s.tokens then s.tokens[user].(token := token, webUrl := Some(webUrl))
                 else TokenRow(token, Some(webUrl), None);
      w.(store := Store(s.byName[r.username := user], s.gitlabIDs[user := gitlabID], s.tokens[user := row],
                        if known then s.nextID else s.nextID + 1))
  }

  /** A registration request, trimmed first. */
  function Register(w: World, request: Registration, gitlabID: Option<int>, nonce: nat): World {
    Enroll(w, Cleaned(request), gitlabID, nonce)
  }

  /** The request is answered with 201 Created. */
  predicate Accepted(request: Registration, gitlabID: Option<int>) {
    Complete(Cleaned(request)) && gitlabID.Some?
  }

  /** The registration stores credentials of this user. */
  predicate Enrolls(s: Store, r: Registration, gitlabID: Option<int>, user: int) {
    Complete(r) && gitlabID.Some? && r.username in s.byName && s.byName[r.username] == user
  }

  /** What login reads from the store before it writes the session. */
  datatype Snapshot = Snapshot(token: Option<string>, webUrl: Option<string>, projectID: int, gitlabID: int)

  function ReadForLogin(s: Store, user: int): Snapshot {
    Snapshot(StoredToken(s, user), StoredWebUrl(s, user), StoredProjectID(s, user), StoredGitlabID(s, user))
  }

  function WriteSession(c: Cache, user: int, username: string, snap: Snapshot, nonce: nat): Cache {
    if snap.token.Some? && snap.webUrl.Some? then
      c[user := Hash(Some(username), Some(snap.projectID), Some(snap.gitlabID),
                     Some(Sealed(snap.token.value, nonce)), Some(Sealed(snap.webUrl.value, nonce + 1)), true)]
    else c
  }

  /** A login whose password was accepted. */
  function Login(w: World, username: string, nonce: nat): World {
    if username !in w.store.byName then w
    else
      var user := w.store.byName[username];
      w.(cache := WriteSession(w.cache, user, username, ReadForLogin(w.store, user), nonce))
  }

  function Logout(w: World, user: int): World {
    w.(cache := w.cache - {user})
  }

  /** Sets one field; creates the hash, without a TTL, if it is gone. */
  function SetProjectField(c: Cache, user: int, project: int): Cache {
    if user in c then c[user := c[user].(projectID := Some(project))]
    else c[user := Hash(None, Some(project), None, None, None, false)]
  }

  function StoreProject(s: Store, user: int, project: int): Store {
    if user in s.tokens then s.(tokens := s.tokens[user := s.tokens[user].(projectID := Some(project))]) else s
  }

  /** The session may expire before the existence test and again before the write. */
  function UpdateProject(w: World, user: int, project: int, gone: bool, goneLate: bool): World {
    if project <= 0 then w
    else
      var c := Expire(w.cache, user, gone);
      World(StoreProject(w.store, user, project),
            if user !in c then c else SetProjectField(Expire(c, user, goneLate), user, project))
  }

  /** The project a review runs for: the body's, else the cached one, else the stored one. */
  function ReviewFrom(c: Cache, s: Store, user: int, body: int): int {
    var id := if body <= 0 && CachedProjectID(c, user) > 0 then CachedProjectID(c, user) else body;
    if id <= 0 && StoredProjectID(s, user) > 0 then StoredProjectID(s, user) else id
  }

  /** The same with the session expiring before the read of the cache or not. */
  function ReviewProject(w: World, user: int, body: int, gone: bool): int {
    ReviewFrom(Expire(w.cache, user, gone), w.store, user, body)
  }

  datatype Config = Config(token: string, webUrl: string, gitlabID: int)

  /** Three separate reads of the store. */
  function ConfigFrom(s1: Store, s2: Store, s3: Store, user: int): Option<Config> {
    var token, webUrl := StoredToken(s1, user), StoredWebUrl(s2, user);
    if token.Some? && webUrl.Some? then Some(Config(token.value, webUrl.value, StoredGitlabID(s3, user))) else None
  }

  /** The configuration the store alone gives. */
  function StoredConfig(s: Store, user: int): Option<Config> {
    ConfigFrom(s, s, s, user)
  }

  predicate Readable(t: Option<string>) {
    t.Some? && t.value != ""
  }

  /** The three separate reads of the cache give what is needed. */
  predicate CacheServes(c1: Cache, c2: Cache, c3: Cache, user: int) {
    user in c1 && Readable(CachedToken(c2, user)) && Readable(CachedWebUrl(c3, user))
  }

  /** getUserGitConfig: three separate reads of the cache, then three of the store. */
  function GitConfig(c1: Cache, c2: Cache, c3: Cache, s1: Store, s2: Store, s3: Store, user: int): Option<Config> {
    if CacheServes(c1, c2, c3, user) then
      Some(Config(CachedToken(c2, user).value, CachedWebUrl(c3, user).value, CachedGitlabID(c1, user)))
    else ConfigFrom(s1, s2, s3, user)
  }

  /** The same with the session expiring before any of the reads. */
  function ServedConfig(w: World, user: int, gone1: bool, gone2: bool, gone3: bool): Option<Config> {
    var first := Expire(w.cache, user, gone1);
    var second := Expire(first, user, gone2);
    GitConfig(first, second, Expire(second, user, gone3), w.store, w.store, w.store, user)
  }

  // ------------------------------------------------------------------------ runs

  datatype Step =
    | DoRegister(request: Registration, gitlabID: Option<int>, nonce: nat)
    | DoLogin(username: string, nonce: nat)
    | DoLogout(user: int)
    | DoUpdateProject(user: int, project: int, gone: bool, goneLate: bool)
    | DoExpire(user: int)

  function Apply(w: World, step: Step): World {
    match step
    case DoRegister(r, g, n) => Register(w, r, g, n)
    case DoLogin(u, n) => Login(w, u, n)
    case DoLogout(u) => Logout(w, u)
    case DoUpdateProject(u, p, g, l) => UpdateProject(w, u, p, g, l)
    case DoExpire(u) => w.(cache := Expire(w.cache, u, true))
  }

  function Run(steps: seq<Step>): World {
    if steps == [] then EMPTY else Apply(Run(steps[..|steps| - 1]), steps[|steps| - 1])
  }

  // ------------------------------------------------------------- what writes do

  /** A registration is what the store then serves its user, project and all other users
      aside. */
  lemma RegistrationIsStored(w: World, r: Registration, gitlabID: int, nonce: nat, other: int)
    requires Complete(r)
    ensures var w' := Enroll(w, r, Some(gitlabID), nonce);
            var user := if r.username in w.store.byName then w.store.byName[r.username] else w.store.nextID;
            && r.username in w'.store.byName && w'.store.byName[r.username] == user
            && StoredConfig(w'.store, user) == Some(Config(r.token, r.webUrl, gitlabID))
            && StoredProjectID(w'.store, user) == StoredProjectID(w.store, user)
            && (other != user ==> StoredConfig(w'.store, other) == StoredConfig(w.store, other)
                                  && StoredProjectID(w'.store, other) == StoredProjectID(w.store, other))
            && w'.cache == w.cache
  {
  }

  /** The field is the core text between blanks. */
  ghost predicate Around(field: string, core: string) {
    exists lead, trail ::
      Text.AllSpace(lead) && Text.AllSpace(trail) && Text.IsCore(core) && field == lead + core + trail
  }

  /** The field is the URL, then slashes, between blanks. */
  ghost predicate AroundUrl(field: string, url: string) {
    && (url != "" ==> url[|url| - 1] != '/')
    && exists slashes :: AllSlashes(slashes) && Around(field, url + slashes)
  }

  lemma AroundIsTrimmed(field: string, core: string)
    requires Around(field, core)
    ensures Text.TrimSpace(field) == core
  {
    var lead, trail :| Text.AllSpace(lead) && Text.AllSpace(trail) && Text.IsCore(core) && field == lead + core + trail;
    Text.TrimSpaceOf(lead, core, trail);
  }

  lemma AroundUrlIsTrimmed(field: string, url: string)
    requires AroundUrl(field, url)
    ensures TrimSlashes(Text.TrimSpace(field)) == url
  {
    var slashes :| AllSlashes(slashes) && Around(field, url + slashes);
    AroundIsTrimmed(field, url + slashes);
    TrimSlashesOf(url, slashes);
  }

  /** Every field is its core between blanks. */
  lemma FieldHasCore(field: string) returns (core: string)
    ensures Around(field, core)
  {
    var lead, trail := Text.TrimSpaceLeaves(field);
    core := Text.TrimSpace(field);
  }

  lemma {:induction false} SlashesAtEnd(s: string) returns (front: string, slashes: string)
    ensures s == front + slashes && AllSlashes(slashes) && (front != "" ==> front[|front| - 1] != '/')
  {
    front, slashes := s, "";
    if s != "" && s[|s| - 1] == '/' {
      front, slashes := SlashesAtEnd(s[..|s| - 1]);
      assert s == s[..|s| - 1] + ['/'];
      slashes := slashes + ['/'];
    }
  }

  lemma FieldHasUrl(field: string) returns (url: string)
    ensures AroundUrl(field, url)
  {
    var core := FieldHasCore(field);
    var front, slashes := SlashesAtEnd(core);
    url := front;
  }

  /** A registration request in terms of its own fields: with a user name, a password, a token
      and a URL between blanks, and slashes after the URL, it is refused, and changes nothing,
      exactly when one of these is empty or GitLab refuses the token; else the store then
      serves the token, the URL and the GitLab id to the user of that name. */
  lemma RequestStoresItsFields(w: World, request: Registration, gitlabID: Option<int>, nonce: nat,
                               name: string, password: string, token: string, url: string)
    requires Around(request.username, name) && Around(request.password, password)
    requires Around(request.token, token) && AroundUrl(request.webUrl, url)
    ensures var w' := Register(w, request, gitlabID, nonce);
            if name != "" && password != "" && token != "" && url != "" && gitlabID.Some? then
              var user := if name in w.store.byName then w.store.byName[name] else w.store.nextID;
              && name in w'.store.byName && w'.store.byName[name] == user
              && StoredConfig(w'.store, user) == Some(Config(token, url, gitlabID.value))
              && StoredProjectID(w'.store, user) == StoredProjectID(w.store, user)
            else w' == w
    ensures Accepted(request, gitlabID)
            <==> name != "" && password != "" && token != "" && url != "" && gitlabID.Some?
  {
    AroundIsTrimmed(request.username, name);
    AroundIsTrimmed(request.password, password);
    AroundIsTrimmed(request.token, token);
    AroundUrlIsTrimmed(request.webUrl, url);
    var r := Registration(name, password, token, url);
    assert Cleaned(request) == r;
    if Complete(r) && gitlabID.Some? {
      RegistrationIsStored(w, r, gitlabID.value, nonce, 0);
    }
  }

  /** So any request stores some such fields, or is refused. */
  lemma EveryRequestHasFields(request: Registration)
    ensures exists name, password, token, url ::
              Around(request.username, name) && Around(request.password, password)
              && Around(request.token, token) && AroundUrl(request.webUrl, url)
  {
    var name := FieldHasCore(request.username);
    var password := FieldHasCore(request.password);
    var token := FieldHasCore(request.token);
    var url := FieldHasUrl(request.webUrl);
  }

  // ------------------------------------------------------ cache agrees with store

  predicate GoodCipher(c: Cipher) {
    c.Sealed? && c.plain != ""
  }

  predicate GoodRow(row: TokenRow) {
    && GoodCipher(row.token)
    && row.webUrl.Some? && GoodCipher(row.webUrl.value)
    && (row.projectID.Some? ==> row.projectID.value > 0)
  }

  ghost predicate GoodStore(s: Store) {
    && (forall user | user in s.tokens :: GoodRow(s.tokens[user]))
    && (forall name | name in s.byName :: s.byName[name] < s.nextID)
    && (forall user | user in s.tokens :: user < s.nextID)
  }

  /** A hash is either whole or holds only the project; a project it holds is the stored
      one, and its user has a token row. */
  ghost predicate Agrees(w: World, user: int) {
    user in w.cache ==>
      var h := w.cache[user];
      && user in w.store.tokens
      && (h.projectID.Some? ==> h.projectID.value == StoredProjectID(w.store, user))
      && (h.token.Some? <==> h.webUrl.Some?)
      && (h.token.Some? ==> GoodCipher(h.token.value) && GoodCipher(h.webUrl.value))
  }

  ghost predicate Consistent(w: World) {
    GoodStore(w.store) && forall user :: Agrees(w, user)
  }

  lemma EnrollKeeps(w: World, r: Registration, g: Option<int>, n: nat)
    requires Consistent(w)
    ensures Consistent(Enroll(w, r, g, n))
  {
    var w' := Enroll(w, r, g, n);
    forall user: int
      ensures Agrees(w', user)
    {
      assert Agrees(w, user);
    }
  }

  lemma LoginKeeps(w: World, username: string, n: nat)
    requires Consistent(w)
    ensures Consistent(Login(w, username, n))
  {
    var w' := Login(w, username, n);
    forall user: int
      ensures Agrees(w', user)
    {
      assert Agrees(w, user);
    }
  }

  lemma UpdateProjectKeeps(w: World, user: int, project: int, gone: bool, goneLate: bool)
    requires Consistent(w)
    ensures Consistent(UpdateProject(w, user, project, gone, goneLate))
  {
    var w' := UpdateProject(w, user, project, gone, goneLate);
    forall u: int
      ensures Agrees(w', u)
    {
      assert Agrees(w, u);
      assert Agrees(w, user);
    }
  }

  /** Every step, expiry inside a handler included, keeps cache and store in agreement. */
  lemma StepKeepsConsistent(w: World, step: Step)
    requires Consistent(w)
    ensures Consistent(Apply(w, step))
  {
    match step
    case DoRegister(r, g, n) => EnrollKeeps(w, Cleaned(r), g, n);
    case DoLogin(u, n) => LoginKeeps(w, u, n);
    case DoUpdateProject(u, p, g, l) => UpdateProjectKeeps(w, u, p, g, l);
    case _ =>
      forall user: int
        ensures Agrees(Apply(w, step), user)
      {
        assert Agrees(w, user);
      }
  }

  lemma {:induction false} RunIsConsistent(steps: seq<Step>)
    ensures Consistent(Run(steps))
  {
    if steps != [] {
      RunIsConsistent(steps[..|steps| - 1]);
      StepKeepsConsistent(Run(steps[..|steps| - 1]), steps[|steps| - 1]);
    }
  }

  /** After any run, and with the session expiring just before the read or not, a review
      runs for the project it would run for without the cache. */
  lemma {:induction false} ReviewProjectIsStored(steps: seq<Step>, user: int, body: int, gone: bool)
    ensures var w := Run(steps);
            ReviewProject(w, user, body, gone)
              == if body <= 0 && StoredProjectID(w.store, user) > 0 then StoredProjectID(w.store, user) else body
  {
    RunIsConsistent(steps);
    assert Agrees(Run(steps), user);
  }

  predicate SetsProject(step: Step, user: int) {
    step.DoUpdateProject? && step.user == user && step.project > 0
  }

  lemma ApplyKeepsNoProject(w: World, step: Step, user: int)
    requires StoredProjectID(w.store, user) == 0 && !SetsProject(step, user)
    ensures StoredProjectID(Apply(w, step).store, user) == 0
  {
  }

  lemma {:induction false} NoneSetNoneStored(steps: seq<Step>, user: int)
    requires forall k | 0 <= k < |steps| :: !SetsProject(steps[k], user)
    ensures StoredProjectID(Run(steps).store, user) == 0
  {
    if steps != [] {
      var n := |steps| - 1;
      NoneSetNoneStored(steps[..n], user);
      ApplyKeepsNoProject(Run(steps[..n]), steps[n], user);
    }
  }

  /** A review of a user who never set a project runs for the project it names itself, and is
      refused if it names none. */
  lemma ReviewWithoutProject(steps: seq<Step>, user: int, body: int, gone: bool)
    requires forall k | 0 <= k < |steps| :: !SetsProject(steps[k], user)
    ensures ReviewProject(Run(steps), user, body, gone) == body
  {
    NoneSetNoneStored(steps, user);
    ReviewProjectIsStored(steps, user, body, gone);
  }

  /** A project once set is the one reviews run for, whenever the session expires. */
  lemma {:induction false} UpdatedProjectIsReviewed(steps: seq<Step>, user: int, project: int,
                                                    gone: bool, goneLate: bool, goneLater: bool)
    ensures user in Run(steps).store.tokens && project > 0 ==>
              ReviewProject(UpdateProject(Run(steps), user, project, gone, goneLate), user, 0, goneLater) == project
  {
    RunIsConsistent(steps);
    UpdateProjectKeeps(Run(steps), user, project, gone, goneLate);
    assert Agrees(UpdateProject(Run(steps), user, project, gone, goneLate), user);
  }

  // ------------------------------------------- credentials and re-registration

  /** The configuration a whole cached hash gives. */
  function HashConfig(h: Hash): Option<Config> {
    if h.token.Some? && h.webUrl.Some? && h.token.value.Sealed? && h.webUrl.value.Sealed? then
      Some(Config(h.token.value.plain, h.webUrl.value.plain, if h.gitlabUserID.Some? then h.gitlabUserID.value else 0))
    else None
  }

  predicate HasWholeHash(w: World, user: int) {
    user in w.cache && w.cache[user].token.Some?
  }

  /** A registration of a user with credentials in the cache overtakes the session unless
      they are the registered ones; any other leaves things as they are. */
  predicate Overtakes(w: World, r: Registration, g: Option<int>, user: int, before: bool) {
    if Enrolls(w.store, r, g, user) && HasWholeHash(w, user) then
      HashConfig(w.cache[user]) != Some(Config(r.token, r.webUrl, g.value))
    else before
  }

  /** The user's login, logout and expiry, and an update in which the session expires. */
  predicate EndsSession(s: Store, step: Step, user: int) {
    match step
    case DoRegister(_, _, _) => false
    case DoLogin(name, _) => name in s.byName && s.byName[name] == user
    case DoLogout(u) => u == user
    case DoUpdateProject(u, project, gone, goneLate) => u == user && project > 0 && (gone || goneLate)
    case DoExpire(u) => u == user
  }

  /** Whether registrations of the user have overtaken the session. */
  function Stale(steps: seq<Step>, user: int): bool {
    if steps == [] then false
    else
      var n := |steps| - 1;
      var before := Stale(steps[..n], user);
      match steps[n]
      case DoRegister(request, g, _) => Overtakes(Run(steps[..n]), Cleaned(request), g, user, before)
      case step => before && !EndsSession(Run(steps[..n]).store, step, user)
  }

  /** A whole hash gives the stored configuration. */
  predicate ServesStored(w: World, user: int) {
    HasWholeHash(w, user) ==> HashConfig(w.cache[user]) == StoredConfig(w.store, user)
  }

  /** A whole hash carries a TTL. */
  predicate Mortal(w: World, user: int) {
    HasWholeHash(w, user) ==> w.cache[user].expires
  }

  lemma EnrollOvertakes(w: World, r: Registration, g: Option<int>, n: nat, user: int)
    requires Consistent(w) && Mortal(w, user)
    ensures ServesStored(Enroll(w, r, g, n), user) <==> !Overtakes(w, r, g, user, !ServesStored(w, user))
    ensures Mortal(Enroll(w, r, g, n), user)
  {
    assert Agrees(w, user);
  }

  /** What an update does to the credentials in the cache. */
  lemma UpdateOnCredentials(w: World, user: int, u: int, project: int, gone: bool, goneLate: bool)
    requires Mortal(w, user)
    ensures var w' := UpdateProject(w, u, project, gone, goneLate);
            && StoredConfig(w'.store, user) == StoredConfig(w.store, user)
            && (HasWholeHash(w', user) <==>
                  HasWholeHash(w, user) && !(u == user && project > 0 && (gone || goneLate)))
            && (HasWholeHash(w', user) ==> HashConfig(w'.cache[user]) == HashConfig(w.cache[user])
                                           && w'.cache[user].expires)
  {
  }

  lemma ApplyServesStored(w: World, step: Step, user: int)
    requires Consistent(w) && Mortal(w, user) && !step.DoRegister?
    ensures ServesStored(Apply(w, step), user) <==> ServesStored(w, user) || EndsSession(w.store, step, user)
    ensures Mortal(Apply(w, step), user)
  {
    assert Agrees(w, user);
    match step
    case DoUpdateProject(u, project, gone, goneLate) => UpdateOnCredentials(w, user, u, project, gone, goneLate);
    case _ =>
  }

  lemma {:induction false} SessionServesStoredExactlyWhenNotStale(steps: seq<Step>, user: int)
    ensures ServesStored(Run(steps), user) <==> !Stale(steps, user)
    ensures Mortal(Run(steps), user)
  {
    if steps != [] {
      var n := |steps| - 1;
      RunIsConsistent(steps[..n]);
      SessionServesStoredExactlyWhenNotStale(steps[..n], user);
      match steps[n]
      case DoRegister(request, g, k) => EnrollOvertakes(Run(steps[..n]), Cleaned(request), g, k, user);
      case step => ApplyServesStored(Run(steps[..n]), step, user);
    }
  }

  /** What the handlers get, in terms of the session at the time of the last read. */
  lemma ServedConfigCases(w: World, user: int, gone1: bool, gone2: bool, gone3: bool)
    requires Consistent(w)
    ensures var expired := (gone1 || gone2 || gone3) && user in w.cache && w.cache[user].expires;
            ServedConfig(w, user, gone1, gone2, gone3)
              == if HasWholeHash(w, user) && !expired then HashConfig(w.cache[user]) else StoredConfig(w.store, user)
  {
    assert Agrees(w, user);
  }

  /** After any run a user is served the stored credentials exactly when no registration
      has overtaken the session, or the session expires before one of the reads. */
  lemma {:induction false} ServedConfigIsStored(steps: seq<Step>, user: int, gone1: bool, gone2: bool, gone3: bool)
    ensures ServedConfig(Run(steps), user, gone1, gone2, gone3) == StoredConfig(Run(steps).store, user)
            <==> !Stale(steps, user) || gone1 || gone2 || gone3
  {
    RunIsConsistent(steps);
    SessionServesStoredExactlyWhenNotStale(steps, user);
    ServedConfigCases(Run(steps), user, gone1, gone2, gone3);
  }

  // ------------------------------------------------------ runs in which it goes wrong

  lemma RunSnoc(steps: seq<Step>, step: Step)
    ensures Run(steps + [step]) == Apply(Run(steps), step)
  {
    assert (steps + [step])[..|steps|] == steps;
  }

  function ConfigOf(r: Registration, gitlabID: int): Config {
    Config(r.token, r.webUrl, gitlabID)
  }

  /** The world after a first user registers and logs in. */
  function FirstWorld(r: Registration, gitlabID: int): World {
    Login(Enroll(EMPTY, r, Some(gitlabID), 0), r.username, 0)
  }

  lemma FirstWorldIsWhole(r: Registration, gitlabID: int)
    requires Complete(r)
    ensures var w := FirstWorld(r, gitlabID);
            && r.username in w.store.byName && w.store.byName[r.username] == 1
            && HasWholeHash(w, 1) && w.cache[1].expires
            && HashConfig(w.cache[1]) == Some(ConfigOf(r, gitlabID))
  {
  }

  function FirstSession(request: Registration, gitlabID: int): seq<Step> {
    [DoRegister(request, Some(gitlabID), 0)] + [DoLogin(Cleaned(request).username, 0)]
  }

  lemma FirstSessionRun(request: Registration, gitlabID: int)
    ensures Run(FirstSession(request, gitlabID)) == FirstWorld(Cleaned(request), gitlabID)
  {
    var register := DoRegister(request, Some(gitlabID), 0);
    RunSnoc([], register);
    assert [register] == [] + [register];
    RunSnoc([register], DoLogin(Cleaned(request).username, 0));
  }

  lemma StaleAfterEnroll(w: World, r: Registration, g: int, n: nat, user: int)
    requires Consistent(w) && Enrolls(w.store, r, Some(g), user) && HasWholeHash(w, user)
    ensures var w' := Enroll(w, r, Some(g), n);
            && ServedConfig(w', user, false, false, false) == HashConfig(w.cache[user])
            && StoredConfig(w'.store, user) == Some(ConfigOf(r, g))
  {
    EnrollKeeps(w, r, Some(g), n);
    ServedConfigCases(Enroll(w, r, Some(g), n), user, false, false, false);
  }

  lemma StaleSnoc(steps: seq<Step>, request: Registration, g: int, n: nat, user: int)
    requires Enrolls(Run(steps).store, Cleaned(request), Some(g), user) && HasWholeHash(Run(steps), user)
    ensures Stale(steps + [DoRegister(request, Some(g), n)], user)
            <==> HashConfig(Run(steps).cache[user]) != Some(ConfigOf(Cleaned(request), g))
  {
    assert (steps + [DoRegister(request, Some(g), n)])[..|steps|] == steps;
  }

  /** Register, log in, register with other credentials: the old ones go on being served. */
  lemma StaleAfterReRegistration(first: Registration, second: Registration, g1: int, g2: int)
    requires Complete(Cleaned(first)) && Complete(Cleaned(second))
    requires Cleaned(first).username == Cleaned(second).username
    requires ConfigOf(Cleaned(first), g1) != ConfigOf(Cleaned(second), g2)
    ensures var steps := FirstSession(first, g1) + [DoRegister(second, Some(g2), 2)];
            && Stale(steps, 1)
            && ServedConfig(Run(steps), 1, false, false, false) == Some(ConfigOf(Cleaned(first), g1))
            && StoredConfig(Run(steps).store, 1) == Some(ConfigOf(Cleaned(second), g2))
  {
    var begin := FirstSession(first, g1);
    FirstSessionRun(first, g1);
    FirstWorldIsWhole(Cleaned(first), g1);
    RunIsConsistent(begin);
    RunSnoc(begin, DoRegister(second, Some(g2), 2));
    StaleSnoc(begin, second, g2, 2, 1);
    StaleAfterEnroll(Run(begin), Cleaned(second), g2, 2, 1);
  }

  /** The hash an update writes for a session gone since its existence test. */
  function ProjectAlone(project: int): Hash {
    Hash(None, Some(project), None, None, None, false)
  }

  lemma LateExpiryLeavesProject(w: World, w': World, user: int, project: int)
    requires user in w.cache && w.cache[user].expires && project > 0
    requires w' == Apply(w, DoUpdateProject(user, project, false, true))
    ensures user in w'.cache && w'.cache[user] == ProjectAlone(project)
  {
  }

  /** Register, log in, and update with the session expiring between the existence test and
      the write: a hash that holds the project alone and never expires. */
  lemma IncompleteHashIsReached(request: Registration, gitlabID: int, project: int)
    requires Complete(Cleaned(request)) && project > 0
    ensures var c := Run(FirstSession(request, gitlabID) + [DoUpdateProject(1, project, false, true)]).cache;
            1 in c && c[1] == ProjectAlone(project)
  {
    var begin, step := FirstSession(request, gitlabID), DoUpdateProject(1, project, false, true);
    FirstSessionRun(request, gitlabID);
    FirstWorldIsWhole(Cleaned(request), gitlabID);
    RunSnoc(begin, step);
    LateExpiryLeavesProject(Run(begin), Run(begin + [step]), 1, project);
  }

  // ------------------------------------------------------------------- the server

  class Server {
    var store: Store
    var cache: Cache

    constructor ()
      ensures World(store, cache) == EMPTY
    {
      store, cache := EMPTY.store, EMPTY.cache;
    }

    method HandleRegister(request: Registration, gitlabID: Option<int>, nonce: nat) returns (ok: bool)
      modifies this
      ensures World(store, cache) == Register(old(World(store, cache)), request, gitlabID, nonce)
      ensures ok <==> Accepted(request, gitlabID)
    {
      var r := Cleaned(request);
      ok := Complete(r) && gitlabID.Some?;
      if ok {
        RegisterUser(r, gitlabID, nonce);
      }
    }

    method RegisterUser(r: Registration, gitlabID: Option<int>, nonce: nat)
      requires Complete(r) && gitlabID.Some?
      modifies this`store
      ensures World(store, cache) == Enroll(old(World(store, cache)), r, gitlabID, nonce)
    {
      var user;
      if r.username in store.byName {
        user := store.byName[r.username];
        assert store.byName[r.username := user] == store.byName;
        store := store.(gitlabIDs := store.gitlabIDs[user := gitlabID]);
      } else {
        user := store.nextID;
        store := Store(store.byName[r.username := user], store.gitlabIDs[user := gitlabID], store.tokens, user + 1);
      }
      UpsertToken(user, Sealed(r.token, nonce), Sealed(r.webUrl, nonce + 1));
    }

    method UpsertToken(user: int, token: Cipher, webUrl: Cipher)
      modifies this`store
      ensures store == old(store).(tokens := old(store).tokens[user :=
                if user in old(store).tokens then old(store).tokens[user].(token := token, webUrl := Some(webUrl))
                else TokenRow(token, Some(webUrl), None)])
    {
      if user in store.tokens {
        var row := store.tokens[user];
        store := store.(tokens := store.tokens[user := row.(token := token, webUrl := Some(webUrl))]);
      } else {
        store := store.(tokens := store.tokens[user := TokenRow(token, Some(webUrl), None)]);
      }
    }

    method HandleLogin(username: string, nonce: nat)
      modifies this
      ensures World(store, cache) == Login(old(World(store, cache)), username, nonce)
    {
      if username in store.byName {
        var user := store.byName[username];
        var token := StoredToken(store, user);
        var webUrl := StoredWebUrl(store, user);
        var project := StoredProjectID(store, user);
        var gitlabID := StoredGitlabID(store, user);
        if token.Some? && webUrl.Some? {
          cache := cache[user := Hash(Some(username), Some(project), Some(gitlabID),
                                      Some(Sealed(token.value, nonce)), Some(Sealed(webUrl.value, nonce + 1)), true)];
        }
      }
    }

    method HandleLogout(user: int)
      modifies this`cache
      ensures World(store, cache) == Logout(old(World(store, cache)), user)
    {
      cache := cache - {user};
    }

    method Expires(user: int, now: bool)
      modifies this`cache
      ensures cache == Expire(old(cache), user, now)
    {
      if now && user in cache && cache[user].expires {
        cache := cache - {user};
      }
    }

    method HandleUpdateProject(user: int, project: int, gone: bool, goneLate: bool) returns (ok: bool)
      modifies this
      ensures World(store, cache) == UpdateProject(old(World(store, cache)), user, project, gone, goneLate)
      ensures ok <==> project > 0
    {
      if project <= 0 {
        return false;
      }
      store := StoreProject(store, user, project);
      Expires(user, gone);
      if user in cache {
        Expires(user, goneLate);
        cache := SetProjectField(cache, user, project);
      }
      ok := true;
    }

    /** Resolves the project of a review; the request is refused when none is found. */
    method ResolveProject(user: int, body: int, gone: bool) returns (project: int)
      modifies this`cache
      ensures project == ReviewProject(old(World(store, cache)), user, body, gone)
      ensures cache == Expire(old(cache), user, gone)
    {
      project := body;
      Expires(user, gone);
      if project <= 0 {
        var cached := CachedProjectID(cache, user);
        if cached > 0 {
          project := cached;
        }
      }
      if project <= 0 {
        var stored := StoredProjectID(store, user);
        if stored > 0 {
          project := stored;
        }
      }
    }

    method GetUserGitConfig(user: int, gone1: bool, gone2: bool, gone3: bool) returns (config: Option<Config>)
      modifies this`cache
      ensures config == ServedConfig(old(World(store, cache)), user, gone1, gone2, gone3)
    {
      Expires(user, gone1);
      var hit := user in cache;
      var gitlabID := CachedGitlabID(cache, user);
      if hit {
        Expires(user, gone2);
        var token := CachedToken(cache, user);
        Expires(user, gone3);
        var webUrl := CachedWebUrl(cache, user);
        if token.Some? && webUrl.Some? && token.value != "" && webUrl.value != "" {
          return Some(Config(token.value, webUrl.value, gitlabID));
        }
      }
      config := StoredConfig(store, user);
    }
  }
}
