/** What the session cache holds under overlapping requests, against what the store holds:
    when the cached project and credentials are the stored ones, when a served token and URL
    were stored together, and when a hash has no credentials at all. */
module SessionFreshness {
  import opened Session
  import opened SessionInterleaving
  import opened Options
  import opened Updates

  /** The values of g on all prefixes of a list. */
  function Scan<M, T>(g: seq<M> -> T, ms: seq<M>): (values: seq<T>)
    ensures |values| == |ms| + 1
  {
    if ms == [] then [g([])] else Scan(g, ms[..|ms| - 1]) + [g(ms)]
  }

  lemma {:induction false} ScanPrefix<M, T>(g: seq<M> -> T, ms: seq<M>, n: nat)
    requires n <= |ms|
    ensures Scan(g, ms[..n]) <= Scan(g, ms)
    ensures Scan(g, ms)[n] == g(ms[..n])
  {
    if n == |ms| {
      assert ms[..n] == ms;
    } else {
      var m := |ms| - 1;
      ScanPrefix(g, ms[..m], n);
      assert ms[..m][..n] == ms[..n];
    }
  }

  function StoreOf(moves: seq<Move>): Store {
    RunMoves(moves).w.store
  }

  /** The store before each move and after the last. */
  function Stores(moves: seq<Move>): (stores: seq<Store>)
    ensures |stores| == |moves| + 1
  {
    Scan(StoreOf, moves)
  }

  lemma StoresPrefix(moves: seq<Move>, n: nat)
    requires n <= |moves|
    ensures Stores(moves[..n]) <= Stores(moves)
  {
    ScanPrefix(StoreOf, moves, n);
  }

  lemma StoreAt(moves: seq<Move>, n: nat)
    requires n <= |moves|
    ensures Stores(moves)[n] == RunMoves(moves[..n]).w.store
  {
    ScanPrefix(StoreOf, moves, n);
  }

  lemma LastStore(moves: seq<Move>)
    ensures Stores(moves)[|moves|] == RunMoves(moves).w.store
  {
    StoreAt(moves, |moves|);
    assert moves[..|moves|] == moves;
  }

  lemma StoresSnoc(moves: seq<Move>)
    requires moves != []
    ensures var n := |moves| - 1;
            && Stores(moves)[..n + 1] == Stores(moves[..n])
            && Stores(moves)[n] == RunMoves(moves[..n]).w.store
            && Stores(moves)[n + 1] == Next(RunMoves(moves[..n]), moves[n]).w.store
  {
    var n := |moves| - 1;
    StoresPrefix(moves, n);
    StoreAt(moves, n);
    LastStore(moves);
    RunMovesSnoc(moves);
  }

  // ----------------------------------------------------------- what a move stores

  /** The project that a move stores for the user, if it is an update of the user. */
  function UpdateIn(s: Store, m: Move, user: int): Option<int> {
    match m
    case BeginUpdate(_, u, project) => if u == user && project > 0 && user in s.tokens then Some(project) else None
    case _ => None
  }

  /** The credentials that a move stores for the user, if it registers the user. */
  function RegisteredIn(s: Store, m: Move, user: int): Option<Config> {
    match m
    case SignUp(request, gitlabID, _) => EnrolledIn(s, Cleaned(request), gitlabID, user)
    case _ => None
  }

  function EnrolledIn(s: Store, r: Registration, gitlabID: Option<int>, user: int): Option<Config> {
    if Complete(r) && gitlabID.Some? && user == (if r.username in s.byName then s.byName[r.username] else s.nextID)
    then Some(ConfigOf(r, gitlabID.value)) else None
  }

  function Else<T>(update: Option<T>, value: T): T {
    if update.Some? then update.value else value
  }

  function TokenOf(c: Option<Config>): Option<Option<string>> {
    if c.Some? then Some(Some(c.value.token)) else None
  }

  function WebUrlOf(c: Option<Config>): Option<Option<string>> {
    if c.Some? then Some(Some(c.value.webUrl)) else None
  }

  function GitlabIDOf(c: Option<Config>): Option<int> {
    if c.Some? then Some(c.value.gitlabID) else None
  }

  /** The store after a move, as far as the user is concerned. */
  predicate StoreFollows(s: Store, project: Option<int>, registered: Option<Config>, s': Store, user: int) {
    && StoredProjectID(s', user) == Else(project, StoredProjectID(s, user))
    && StoredToken(s', user) == Else(TokenOf(registered), StoredToken(s, user))
    && StoredWebUrl(s', user) == Else(WebUrlOf(registered), StoredWebUrl(s, user))
    && StoredGitlabID(s', user) == Else(GitlabIDOf(registered), StoredGitlabID(s, user))
  }

  lemma EnrollOnOwnRows(s: State, r: Registration, gitlabID: Option<int>, nonce: nat, user: int)
    requires EnrolledIn(s.w.store, r, gitlabID, user).Some?
    ensures StoreFollows(s.w.store, None, EnrolledIn(s.w.store, r, gitlabID, user),
                         Enrolled(s, r, gitlabID, nonce).w.store, user)
  {
  }

  lemma EnrollOnStore(s: State, r: Registration, gitlabID: Option<int>, nonce: nat, user: int)
    ensures StoreFollows(s.w.store, None, EnrolledIn(s.w.store, r, gitlabID, user),
                         Enrolled(s, r, gitlabID, nonce).w.store, user)
  {
    if EnrolledIn(s.w.store, r, gitlabID, user).Some? {
      EnrollOnOwnRows(s, r, gitlabID, nonce, user);
    }
  }

  lemma AdvanceKeepsStore(s: State, id: nat, nonce: nat)
    ensures Act(s, Advance(id, nonce)).w.store == s.w.store
  {
  }

  lemma ActOnStore(s: State, m: Move, user: int)
    ensures StoreFollows(s.w.store, UpdateIn(s.w.store, m, user), RegisteredIn(s.w.store, m, user),
                         Next(s, m).w.store, user)
  {
    match m
    case SignUp(request, gitlabID, nonce) => EnrollOnStore(s, Cleaned(request), gitlabID, nonce, user);
    case Advance(id, nonce) => AdvanceKeepsStore(s, id, nonce);
    case _ =>
  }

  // ------------------------------------------- what the cache holds was stored once

  /** The project was the stored one when `at` moves had been made. */
  predicate Taken(stores: seq<Store>, user: int, at: nat, project: int) {
    at < |stores| && project == StoredProjectID(stores[at], user)
  }

  predicate TakenID(stores: seq<Store>, user: int, at: nat, gitlabID: int) {
    at < |stores| && gitlabID == StoredGitlabID(stores[at], user)
  }

  predicate TakenToken(stores: seq<Store>, user: int, at: nat, token: Option<string>) {
    at < |stores| && token == StoredToken(stores[at], user)
  }

  predicate TakenWebUrl(stores: seq<Store>, user: int, at: nat, webUrl: Option<string>) {
    at < |stores| && webUrl == StoredWebUrl(stores[at], user)
  }

  predicate RequestTraced(stores: seq<Store>, r: Request) {
    match r
    case LoggingIn(_, user, snap, stage, at, readAt) =>
      && TakenID(stores, user, readAt.user, snap.gitlabID)
      && (stage >= 1 ==> TakenToken(stores, user, readAt.token, snap.token))
      && (stage >= 2 ==> TakenWebUrl(stores, user, readAt.webUrl, snap.webUrl))
      && (stage >= 3 ==> Taken(stores, user, at, snap.projectID))
    case Updating(user, project, _, at) => Taken(stores, user, at, project)
  }

  predicate HoldsProject(s: State, user: int) {
    user in s.w.cache && s.w.cache[user].projectID.Some?
  }

  predicate HoldsCredentials(s: State, user: int) {
    user in s.w.cache && s.w.cache[user].token.Some?
  }

  predicate ProjectTraced(stores: seq<Store>, s: State, user: int) {
    HoldsProject(s, user) ==>
      user in s.origins && Taken(stores, user, s.origins[user], s.w.cache[user].projectID.value)
  }

  predicate CredentialsTraced(stores: seq<Store>, h: Hash, user: int, at: Reads) {
    && h.gitlabUserID.Some? && TakenID(stores, user, at.user, h.gitlabUserID.value)
    && h.token.Some? && h.token.value.Sealed? && TakenToken(stores, user, at.token, Decrypt(h.token.value))
    && h.webUrl.Some? && h.webUrl.value.Sealed? && TakenWebUrl(stores, user, at.webUrl, Decrypt(h.webUrl.value))
  }

  /** A hash with a token is whole, was stored once field by field, and carries a TTL; a hash
      without one has no URL and no TTL. */
  predicate HashTraced(stores: seq<Store>, s: State, user: int) {
    && ProjectTraced(stores, s, user)
    && (user in s.w.cache ==>
          var h := s.w.cache[user];
          if h.token.Some? then h.expires && user in s.readAt && CredentialsTraced(stores, h, user, s.readAt[user])
          else h.webUrl.None? && !h.expires)
  }

  ghost predicate AllTraced(stores: seq<Store>, s: State) {
    && (forall id | id in s.pending :: RequestTraced(stores, s.pending[id]))
    && forall user: int :: HashTraced(stores, s, user)
  }

  lemma TracedStays(before: seq<Store>, stores: seq<Store>, s: State)
    requires before <= stores && AllTraced(before, s)
    ensures AllTraced(stores, s)
  {
    forall id | id in s.pending
      ensures RequestTraced(stores, s.pending[id])
    {
      assert RequestTraced(before, s.pending[id]);
    }
    forall user: int
      ensures HashTraced(stores, s, user)
    {
      assert HashTraced(before, s, user);
    }
  }

  lemma WaitingTraced(stores: seq<Store>, s: State, id: nat, r: Request)
    requires AllTraced(stores, s) && RequestTraced(stores, r)
    ensures AllTraced(stores, Waiting(s, id, r))
  {
    forall user: int
      ensures HashTraced(stores, Waiting(s, id, r), user)
    {
      assert HashTraced(stores, s, user);
    }
  }

  /** The two states agree on the user's hash and on where it came from. */
  predicate SameHash(s: State, s': State, u: int) {
    && (u in s'.w.cache ==> u in s.w.cache && s'.w.cache[u] == s.w.cache[u])
    && (u in s.origins ==> u in s'.origins && s'.origins[u] == s.origins[u])
    && (u in s.readAt ==> u in s'.readAt && s'.readAt[u] == s.readAt[u])
  }

  /** A move that adds no request and touches the hash of one user only. */
  lemma WriteTraced(stores: seq<Store>, s: State, s': State, user: int)
    requires AllTraced(stores, s) && HashTraced(stores, s', user)
    requires s'.pending.Keys <= s.pending.Keys && forall id | id in s'.pending :: s'.pending[id] == s.pending[id]
    requires forall u: int | u != user :: SameHash(s, s', u)
    ensures AllTraced(stores, s')
  {
    forall u: int
      ensures HashTraced(stores, s', u)
    {
      assert HashTraced(stores, s, u);
      assert u != user ==> SameHash(s, s', u);
    }
  }

  lemma NextReadTraced(stores: seq<Store>, store: Store, r: Request, clock: nat)
    requires r.LoggingIn? && r.stage < 3 && RequestTraced(stores, r)
    requires clock < |stores| && stores[clock] == store
    ensures RequestTraced(stores, NextRead(store, r, clock))
  {
  }

  lemma SessionWriteTraced(stores: seq<Store>, s: State, id: nat, r: Request, nonce: nat)
    requires r.LoggingIn? && r.stage >= 3 && RequestTraced(stores, r) && HashTraced(stores, s, r.user)
    ensures HashTraced(stores, AdvanceLogin(s, id, r, nonce), r.user)
  {
  }

  lemma AdvanceLoginTraced(stores: seq<Store>, s: State, id: nat, r: Request, nonce: nat)
    requires AllTraced(stores, s) && r.LoggingIn? && RequestTraced(stores, r)
    requires s.clock < |stores| && stores[s.clock] == s.w.store
    ensures AllTraced(stores, AdvanceLogin(s, id, r, nonce))
  {
    var s' := AdvanceLogin(s, id, r, nonce);
    if r.stage < 3 {
      NextReadTraced(stores, s.w.store, r, s.clock);
      WaitingTraced(stores, s, id, NextRead(s.w.store, r, s.clock));
    } else {
      assert HashTraced(stores, s, r.user);
      SessionWriteTraced(stores, s, id, r, nonce);
      WriteTraced(stores, s, s', r.user);
    }
  }

  lemma FieldWriteTraced(stores: seq<Store>, s: State, id: nat, r: Request)
    requires r.Updating? && RequestTraced(stores, r) && HashTraced(stores, s, r.user)
    ensures HashTraced(stores, AdvanceUpdate(s, id, r), r.user)
  {
  }

  lemma AdvanceUpdateTraced(stores: seq<Store>, s: State, id: nat, r: Request)
    requires AllTraced(stores, s) && r.Updating? && RequestTraced(stores, r)
    ensures AllTraced(stores, AdvanceUpdate(s, id, r))
  {
    var s' := AdvanceUpdate(s, id, r);
    if !r.tested && r.user in s.w.cache {
      WaitingTraced(stores, s, id, s'.pending[id]);
    } else {
      assert HashTraced(stores, s, r.user);
      FieldWriteTraced(stores, s, id, r);
      WriteTraced(stores, s, s', r.user);
    }
  }

  lemma BeginUpdateTraced(stores: seq<Store>, s: State, id: nat, user: int, project: int)
    requires AllTraced(stores, s) && project > 0 && user in s.w.store.tokens
    requires s.clock + 1 < |stores| && stores[s.clock + 1] == StoreProject(s.w.store, user, project)
    ensures AllTraced(stores, Act(s, BeginUpdate(id, user, project)))
  {
    var stored := s.(w := s.w.(store := StoreProject(s.w.store, user, project)));
    assert HashTraced(stores, s, user);
    WriteTraced(stores, s, stored, user);
    WaitingTraced(stores, stored, id, Updating(user, project, false, s.clock + 1));
  }

  lemma SignUpTraced(stores: seq<Store>, s: State, r: Registration, gitlabID: Option<int>, nonce: nat)
    requires AllTraced(stores, s)
    ensures AllTraced(stores, Enrolled(s, r, gitlabID, nonce))
  {
    assert HashTraced(stores, s, 0);
    WriteTraced(stores, s, Enrolled(s, r, gitlabID, nonce), 0);
  }

  lemma GoneTraced(stores: seq<Store>, s: State, user: int, cache: Cache)
    requires AllTraced(stores, s) && (cache == s.w.cache || cache == s.w.cache - {user})
    ensures AllTraced(stores, s.(w := s.w.(cache := cache)))
  {
    assert HashTraced(stores, s, user);
    WriteTraced(stores, s, s.(w := s.w.(cache := cache)), user);
  }

  lemma ActTraced(stores: seq<Store>, s: State, m: Move)
    requires AllTraced(stores, s)
    requires s.clock + 1 < |stores| && stores[s.clock] == s.w.store && stores[s.clock + 1] == Act(s, m).w.store
    ensures AllTraced(stores, Act(s, m))
  {
    match m
    case BeginLogin(id, username) =>
      if username in s.w.store.byName {
        WaitingTraced(stores, s, id, Begun(s.w.store, username, s.w.store.byName[username], s.clock));
      }
    case BeginUpdate(id, user, project) =>
      if project > 0 && user in s.w.store.tokens {
        BeginUpdateTraced(stores, s, id, user, project);
      }
    case Advance(id, nonce) =>
      if id in s.pending {
        var r := s.pending[id];
        assert RequestTraced(stores, r);
        if r.LoggingIn? {
          AdvanceLoginTraced(stores, s, id, r, nonce);
        } else {
          AdvanceUpdateTraced(stores, s, id, r);
        }
      }
    case SignUp(request, gitlabID, nonce) => SignUpTraced(stores, s, Cleaned(request), gitlabID, nonce);
    case SignOut(user) => GoneTraced(stores, s, user, s.w.cache - {user});
    case Lapse(user) => GoneTraced(stores, s, user, Expire(s.w.cache, user, true));
  }

  lemma ClockTraced(stores: seq<Store>, s: State, clock: nat, s': State)
    requires AllTraced(stores, s) && s' == s.(clock := clock)
    ensures AllTraced(stores, s')
  {
    assert HashTraced(stores, s, 0);
    WriteTraced(stores, s, s', 0);
  }

  lemma ActTracedFrom(before: seq<Store>, stores: seq<Store>, s: State, m: Move, acted: State)
    requires AllTraced(before, s) && before <= stores && acted == Act(s, m)
    requires s.clock + 1 < |stores| && stores[s.clock] == s.w.store && stores[s.clock + 1] == acted.w.store
    ensures AllTraced(stores, acted)
  {
    TracedStays(before, stores, s);
    ActTraced(stores, s, m);
  }

  lemma {:induction false} RunIsTraced(moves: seq<Move>)
    ensures RunMoves(moves).clock == |moves| && AllTraced(Stores(moves), RunMoves(moves))
  {
    if moves != [] {
      var n := |moves| - 1;
      var s := RunMoves(moves[..n]);
      RunIsTraced(moves[..n]);
      StoresSnoc(moves);
      RunMovesSnoc(moves);
      var acted := Act(s, moves[n]);
      ActTracedFrom(Stores(moves[..n]), Stores(moves), s, moves[n], acted);
      ClockTraced(Stores(moves), acted, s.clock + 1, RunMoves(moves));
    }
  }

  // ------------------------------------------------ readings and the updates between

  function Projects(stores: seq<Store>, user: int): (values: seq<int>)
    ensures |values| == |stores|
  {
    seq(|stores|, n requires 0 <= n < |stores| => StoredProjectID(stores[n], user))
  }

  function Tokens(stores: seq<Store>, user: int): (values: seq<Option<string>>)
    ensures |values| == |stores|
  {
    seq(|stores|, n requires 0 <= n < |stores| => StoredToken(stores[n], user))
  }

  function WebUrls(stores: seq<Store>, user: int): (values: seq<Option<string>>)
    ensures |values| == |stores|
  {
    seq(|stores|, n requires 0 <= n < |stores| => StoredWebUrl(stores[n], user))
  }

  function GitlabIDs(stores: seq<Store>, user: int): (values: seq<int>)
    ensures |values| == |stores|
  {
    seq(|stores|, n requires 0 <= n < |stores| => StoredGitlabID(stores[n], user))
  }

  /** The user's project updates among the moves. */
  function ProjectUpdates(stores: seq<Store>, moves: seq<Move>, user: int): (updates: seq<Option<int>>)
    requires |stores| == |moves| + 1
    ensures |updates| == |moves|
  {
    seq(|moves|, i requires 0 <= i < |moves| => UpdateIn(stores[i], moves[i], user))
  }

  /** The user's registrations among the moves, and what each gave. */
  function Registrations(stores: seq<Store>, moves: seq<Move>, user: int): (registered: seq<Option<Config>>)
    requires |stores| == |moves| + 1
    ensures |registered| == |moves|
  {
    seq(|moves|, i requires 0 <= i < |moves| => RegisteredIn(stores[i], moves[i], user))
  }

  function Map<T, U>(f: T -> U, s: seq<T>): (r: seq<U>)
    ensures |r| == |s|
  {
    seq(|s|, i requires 0 <= i < |s| => f(s[i]))
  }

  /** The store follows the moves step by step. */
  ghost predicate FollowsMoves(stores: seq<Store>, moves: seq<Move>, user: int)
    requires |stores| == |moves| + 1
  {
    forall i | 0 <= i < |moves| ::
      StoreFollows(stores[i], UpdateIn(stores[i], moves[i], user), RegisteredIn(stores[i], moves[i], user),
                   stores[i + 1], user)
  }

  lemma {:induction false} StoresFollowMoves(moves: seq<Move>, user: int)
    ensures FollowsMoves(Stores(moves), moves, user)
  {
    if moves != [] {
      var n := |moves| - 1;
      StoresFollowMoves(moves[..n], user);
      StoresSnoc(moves);
      ActOnStore(RunMoves(moves[..n]), moves[n], user);
      FollowsMovesSnoc(Stores(moves), moves, user);
    }
  }

  lemma FollowsMovesSnoc(stores: seq<Store>, moves: seq<Move>, user: int)
    requires moves != [] && |stores| == |moves| + 1
    requires FollowsMoves(stores[..|moves|], moves[..|moves| - 1], user)
    requires var n := |moves| - 1;
             StoreFollows(stores[n], UpdateIn(stores[n], moves[n], user), RegisteredIn(stores[n], moves[n], user),
                          stores[n + 1], user)
    ensures FollowsMoves(stores, moves, user)
  {
    var n := |moves| - 1;
    forall i | 0 <= i < n
      ensures StoreFollows(stores[i], UpdateIn(stores[i], moves[i], user), RegisteredIn(stores[i], moves[i], user),
                           stores[i + 1], user)
    {
      assert stores[..n + 1][i] == stores[i] && stores[..n + 1][i + 1] == stores[i + 1] && moves[..n][i] == moves[i];
    }
  }

  lemma ReadingsFollow(stores: seq<Store>, moves: seq<Move>, user: int)
    requires |stores| == |moves| + 1 && FollowsMoves(stores, moves, user)
    ensures Follows(Projects(stores, user), ProjectUpdates(stores, moves, user))
    ensures var registered := Registrations(stores, moves, user);
            && Follows(Tokens(stores, user), Map(TokenOf, registered))
            && Follows(WebUrls(stores, user), Map(WebUrlOf, registered))
            && Follows(GitlabIDs(stores, user), Map(GitlabIDOf, registered))
  {
  }

  // -------------------------------------------------------------- the project

  /** The user's last update between the readings a and b named another project than a saw. */
  ghost predicate ProjectOvertaken(moves: seq<Move>, user: int, a: nat, b: nat) {
    a <= |moves| && b <= |moves|
    && Overtaken(Projects(Stores(moves), user), ProjectUpdates(Stores(moves), moves, user), a, b)
  }

  lemma ProjectReadings(moves: seq<Move>, user: int, a: nat, b: nat)
    requires a <= b <= |moves|
    ensures StoredProjectID(Stores(moves)[a], user) == StoredProjectID(Stores(moves)[b], user)
            <==> !ProjectOvertaken(moves, user, a, b)
  {
    StoresFollowMoves(moves, user);
    ReadingsFollow(Stores(moves), moves, user);
    DiffersExactlyWhenOvertaken(Projects(Stores(moves), user), ProjectUpdates(Stores(moves), moves, user), a, b);
  }

  /** Where the project that the cache holds after c moves came from. */
  lemma ProjectOrigin(moves: seq<Move>, c: nat, user: int)
    requires c <= |moves|
    ensures var s := RunMoves(moves[..c]);
            HoldsProject(s, user) ==>
              && user in s.origins && s.origins[user] <= c
              && CachedProjectID(s.w.cache, user) == StoredProjectID(Stores(moves)[s.origins[user]], user)
  {
    RunIsTraced(moves[..c]);
    assert HashTraced(Stores(moves[..c]), RunMoves(moves[..c]), user);
    StoresPrefix(moves, c);
  }

  ghost predicate CachedProjectOvertaken(moves: seq<Move>, s: State, user: int, b: nat) {
    user in s.origins && ProjectOvertaken(moves, user, s.origins[user], b)
  }

  /** Over any interleaving, the project in the cache is the stored one exactly when the
      user's last update, if it named another project, was stored before the request that
      last wrote the cache took its project. */
  lemma {:induction false} ProjectIsStoredExactlyWhenNotOvertaken(moves: seq<Move>, user: int)
    ensures var s := RunMoves(moves);
            HoldsProject(s, user) ==>
              (CachedProjectID(s.w.cache, user) == StoredProjectID(s.w.store, user)
               <==> !CachedProjectOvertaken(moves, s, user, |moves|))
  {
    assert moves[..|moves|] == moves;
    ProjectOrigin(moves, |moves|, user);
    LastStore(moves);
    var s := RunMoves(moves);
    if HoldsProject(s, user) {
      ProjectReadings(moves, user, s.origins[user], |moves|);
    }
  }

  lemma {:induction false} StoredIsNotNegative(moves: seq<Move>, user: int)
    ensures StoredProjectID(RunMoves(moves).w.store, user) >= 0
  {
    if moves != [] {
      var n := |moves| - 1;
      StoredIsNotNegative(moves[..n], user);
      RunMovesSnoc(moves);
      ActOnStore(RunMoves(moves[..n]), moves[n], user);
    }
  }

  /** So a review that names no project, reading the cache after c moves and the store after
      b, runs for the project then stored, unless it found in the cache one that has been
      overtaken by then. */
  lemma {:induction false} ReviewIsStoredExactlyWhenNotOvertaken(moves: seq<Move>, c: nat, b: nat, user: int)
    requires c <= b <= |moves|
    ensures var s, store := RunMoves(moves[..c]), RunMoves(moves[..b]).w.store;
            ReviewFrom(s.w.cache, store, user, 0) == StoredProjectID(store, user)
            <==> !(CachedProjectID(s.w.cache, user) > 0 && CachedProjectOvertaken(moves, s, user, b))
  {
    var s := RunMoves(moves[..c]);
    StoredIsNotNegative(moves[..b], user);
    ProjectOrigin(moves, c, user);
    StoreAt(moves, b);
    if HoldsProject(s, user) {
      ProjectReadings(moves, user, s.origins[user], b);
    }
  }

  // ---------------------------------------------------------- the credentials

  /** The user's last registration between the readings a and b gave another token than a saw. */
  ghost predicate TokenOvertaken(moves: seq<Move>, user: int, a: nat, b: nat) {
    a <= |moves| && b <= |moves|
    && Overtaken(Tokens(Stores(moves), user), Map(TokenOf, Registrations(Stores(moves), moves, user)), a, b)
  }

  ghost predicate WebUrlOvertaken(moves: seq<Move>, user: int, a: nat, b: nat) {
    a <= |moves| && b <= |moves|
    && Overtaken(WebUrls(Stores(moves), user), Map(WebUrlOf, Registrations(Stores(moves), moves, user)), a, b)
  }

  ghost predicate GitlabIDOvertaken(moves: seq<Move>, user: int, a: nat, b: nat) {
    a <= |moves| && b <= |moves|
    && Overtaken(GitlabIDs(Stores(moves), user), Map(GitlabIDOf, Registrations(Stores(moves), moves, user)), a, b)
  }

  lemma CredentialReadings(moves: seq<Move>, user: int, a: nat, b: nat)
    requires a <= b <= |moves|
    ensures StoredToken(Stores(moves)[a], user) == StoredToken(Stores(moves)[b], user)
            <==> !TokenOvertaken(moves, user, a, b)
    ensures StoredWebUrl(Stores(moves)[a], user) == StoredWebUrl(Stores(moves)[b], user)
            <==> !WebUrlOvertaken(moves, user, a, b)
    ensures StoredGitlabID(Stores(moves)[a], user) == StoredGitlabID(Stores(moves)[b], user)
            <==> !GitlabIDOvertaken(moves, user, a, b)
  {
    var stores := Stores(moves);
    var registered := Registrations(stores, moves, user);
    StoresFollowMoves(moves, user);
    ReadingsFollow(stores, moves, user);
    DiffersExactlyWhenOvertaken(Tokens(stores, user), Map(TokenOf, registered), a, b);
    DiffersExactlyWhenOvertaken(WebUrls(stores, user), Map(WebUrlOf, registered), a, b);
    DiffersExactlyWhenOvertaken(GitlabIDs(stores, user), Map(GitlabIDOf, registered), a, b);
  }

  /** Where the credentials that the cache holds after c moves came from. */
  lemma CredentialOrigin(moves: seq<Move>, c: nat, user: int)
    requires c <= |moves|
    ensures var s := RunMoves(moves[..c]);
            HoldsCredentials(s, user) ==>
              && s.w.cache[user].expires && user in s.readAt
              && var at := s.readAt[user];
              && at.token <= c && at.webUrl <= c && at.user <= c
              && CachedToken(s.w.cache, user).Some? && CachedWebUrl(s.w.cache, user).Some?
              && CachedToken(s.w.cache, user) == StoredToken(Stores(moves)[at.token], user)
              && CachedWebUrl(s.w.cache, user) == StoredWebUrl(Stores(moves)[at.webUrl], user)
              && CachedGitlabID(s.w.cache, user) == StoredGitlabID(Stores(moves)[at.user], user)
    ensures var s := RunMoves(moves[..c]);
            !HoldsCredentials(s, user) ==>
              !Readable(CachedToken(s.w.cache, user)) && !Readable(CachedWebUrl(s.w.cache, user))
  {
    RunIsTraced(moves[..c]);
    assert HashTraced(Stores(moves[..c]), RunMoves(moves[..c]), user);
    StoresPrefix(moves, c);
  }

  /** Over any interleaving, each cached credential is the stored one exactly when the user's
      last registration since the login read it, if any, registered the same one. */
  lemma {:induction false} CredentialsAreStoredExactlyWhenNotOvertaken(moves: seq<Move>, user: int)
    ensures var s := RunMoves(moves);
            HoldsCredentials(s, user) ==>
              && user in s.readAt
              && (CachedToken(s.w.cache, user) == StoredToken(s.w.store, user)
                  <==> !TokenOvertaken(moves, user, s.readAt[user].token, |moves|))
              && (CachedWebUrl(s.w.cache, user) == StoredWebUrl(s.w.store, user)
                  <==> !WebUrlOvertaken(moves, user, s.readAt[user].webUrl, |moves|))
              && (CachedGitlabID(s.w.cache, user) == StoredGitlabID(s.w.store, user)
                  <==> !GitlabIDOvertaken(moves, user, s.readAt[user].user, |moves|))
  {
    assert moves[..|moves|] == moves;
    CredentialOrigin(moves, |moves|, user);
    LastStore(moves);
    var s := RunMoves(moves);
    if HoldsCredentials(s, user) {
      CredentialReadings(moves, user, s.readAt[user].token, |moves|);
      CredentialReadings(moves, user, s.readAt[user].webUrl, |moves|);
      CredentialReadings(moves, user, s.readAt[user].user, |moves|);
    }
  }

  predicate NoEmptyTexts(s: Store, user: int) {
    StoredToken(s, user) != Some("") && StoredWebUrl(s, user) != Some("")
  }

  lemma {:induction false} TextsAreNotEmpty(stores: seq<Store>, moves: seq<Move>, n: nat, user: int)
    requires |stores| == |moves| + 1 && n <= |moves| && FollowsMoves(stores, moves, user)
    requires NoEmptyTexts(stores[0], user)
    ensures NoEmptyTexts(stores[n], user)
  {
    if n > 0 {
      TextsAreNotEmpty(stores, moves, n - 1, user);
      TextsStayNotEmpty(stores[n - 1], moves[n - 1], stores[n], user);
    }
  }

  lemma StoredTextsAreNotEmpty(moves: seq<Move>, n: nat, user: int)
    requires n <= |moves|
    ensures NoEmptyTexts(Stores(moves)[n], user)
  {
    StoresFollowMoves(moves, user);
    FirstStore(moves);
    TextsAreNotEmpty(Stores(moves), moves, n, user);
  }

  lemma FirstStore(moves: seq<Move>)
    ensures Stores(moves)[0] == START.w.store
  {
    StoreAt(moves, 0);
    assert moves[..0] == [];
  }

  lemma TextsStayNotEmpty(s: Store, m: Move, s': Store, user: int)
    requires NoEmptyTexts(s, user)
    requires StoreFollows(s, UpdateIn(s, m, user), RegisteredIn(s, m, user), s', user)
    ensures NoEmptyTexts(s', user)
  {
    if m.SignUp? {
      EnrolledTexts(s, Cleaned(m.request), m.gitlabID, user);
    }
  }

  lemma EnrolledTexts(s: Store, r: Registration, gitlabID: Option<int>, user: int)
    ensures var c := EnrolledIn(s, r, gitlabID, user);
            c.Some? ==> c.value.token != "" && c.value.webUrl != ""
  {
  }

  /** One of the credentials in the cache has been overtaken since its login read it. */
  ghost predicate CredentialsOvertaken(moves: seq<Move>, user: int) {
    var s := RunMoves(moves);
    HoldsCredentials(s, user) && user in s.readAt &&
    var at := s.readAt[user];
    || TokenOvertaken(moves, user, at.token, |moves|)
    || WebUrlOvertaken(moves, user, at.webUrl, |moves|)
    || GitlabIDOvertaken(moves, user, at.user, |moves|)
  }

  /** What is served from one state whose hashes are whole or bare. */
  lemma ServedCases(w: World, user: int, gone1: bool, gone2: bool, gone3: bool)
    requires HasWholeHash(w, user) ==> w.cache[user].expires && Readable(CachedToken(w.cache, user))
                                       && Readable(CachedWebUrl(w.cache, user))
    requires !HasWholeHash(w, user) ==> !Readable(CachedToken(w.cache, user))
    ensures ServedConfig(w, user, gone1, gone2, gone3)
         == if HasWholeHash(w, user) && !gone1 && !gone2 && !gone3
            then Some(Config(CachedToken(w.cache, user).value, CachedWebUrl(w.cache, user).value,
                             CachedGitlabID(w.cache, user)))
            else StoredConfig(w.store, user)
  {
  }

  /** So over any interleaving the stored configuration is served exactly when none of the
      cached credentials has been overtaken, or the session expires before one of the reads. */
  lemma {:induction false} ServedConfigIsStoredExactlyWhenNotOvertaken(moves: seq<Move>, user: int, gone1: bool,
                                                                       gone2: bool, gone3: bool)
    ensures ServedConfig(RunMoves(moves).w, user, gone1, gone2, gone3) == StoredConfig(RunMoves(moves).w.store, user)
            <==> !CredentialsOvertaken(moves, user) || gone1 || gone2 || gone3
  {
    var s := RunMoves(moves);
    assert moves[..|moves|] == moves;
    CredentialOrigin(moves, |moves|, user);
    if HoldsCredentials(s, user) {
      StoredTextsAreNotEmpty(moves, s.readAt[user].token, user);
      StoredTextsAreNotEmpty(moves, s.readAt[user].webUrl, user);
    }
    ServedCases(s.w, user, gone1, gone2, gone3);
    CredentialsAreStoredExactlyWhenNotOvertaken(moves, user);
  }

  // ------------------------------------------------------- pairs stored together

  function Min(a: nat, b: nat): nat {
    if a <= b then a else b
  }

  function Max(a: nat, b: nat): nat {
    if a <= b then b else a
  }

  /** When the served token and URL were read from the store, by a login or by the request
      itself: c2 and c3 are the states whose cache the request read, s1 and s2 the numbers of
      moves before its reads of the store. */
  function TokenReadAt(fromCache: bool, c2: State, s1: nat, user: int): nat {
    if fromCache && user in c2.readAt then c2.readAt[user].token else s1
  }

  function WebUrlReadAt(fromCache: bool, c3: State, s2: nat, user: int): nat {
    if fromCache && user in c3.readAt then c3.readAt[user].webUrl else s2
  }

  lemma WebUrlReadings(moves: seq<Move>, user: int, t: nat, u: nat)
    requires t <= |moves| && u <= |moves|
    ensures StoredWebUrl(Stores(moves)[t], user) == StoredWebUrl(Stores(moves)[u], user)
            <==> !WebUrlOvertaken(moves, user, Min(t, u), Max(t, u))
  {
    CredentialReadings(moves, user, Min(t, u), Max(t, u));
  }

  lemma CachedTextsOrigin(moves: seq<Move>, c: nat, user: int)
    requires c <= |moves|
    ensures var s := RunMoves(moves[..c]);
            Readable(CachedToken(s.w.cache, user)) || Readable(CachedWebUrl(s.w.cache, user)) ==>
              && user in s.readAt && s.readAt[user].token <= |moves| && s.readAt[user].webUrl <= |moves|
              && CachedToken(s.w.cache, user) == StoredToken(Stores(moves)[s.readAt[user].token], user)
              && CachedWebUrl(s.w.cache, user) == StoredWebUrl(Stores(moves)[s.readAt[user].webUrl], user)
  {
    CredentialOrigin(moves, c, user);
  }

  /** The configuration served when the reads of the cache find it as in r1, r2 and r3, and
      those of the store as it was after s1, s2 and s3 moves. */
  function Served(moves: seq<Move>, r1: State, r2: State, r3: State, s1: nat, s2: nat, s3: nat, user: int)
    : Option<Config>
    requires s1 <= |moves| && s2 <= |moves| && s3 <= |moves|
  {
    var stores := Stores(moves);
    GitConfig(r1.w.cache, r2.w.cache, r3.w.cache, stores[s1], stores[s2], stores[s3], user)
  }

  /** Each of the served texts is what the store held when it was read. */
  predicate ReadFrom(stores: seq<Store>, t: nat, u: nat, config: Config, user: int) {
    && t < |stores| && u < |stores|
    && StoredToken(stores[t], user) == Some(config.token) && StoredWebUrl(stores[u], user) == Some(config.webUrl)
  }

  lemma ServedOrigin(moves: seq<Move>, c1: nat, c2: nat, c3: nat, s1: nat, s2: nat, s3: nat, user: int)
    requires c1 <= |moves| && c2 <= |moves| && c3 <= |moves| && s1 <= |moves| && s2 <= |moves| && s3 <= |moves|
    ensures var r1, r2, r3 := RunMoves(moves[..c1]), RunMoves(moves[..c2]), RunMoves(moves[..c3]);
            var config := Served(moves, r1, r2, r3, s1, s2, s3, user);
            var fromCache := CacheServes(r1.w.cache, r2.w.cache, r3.w.cache, user);
            config.Some? ==> ReadFrom(Stores(moves), TokenReadAt(fromCache, r2, s1, user),
                                      WebUrlReadAt(fromCache, r3, s2, user), config.value, user)
  {
    CachedTextsOrigin(moves, c2, user);
    CachedTextsOrigin(moves, c3, user);
  }

  /** Wherever in a run the up to six reads of a configuration happen, the URL served with a
      token was stored when the token was read exactly when, between the two readings, the
      user's last registration, if any, kept the URL. */
  lemma PairWasStoredTogetherExactlyWhenUrlWasKept(moves: seq<Move>, c1: nat, c2: nat, c3: nat,
                                                   s1: nat, s2: nat, s3: nat, user: int)
    requires c1 <= |moves| && c2 <= |moves| && c3 <= |moves| && s1 <= |moves| && s2 <= |moves| && s3 <= |moves|
    ensures var r1, r2, r3 := RunMoves(moves[..c1]), RunMoves(moves[..c2]), RunMoves(moves[..c3]);
            var config := Served(moves, r1, r2, r3, s1, s2, s3, user);
            var fromCache := CacheServes(r1.w.cache, r2.w.cache, r3.w.cache, user);
            var t, u := TokenReadAt(fromCache, r2, s1, user), WebUrlReadAt(fromCache, r3, s2, user);
            config.Some? ==>
              && ReadFrom(Stores(moves), t, u, config.value, user)
              && (StoredWebUrl(Stores(moves)[t], user) == Some(config.value.webUrl)
                  <==> !WebUrlOvertaken(moves, user, Min(t, u), Max(t, u)))
  {
    ServedOrigin(moves, c1, c2, c3, s1, s2, s3, user);
    var r1, r2, r3 := RunMoves(moves[..c1]), RunMoves(moves[..c2]), RunMoves(moves[..c3]);
    var fromCache := CacheServes(r1.w.cache, r2.w.cache, r3.w.cache, user);
    var t, u := TokenReadAt(fromCache, r2, s1, user), WebUrlReadAt(fromCache, r3, s2, user);
    if t <= |moves| && u <= |moves| {
      WebUrlReadings(moves, user, t, u);
    }
  }

  // ------------------------------------------------------ hashes without credentials

  /** What a move makes of the user's hash being bare: an update that has passed its test
      and finds the hash gone makes it so, a login that writes the session or a logout ends
      it, and nothing else touches it. */
  predicate BareAfter(s: State, m: Move, user: int, before: bool) {
    match m
    case Advance(id, _) =>
      if id !in s.pending || s.pending[id].user != user then before
      else
        (match s.pending[id]
         case Updating(_, _, tested, _) => before || (tested && user !in s.w.cache)
         case LoggingIn(_, _, snap, stage, _, _) => before && !(stage >= 3 && snap.token.Some? && snap.webUrl.Some?))
    case SignOut(u) => before && u != user
    case _ => before
  }

  function Bare(moves: seq<Move>, user: int): bool {
    if moves == [] then false
    else
      var n := |moves| - 1;
      BareAfter(RunMoves(moves[..n]), moves[n], user, Bare(moves[..n], user))
  }

  /** The cache holds a hash without credentials. */
  predicate HoldsBareHash(s: State, user: int) {
    user in s.w.cache && s.w.cache[user].token.None?
  }

  lemma AdvanceOnBare(s: State, id: nat, nonce: nat, user: int)
    requires id in s.pending
    ensures HoldsBareHash(Act(s, Advance(id, nonce)), user)
            <==> BareAfter(s, Advance(id, nonce), user, HoldsBareHash(s, user))
  {
  }

  lemma EnrolledKeepsCache(s: State, r: Registration, gitlabID: Option<int>, nonce: nat)
    ensures Enrolled(s, r, gitlabID, nonce).w.cache == s.w.cache
  {
  }

  lemma KeepsCache(s: State, m: Move)
    requires m.SignUp? || m.BeginLogin? || m.BeginUpdate?
    ensures Act(s, m).w.cache == s.w.cache
  {
    match m
    case SignUp(request, gitlabID, nonce) => EnrolledKeepsCache(s, Cleaned(request), gitlabID, nonce);
    case _ =>
  }

  lemma ActOnBare(s: State, m: Move, user: int, s': State)
    requires HoldsBareHash(s, user) ==> !s.w.cache[user].expires
    requires s'.w.cache == Act(s, m).w.cache
    ensures HoldsBareHash(s', user) <==> BareAfter(s, m, user, HoldsBareHash(s, user))
  {
    match m
    case Advance(id, nonce) =>
      if id in s.pending {
        AdvanceOnBare(s, id, nonce, user);
      }
    case SignOut(u) =>
    case Lapse(u) =>
    case _ => KeepsCache(s, m);
  }

  /** Over any interleaving, the cache holds a hash without credentials exactly when some
      update found the session it had tested for gone, and no login or logout of the user
      came since. It carries no TTL, so that no expiry ends it. */
  lemma {:induction false} BareExactlyWhenUpdateFoundHashGone(moves: seq<Move>, user: int)
    ensures HoldsBareHash(RunMoves(moves), user) <==> Bare(moves, user)
    ensures HoldsBareHash(RunMoves(moves), user) ==> !RunMoves(moves).w.cache[user].expires
  {
    RunIsTraced(moves);
    assert HashTraced(Stores(moves), RunMoves(moves), user);
    if moves != [] {
      var n := |moves| - 1;
      BareExactlyWhenUpdateFoundHashGone(moves[..n], user);
      RunMovesSnoc(moves);
      ActOnBare(RunMoves(moves[..n]), moves[n], user, RunMoves(moves));
    }
  }
}
