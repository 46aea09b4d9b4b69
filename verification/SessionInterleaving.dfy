/** The session cache under overlapping requests. A login reads the user, the token, the URL
    and the project from the store one after the other and then writes the session; a project
    update writes the store, tests for the session and writes its field; a configuration is
    read in up to six moves. Anything may happen in between. */
module SessionInterleaving {
  import opened Session
  import opened Options

  /** How many moves had been made when a login read the user's row, the token and the URL. */
  datatype Reads = Reads(user: nat, token: nat, webUrl: nat)

  /** A request under way. `at` says how many moves had been made when its project was read
      from the store or had been written to it. */
  datatype Request =
    | LoggingIn(username: string, user: int, snap: Snapshot, stage: nat, at: nat, readAt: Reads)
    | Updating(user: int, project: int, tested: bool, at: nat)

  /** The world and the requests under way, with a history: the credentials each user ever
      registered, the number of moves made, for each user the `at` of the request that last
      wrote the project into the cache, and the reads of the login that last wrote the
      session. */
  datatype State = State(w: World, pending: map<nat, Request>, tokens: set<(int, string)>, webUrls: set<(int, string)>,
                         clock: nat, origins: map<int, nat>, readAt: map<int, Reads>)

  datatype Move =
    | SignUp(request: Registration, gitlabID: Option<int>, nonce: nat)
    | SignOut(user: int)
    | Lapse(user: int)
    | BeginLogin(id: nat, username: string)
    | BeginUpdate(id: nat, user: int, project: int)
    | Advance(id: nat, nonce: nat)

  const START := State(EMPTY, map[], {}, {}, 0, map[], map[])

  function Enrolled(s: State, r: Registration, gitlabID: Option<int>, nonce: nat): State {
    if Complete(r) && gitlabID.Some? then
      var user := if r.username in s.w.store.byName then s.w.store.byName[r.username] else s.w.store.nextID;
      s.(w := Enroll(s.w, r, gitlabID, nonce),
         tokens := s.tokens + {(user, r.token)}, webUrls := s.webUrls + {(user, r.webUrl)})
    else s
  }

  function Waiting(s: State, id: nat, r: Request): State {
    s.(pending := s.pending[id := r])
  }

  function Done(s: State, id: nat): State {
    s.(pending := s.pending - {id})
  }

  /** A login that has found its user and read nothing else. */
  function Begun(store: Store, username: string, user: int, clock: nat): Request {
    LoggingIn(username, user, Snapshot(None, None, 0, StoredGitlabID(store, user)), 0, 0, Reads(clock, clock, clock))
  }

  /** The next read of a login from the store. */
  function NextRead(store: Store, r: Request, clock: nat): Request
    requires r.LoggingIn? && r.stage < 3
  {
    if r.stage == 0 then
      r.(snap := r.snap.(token := StoredToken(store, r.user)), stage := 1, readAt := r.readAt.(token := clock))
    else if r.stage == 1 then
      r.(snap := r.snap.(webUrl := StoredWebUrl(store, r.user)), stage := 2, readAt := r.readAt.(webUrl := clock))
    else r.(snap := r.snap.(projectID := StoredProjectID(store, r.user)), stage := 3, at := clock)
  }

  /** The next query of a login: a read, or at last the write of the session. */
  function AdvanceLogin(s: State, id: nat, r: Request, nonce: nat): State
    requires r.LoggingIn?
  {
    if r.stage < 3 then Waiting(s, id, NextRead(s.w.store, r, s.clock))
    else
      var written := s.(w := s.w.(cache := WriteSession(s.w.cache, r.user, r.username, r.snap, nonce)));
      var wrote := r.snap.token.Some? && r.snap.webUrl.Some?;
      Done(if wrote then written.(origins := s.origins[r.user := r.at], readAt := s.readAt[r.user := r.readAt])
           else written, id)
  }

  /** The next query of an update: the existence test, then the write. */
  function AdvanceUpdate(s: State, id: nat, r: Request): State
    requires r.Updating?
  {
    if !r.tested then if r.user in s.w.cache then Waiting(s, id, r.(tested := true)) else Done(s, id)
    else
      Done(s.(w := s.w.(cache := SetProjectField(s.w.cache, r.user, r.project)), origins := s.origins[r.user := r.at]),
           id)
  }

  /** A login begins with the user's row, an update with its write to the store. Updates
      carry the JWT of a registered user. */
  function Act(s: State, m: Move): State {
    match m
    case SignUp(request, gitlabID, nonce) => Enrolled(s, Cleaned(request), gitlabID, nonce)
    case SignOut(user) => s.(w := Logout(s.w, user))
    case Lapse(user) => s.(w := s.w.(cache := Expire(s.w.cache, user, true)))
    case BeginLogin(id, username) =>
      if username in s.w.store.byName then
        var user := s.w.store.byName[username];
        Waiting(s, id, Begun(s.w.store, username, user, s.clock))
      else s
    case BeginUpdate(id, user, project) =>
      if project > 0 && user in s.w.store.tokens then
        Waiting(s.(w := s.w.(store := StoreProject(s.w.store, user, project))), id,
                Updating(user, project, false, s.clock + 1))
      else s
    case Advance(id, nonce) =>
      if id !in s.pending then s
      else if s.pending[id].LoggingIn? then AdvanceLogin(s, id, s.pending[id], nonce)
      else AdvanceUpdate(s, id, s.pending[id])
  }

  function Next(s: State, m: Move): State {
    Act(s, m).(clock := s.clock + 1)
  }

  function After(s: State, moves: seq<Move>): State {
    if moves == [] then s else Next(After(s, moves[..|moves| - 1]), moves[|moves| - 1])
  }

  function RunMoves(moves: seq<Move>): State {
    After(START, moves)
  }

  lemma AfterSnoc(s: State, moves: seq<Move>, m: Move)
    ensures After(s, moves + [m]) == Next(After(s, moves), m)
  {
    assert (moves + [m])[..|moves|] == moves;
  }

  lemma SameMoveAfter(s: State, a: seq<Move>, s': State, b: seq<Move>, m: Move)
    requires After(s, a) == After(s', b)
    ensures After(s, a + [m]) == After(s', b + [m])
  {
    AfterSnoc(s, a, m);
    AfterSnoc(s', b, m);
  }

  lemma LastMove(a: seq<Move>, b: seq<Move>)
    requires b != []
    ensures var n := |b| - 1; b == b[..n] + [b[n]] && a + b == (a + b[..n]) + [b[n]]
  {
  }

  lemma {:induction false} AfterConcat(s: State, a: seq<Move>, b: seq<Move>)
    ensures After(s, a + b) == After(After(s, a), b)
  {
    if b == [] {
      assert a + b == a;
    } else {
      var n := |b| - 1;
      LastMove(a, b);
      AfterConcat(s, a, b[..n]);
      SameMoveAfter(s, a + b[..n], After(s, a), b[..n], b[n]);
    }
  }

  lemma AfterOne(s: State, m: Move)
    ensures After(s, [m]) == Next(s, m)
  {
    assert [m][..0] == [];
  }

  lemma AfterCons(s: State, m: Move, rest: seq<Move>)
    ensures After(s, [m] + rest) == After(Next(s, m), rest)
  {
    AfterOne(s, m);
    AfterConcat(s, [m], rest);
  }

  lemma RunMovesSnoc(moves: seq<Move>)
    requires moves != []
    ensures RunMoves(moves) == Next(RunMoves(moves[..|moves| - 1]), moves[|moves| - 1])
  {
  }

  // --------------------------------------------------- credentials stay their owner's

  predicate Known(known: set<(int, string)>, user: int, c: Option<Cipher>) {
    c.Some? ==> c.value.Sealed? ==> (user, c.value.plain) in known
  }

  predicate KnownText(known: set<(int, string)>, user: int, t: Option<string>) {
    t.Some? ==> (user, t.value) in known
  }

  predicate OwnedRequest(s: State, r: Request) {
    r.LoggingIn? ==> KnownText(s.tokens, r.user, r.snap.token) && KnownText(s.webUrls, r.user, r.snap.webUrl)
  }

  /** Stored, cached and pending credentials are all ones their user registered. */
  ghost predicate Owned(s: State) {
    && (forall u | u in s.w.store.tokens ::
          Known(s.tokens, u, Some(s.w.store.tokens[u].token)) && Known(s.webUrls, u, s.w.store.tokens[u].webUrl))
    && (forall u | u in s.w.cache ::
          Known(s.tokens, u, s.w.cache[u].token) && Known(s.webUrls, u, s.w.cache[u].webUrl))
    && (forall id | id in s.pending :: OwnedRequest(s, s.pending[id]))
  }

  lemma EnrollKeepsOwned(s: State, r: Registration, gitlabID: Option<int>, nonce: nat)
    requires Owned(s)
    ensures Owned(Enrolled(s, r, gitlabID, nonce))
  {
  }

  lemma StoreReadsAreOwned(s: State, user: int)
    requires Owned(s)
    ensures KnownText(s.tokens, user, StoredToken(s.w.store, user))
    ensures KnownText(s.webUrls, user, StoredWebUrl(s.w.store, user))
  {
  }

  lemma WaitingKeepsOwned(s: State, id: nat, r: Request)
    requires Owned(s) && OwnedRequest(s, r)
    ensures Owned(Waiting(s, id, r))
  {
  }

  lemma WriteKeepsOwned(s: State, s': State, r: Request, nonce: nat)
    requires Owned(s) && r.LoggingIn? && OwnedRequest(s, r)
    requires s'.w == s.w.(cache := WriteSession(s.w.cache, r.user, r.username, r.snap, nonce))
    requires s'.tokens == s.tokens && s'.webUrls == s.webUrls
    requires s'.pending.Keys <= s.pending.Keys && forall id | id in s'.pending :: s'.pending[id] == s.pending[id]
    ensures Owned(s')
  {
  }

  lemma AdvanceLoginKeepsOwned(s: State, id: nat, r: Request, nonce: nat)
    requires Owned(s) && r.LoggingIn? && OwnedRequest(s, r)
    ensures Owned(AdvanceLogin(s, id, r, nonce))
  {
    StoreReadsAreOwned(s, r.user);
    var s' := AdvanceLogin(s, id, r, nonce);
    if r.stage < 3 {
      WaitingKeepsOwned(s, id, s'.pending[id]);
    } else {
      WriteKeepsOwned(s, s', r, nonce);
    }
  }

  lemma AdvanceUpdateKeepsOwned(s: State, id: nat, r: Request)
    requires Owned(s) && r.Updating?
    ensures Owned(AdvanceUpdate(s, id, r))
  {
  }

  lemma BeginUpdateKeepsOwned(s: State, id: nat, user: int, project: int)
    requires Owned(s)
    ensures Owned(Act(s, BeginUpdate(id, user, project)))
  {
  }

  lemma GoneKeepsOwned(s: State, user: int, cache: Cache)
    requires Owned(s) && (cache == s.w.cache || cache == s.w.cache - {user})
    ensures Owned(s.(w := s.w.(cache := cache)))
  {
  }

  lemma ActKeepsOwned(s: State, m: Move)
    requires Owned(s)
    ensures Owned(Act(s, m))
  {
    match m
    case SignUp(request, gitlabID, nonce) => EnrollKeepsOwned(s, Cleaned(request), gitlabID, nonce);
    case SignOut(user) => GoneKeepsOwned(s, user, s.w.cache - {user});
    case Lapse(user) => GoneKeepsOwned(s, user, Expire(s.w.cache, user, true));
    case BeginLogin(id, username) =>
      if username in s.w.store.byName {
        WaitingKeepsOwned(s, id, Begun(s.w.store, username, s.w.store.byName[username], s.clock));
      }
    case BeginUpdate(id, user, project) => BeginUpdateKeepsOwned(s, id, user, project);
    case Advance(id, nonce) =>
      if id in s.pending {
        if s.pending[id].LoggingIn? {
          AdvanceLoginKeepsOwned(s, id, s.pending[id], nonce);
        } else {
          AdvanceUpdateKeepsOwned(s, id, s.pending[id]);
        }
      }
  }

  lemma {:induction false} RunIsOwned(moves: seq<Move>)
    ensures Owned(RunMoves(moves))
  {
    if moves != [] {
      RunIsOwned(moves[..|moves| - 1]);
      ActKeepsOwned(RunMoves(moves[..|moves| - 1]), moves[|moves| - 1]);
    }
  }

  predicate HistoryWithin(s: State, s': State) {
    s.tokens <= s'.tokens && s.webUrls <= s'.webUrls
  }

  lemma NextKeepsHistory(start: State, s: State, m: Move, s': State)
    requires HistoryWithin(start, s) && s' == Next(s, m)
    ensures HistoryWithin(start, s')
  {
  }

  lemma {:induction false} AfterKeepsHistory(s: State, moves: seq<Move>)
    ensures HistoryWithin(s, After(s, moves))
  {
    if moves != [] {
      var n := |moves| - 1;
      AfterKeepsHistory(s, moves[..n]);
      NextKeepsHistory(s, After(s, moves[..n]), moves[n], After(s, moves));
    }
  }

  lemma HistoryGrows(moves: seq<Move>, n: nat)
    requires n <= |moves|
    ensures HistoryWithin(RunMoves(moves[..n]), RunMoves(moves))
  {
    assert moves == moves[..n] + moves[n..];
    AfterConcat(START, moves[..n], moves[n..]);
    AfterKeepsHistory(RunMoves(moves[..n]), moves[n..]);
  }

  lemma ConfigIsTold(moves: seq<Move>, c1: nat, c2: nat, c3: nat, s1: nat, s2: nat, s3: nat, user: int)
    requires c1 <= |moves| && c2 <= |moves| && c3 <= |moves| && s1 <= |moves| && s2 <= |moves| && s3 <= |moves|
    ensures var s := RunMoves(moves);
            var config := GitConfig(RunMoves(moves[..c1]).w.cache, RunMoves(moves[..c2]).w.cache,
                                    RunMoves(moves[..c3]).w.cache, RunMoves(moves[..s1]).w.store,
                                    RunMoves(moves[..s2]).w.store, RunMoves(moves[..s3]).w.store, user);
            config.Some? ==> (user, config.value.token) in s.tokens && (user, config.value.webUrl) in s.webUrls
  {
    ReadsAreOwned(moves, c2, user);
    ReadsAreOwned(moves, c3, user);
    ReadsAreOwned(moves, s1, user);
    ReadsAreOwned(moves, s2, user);
  }

  /** Move k is an accepted registration, of this token and URL, by the user. */
  predicate Registers(moves: seq<Move>, k: nat, user: int, token: string, webUrl: string) {
    && k < |moves| && moves[k].SignUp? && Accepted(moves[k].request, moves[k].gitlabID)
    && var r, next := Cleaned(moves[k].request), k + 1;
       && r.token == token && r.webUrl == webUrl
       && var names := RunMoves(moves[..next]).w.store.byName;
          r.username in names && names[r.username] == user
  }

  ghost predicate RegistersToken(moves: seq<Move>, user: int, token: string) {
    exists k: nat, webUrl: string :: Registers(moves, k, user, token, webUrl)
  }

  ghost predicate RegistersWebUrl(moves: seq<Move>, user: int, webUrl: string) {
    exists k: nat, token: string :: Registers(moves, k, user, token, webUrl)
  }

  /** The history holds the text as a token, or as a URL, of the user. */
  predicate Told(s: State, asUrl: bool, user: int, text: string) {
    (user, text) in if asUrl then s.webUrls else s.tokens
  }

  lemma OneMoreMove(moves: seq<Move>, k: nat)
    requires k < |moves|
    ensures RunMoves(moves[..k + 1]) == Next(RunMoves(moves[..k]), moves[k])
  {
    assert moves[..k + 1] == moves[..k] + [moves[k]];
    AfterSnoc(START, moves[..k], moves[k]);
  }

  lemma {:induction false} FirstTrue(p: nat -> bool, n: nat) returns (k: nat)
    requires p(n) && !p(0)
    ensures k < n && !p(k) && p(k + 1)
  {
    if p(n - 1) {
      k := FirstTrue(p, n - 1);
    } else {
      k := n - 1;
    }
  }

  function ToldUpTo(moves: seq<Move>, asUrl: bool, user: int, text: string): nat -> bool {
    (k: nat) => k <= |moves| && Told(RunMoves(moves[..k]), asUrl, user, text)
  }

  /** The move that brought what the history holds. */
  lemma FirstTold(moves: seq<Move>, asUrl: bool, user: int, text: string) returns (k: nat)
    requires Told(RunMoves(moves), asUrl, user, text)
    ensures k < |moves| && !Told(RunMoves(moves[..k]), asUrl, user, text)
    ensures Told(RunMoves(moves[..k + 1]), asUrl, user, text)
  {
    assert moves[..|moves|] == moves;
    NothingToldYet(moves, asUrl, user, text);
    k := FirstTrue(ToldUpTo(moves, asUrl, user, text), |moves|);
  }

  lemma NothingToldYet(moves: seq<Move>, asUrl: bool, user: int, text: string)
    ensures !Told(RunMoves(moves[..0]), asUrl, user, text)
  {
  }

  /** Only an accepted registration tells anything. */
  lemma MoveTells(s: State, m: Move, asUrl: bool, user: int, text: string)
    requires !Told(s, asUrl, user, text) && Told(Next(s, m), asUrl, user, text)
    ensures m.SignUp? && Accepted(m.request, m.gitlabID)
    ensures var r, names := Cleaned(m.request), Next(s, m).w.store.byName;
            && text == (if asUrl then r.webUrl else r.token)
            && r.username in names && names[r.username] == user
  {
    OnlySignUpTells(s, m);
    if m.SignUp? {
      SignUpEnrolls(s, m);
      EnrolledNames(s, Cleaned(m.request), m.gitlabID, m.nonce);
    }
  }

  lemma EnrolledNames(s: State, r: Registration, gitlabID: Option<int>, nonce: nat)
    ensures var s' := Enrolled(s, r, gitlabID, nonce);
            if Complete(r) && gitlabID.Some? then
              && r.username in s'.w.store.byName
              && var user := s'.w.store.byName[r.username];
                 s'.tokens == s.tokens + {(user, r.token)} && s'.webUrls == s.webUrls + {(user, r.webUrl)}
            else s' == s
  {
  }

  lemma OnlySignUpTells(s: State, m: Move)
    ensures !m.SignUp? ==> Next(s, m).tokens == s.tokens && Next(s, m).webUrls == s.webUrls
  {
  }

  lemma SignUpEnrolls(s: State, m: Move)
    requires m.SignUp?
    ensures var s', e := Next(s, m), Enrolled(s, Cleaned(m.request), m.gitlabID, m.nonce);
            s'.w == e.w && s'.tokens == e.tokens && s'.webUrls == e.webUrls
  {
  }

  lemma ToldWasRegistered(moves: seq<Move>, asUrl: bool, user: int, text: string) returns (k: nat)
    requires Told(RunMoves(moves), asUrl, user, text)
    ensures k < |moves| && moves[k].SignUp?
    ensures var r := Cleaned(moves[k].request);
            && Registers(moves, k, user, r.token, r.webUrl)
            && text == if asUrl then r.webUrl else r.token
  {
    k := FirstTold(moves, asUrl, user, text);
    OneMoreMove(moves, k);
    MoveTells(RunMoves(moves[..k]), moves[k], asUrl, user, text);
  }

  /** However requests overlap, and whenever during the run the three reads of the cache and
      the three of the store happen, a configuration served for a user consists of a token
      and a URL that accepted registrations of this user brought. */
  lemma ConfigIsOwned(moves: seq<Move>, c1: nat, c2: nat, c3: nat, s1: nat, s2: nat, s3: nat, user: int)
    requires c1 <= |moves| && c2 <= |moves| && c3 <= |moves| && s1 <= |moves| && s2 <= |moves| && s3 <= |moves|
    ensures var config := GitConfig(RunMoves(moves[..c1]).w.cache, RunMoves(moves[..c2]).w.cache,
                                    RunMoves(moves[..c3]).w.cache, RunMoves(moves[..s1]).w.store,
                                    RunMoves(moves[..s2]).w.store, RunMoves(moves[..s3]).w.store, user);
            config.Some? ==> RegistersToken(moves, user, config.value.token)
                             && RegistersWebUrl(moves, user, config.value.webUrl)
  {
    var config := GitConfig(RunMoves(moves[..c1]).w.cache, RunMoves(moves[..c2]).w.cache,
                            RunMoves(moves[..c3]).w.cache, RunMoves(moves[..s1]).w.store,
                            RunMoves(moves[..s2]).w.store, RunMoves(moves[..s3]).w.store, user);
    if config.Some? {
      ConfigIsTold(moves, c1, c2, c3, s1, s2, s3, user);
      var k := ToldWasRegistered(moves, false, user, config.value.token);
      var k' := ToldWasRegistered(moves, true, user, config.value.webUrl);
    }
  }

  lemma ReadsAreOwned(moves: seq<Move>, n: nat, user: int)
    requires n <= |moves|
    ensures var s, w := RunMoves(moves), RunMoves(moves[..n]).w;
            && KnownText(s.tokens, user, StoredToken(w.store, user))
            && KnownText(s.webUrls, user, StoredWebUrl(w.store, user))
            && (user in w.cache ==> KnownText(s.tokens, user, CachedToken(w.cache, user))
                                    && KnownText(s.webUrls, user, CachedWebUrl(w.cache, user)))
            && (user !in w.cache ==> CachedToken(w.cache, user) == Some("") == CachedWebUrl(w.cache, user))
  {
    RunIsOwned(moves[..n]);
    HistoryGrows(moves, n);
    StoreReadsAreOwned(RunMoves(moves[..n]), user);
  }

  // ------------------------------------------- requests that are not interrupted

  /** A login up to its write. */
  function LoginReads(id: nat, username: string): seq<Move> {
    [BeginLogin(id, username)] + [Advance(id, 0)] + [Advance(id, 0)] + [Advance(id, 0)]
  }

  lemma ReadStep(s: State, id: nat, r: Request, clock: nat)
    requires r.LoggingIn? && r.stage < 3
    ensures Next(Waiting(s, id, r).(clock := clock), Advance(id, 0))
         == Waiting(s, id, NextRead(s.w.store, r, clock)).(clock := clock + 1)
  {
    var waiting := Waiting(s, id, r).(clock := clock);
    assert waiting.pending[id] == r;
    assert s.pending[id := r][id := NextRead(s.w.store, r, clock)] == s.pending[id := NextRead(s.w.store, r, clock)];
  }

  /** The login as it stands after its reads, all of one store. */
  function ReadUp(store: Store, username: string, user: int, clock: nat): Request {
    LoggingIn(username, user, ReadForLogin(store, user), 3, clock + 3, Reads(clock, clock + 1, clock + 2))
  }

  lemma ThreeReads(store: Store, username: string, user: int, clock: nat)
    ensures var r := Begun(store, username, user, clock);
            NextRead(store, NextRead(store, NextRead(store, r, clock + 1), clock + 2), clock + 3)
              == ReadUp(store, username, user, clock)
  {
  }

  lemma BeginStep(s: State, id: nat, username: string)
    requires username in s.w.store.byName
    ensures var user := s.w.store.byName[username];
            Next(s, BeginLogin(id, username))
              == Waiting(s, id, Begun(s.w.store, username, user, s.clock)).(clock := s.clock + 1)
  {
  }

  lemma FourMoves(s: State, a: Move, b: Move, s1: State, s2: State, s3: State)
    requires s1 == Next(s, a) && s2 == Next(s1, b) && s3 == Next(s2, b)
    ensures After(s, [a] + [b] + [b] + [b]) == Next(s3, b)
  {
    AfterOne(s, a);
    AfterSnoc(s, [a], b);
    AfterSnoc(s, [a] + [b], b);
    AfterSnoc(s, [a] + [b] + [b], b);
  }

  lemma LoginReadsAll(s: State, id: nat, username: string)
    requires username in s.w.store.byName
    ensures After(s, LoginReads(id, username))
         == Waiting(s, id, ReadUp(s.w.store, username, s.w.store.byName[username], s.clock)).(clock := s.clock + 4)
  {
    var user, store := s.w.store.byName[username], s.w.store;
    var r0 := Begun(store, username, user, s.clock);
    var r1 := NextRead(store, r0, s.clock + 1);
    var r2 := NextRead(store, r1, s.clock + 2);
    BeginStep(s, id, username);
    ReadStep(s, id, r0, s.clock + 1);
    ReadStep(s, id, r1, s.clock + 2);
    ReadStep(s, id, r2, s.clock + 3);
    ThreeReads(store, username, user, s.clock);
    FourMoves(s, BeginLogin(id, username), Advance(id, 0), Waiting(s, id, r0).(clock := s.clock + 1),
              Waiting(s, id, r1).(clock := s.clock + 2), Waiting(s, id, r2).(clock := s.clock + 3));
  }

  lemma WriteStep(s: State, id: nat, r: Request, nonce: nat, s': State)
    requires r.LoggingIn? && r.stage >= 3 && id in s.pending && s.pending[id] == r
    requires s' == Next(s, Advance(id, nonce))
    ensures s'.w == s.w.(cache := WriteSession(s.w.cache, r.user, r.username, r.snap, nonce))
    ensures s'.pending == s.pending - {id}
  {
  }

  /** Made without interruption, the moves of a login are the login of serial runs. */
  lemma LoginAlone(s: State, id: nat, username: string, nonce: nat)
    requires username in s.w.store.byName
    ensures var s' := After(s, LoginReads(id, username) + [Advance(id, nonce)]);
            s'.w == Session.Login(s.w, username, nonce) && s'.pending == s.pending - {id}
  {
    var ready := After(s, LoginReads(id, username));
    LoginReadsAll(s, id, username);
    AfterSnoc(s, LoginReads(id, username), Advance(id, nonce));
    WriteStep(ready, id, ready.pending[id], nonce, Next(ready, Advance(id, nonce)));
  }

  function LapseMoves(user: int, now: bool): seq<Move> {
    if now then [Lapse(user)] else []
  }

  /** An update with the session lapsing before its existence test and before its write. */
  function UpdateMoves(id: nat, user: int, project: int, gone: bool, goneLate: bool): seq<Move> {
    [BeginUpdate(id, user, project)] + (LapseMoves(user, gone) + [Advance(id, 0)])
    + (LapseMoves(user, goneLate) + [Advance(id, 0)])
  }

  lemma BeginUpdateStep(s: State, id: nat, user: int, project: int, s': State)
    requires project > 0 && user in s.w.store.tokens && s' == Next(s, BeginUpdate(id, user, project))
    ensures s'.w == World(StoreProject(s.w.store, user, project), s.w.cache)
    ensures s'.pending == s.pending[id := Updating(user, project, false, s.clock + 1)]
  {
  }

  lemma LapseStep(s: State, user: int, s': State)
    requires s' == Next(s, Lapse(user))
    ensures s'.w == World(s.w.store, Expire(s.w.cache, user, true)) && s'.pending == s.pending
  {
  }

  lemma LapseAndAdvance(s: State, user: int, now: bool, id: nat) returns (lapsed: State)
    ensures After(s, LapseMoves(user, now) + [Advance(id, 0)]) == Next(lapsed, Advance(id, 0))
    ensures lapsed.w == World(s.w.store, Expire(s.w.cache, user, now)) && lapsed.pending == s.pending
  {
    AfterSnoc(s, LapseMoves(user, now), Advance(id, 0));
    if now {
      lapsed := Next(s, Lapse(user));
      AfterOne(s, Lapse(user));
      LapseStep(s, user, lapsed);
    } else {
      lapsed := s;
    }
  }

  lemma TestStep(s: State, id: nat, r: Request, s': State)
    requires id in s.pending && s.pending[id] == r && r.Updating? && !r.tested
    requires s' == Next(s, Advance(id, 0))
    ensures s'.w == s.w
    ensures s'.pending == if r.user in s.w.cache then s.pending[id := r.(tested := true)] else s.pending - {id}
  {
  }

  lemma WriteFieldStep(s: State, id: nat, r: Request, s': State)
    requires id in s.pending ==> s.pending[id] == r && r.Updating? && r.tested
    requires s' == Next(s, Advance(id, 0))
    ensures s'.w == if id in s.pending then World(s.w.store, SetProjectField(s.w.cache, r.user, r.project)) else s.w
    ensures s'.pending == s.pending - {id}
  {
  }

  /** The cache after an update's test and write. */
  lemma TestAndWrite(s: State, id: nat, r: Request, gone: bool, goneLate: bool, s': State)
    requires id in s.pending && s.pending[id] == r && r.Updating? && !r.tested
    requires s' == After(After(s, LapseMoves(r.user, gone) + [Advance(id, 0)]),
                         LapseMoves(r.user, goneLate) + [Advance(id, 0)])
    ensures var c := Expire(s.w.cache, r.user, gone);
            s'.w == World(s.w.store,
                          if r.user in c then SetProjectField(Expire(c, r.user, goneLate), r.user, r.project) else c)
    ensures s'.pending == s.pending - {id}
  {
    var lapsed := LapseAndAdvance(s, r.user, gone, id);
    var s2 := Next(lapsed, Advance(id, 0));
    TestStep(lapsed, id, r, s2);
    var late := LapseAndAdvance(s2, r.user, goneLate, id);
    WriteFieldStep(late, id, r.(tested := true), s');
  }

  lemma UpdateInThreeParts(s: State, id: nat, user: int, project: int, gone: bool, goneLate: bool)
    ensures After(s, UpdateMoves(id, user, project, gone, goneLate))
         == After(After(Next(s, BeginUpdate(id, user, project)), LapseMoves(user, gone) + [Advance(id, 0)]),
                  LapseMoves(user, goneLate) + [Advance(id, 0)])
  {
    var begin := BeginUpdate(id, user, project);
    var test, write := LapseMoves(user, gone) + [Advance(id, 0)], LapseMoves(user, goneLate) + [Advance(id, 0)];
    AfterConcat(s, [begin] + test, write);
    AfterCons(s, begin, test);
  }

  /** Made without other interruption, the moves of an update are the update of serial runs. */
  lemma UpdateAlone(s: State, id: nat, user: int, project: int, gone: bool, goneLate: bool)
    requires project > 0 && user in s.w.store.tokens
    ensures var s' := After(s, UpdateMoves(id, user, project, gone, goneLate));
            s'.w == UpdateProject(s.w, user, project, gone, goneLate) && s'.pending == s.pending - {id}
  {
    var s1 := Next(s, BeginUpdate(id, user, project));
    var s' := After(s, UpdateMoves(id, user, project, gone, goneLate));
    var r := Updating(user, project, false, s.clock + 1);
    UpdateInThreeParts(s, id, user, project, gone, goneLate);
    BeginUpdateStep(s, id, user, project, s1);
    TestAndWrite(s1, id, r, gone, goneLate, s');
    RemovedAgain(s.pending, id, r);
  }

  lemma RemovedAgain(pending: map<nat, Request>, id: nat, r: Request)
    ensures pending[id := r] - {id} == pending - {id}
  {
  }
}
