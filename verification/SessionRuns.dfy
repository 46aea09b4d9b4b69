/** Runs with overlapping requests in which something goes wrong. */
module SessionRuns {
  import opened Session
  import opened SessionInterleaving
  import opened Options

  /** A login that an update overtakes between its reads and its write. */
  function OvertakenLogin(a: nat, b: nat, user: int, username: string, project: int, nonce: nat): seq<Move> {
    LoginReads(a, username) + UpdateMoves(b, user, project, false, false) + [Advance(a, nonce)]
  }

  lemma LostUpdateWorld(w: World, user: int, username: string, project: int, nonce: nat)
    requires user in w.store.tokens && 0 < StoredProjectID(w.store, user) && project > 0
    requires StoredToken(w.store, user).Some? && StoredWebUrl(w.store, user).Some?
    ensures var between := UpdateProject(w, user, project, false, false);
            var after := World(between.store,
                               WriteSession(between.cache, user, username, ReadForLogin(w.store, user), nonce));
            && StoredProjectID(after.store, user) == project
            && ReviewProject(after, user, 0, false) == StoredProjectID(w.store, user)
  {
  }

  /** Such an update is lost: the session carries the project of before, and reviews that
      name no project run for it. */
  lemma UpdateDuringLoginIsLost(s: State, a: nat, b: nat, user: int, username: string, project: int, nonce: nat)
    requires a != b && username in s.w.store.byName && s.w.store.byName[username] == user
    requires user in s.w.store.tokens && 0 < StoredProjectID(s.w.store, user) && project > 0
    requires StoredToken(s.w.store, user).Some? && StoredWebUrl(s.w.store, user).Some?
    ensures var after := After(s, OvertakenLogin(a, b, user, username, project, nonce)).w;
            && StoredProjectID(after.store, user) == project
            && ReviewProject(after, user, 0, false) == StoredProjectID(s.w.store, user)
  {
    var update := UpdateMoves(b, user, project, false, false);
    LoginReadsAll(s, a, username);
    var s1 := After(s, LoginReads(a, username));
    AfterConcat(s, LoginReads(a, username), update);
    UpdateAlone(s1, b, user, project, false, false);
    var s2 := After(s1, update);
    AfterSnoc(s, LoginReads(a, username) + update, Advance(a, nonce));
    WriteStep(s2, a, s1.pending[a], nonce, Next(s2, Advance(a, nonce)));
    LostUpdateWorld(s.w, user, username, project, nonce);
  }

  lemma SignUpStep(s: State, request: Registration, gitlabID: int, nonce: nat, s': State)
    requires Complete(Cleaned(request)) && s' == Next(s, SignUp(request, Some(gitlabID), nonce))
    ensures s'.w == Enroll(s.w, Cleaned(request), Some(gitlabID), nonce) && s'.pending == s.pending
  {
    EnrolledWorld(s, Cleaned(request), gitlabID, nonce);
  }

  lemma EnrolledWorld(s: State, r: Registration, gitlabID: int, nonce: nat)
    requires Complete(r)
    ensures var s' := Enrolled(s, r, Some(gitlabID), nonce);
            s'.w == Enroll(s.w, r, Some(gitlabID), nonce) && s'.pending == s.pending
  {
  }

  lemma FirstUser(r: Registration, gitlabID: int, project: int)
    requires Complete(r) && project > 0
    ensures var w := Enroll(EMPTY, r, Some(gitlabID), 0);
            var s := UpdateProject(w, 1, project, false, false).store;
            && 1 in w.store.tokens && r.username in s.byName && s.byName[r.username] == 1 && 1 in s.tokens
            && StoredProjectID(s, 1) == project && StoredToken(s, 1).Some? && StoredWebUrl(s, 1).Some?
  {
  }

  /** From the empty system: sign up, choose a project, and choose another during a login. */
  lemma LostUpdateIsReached(request: Registration, gitlabID: int, first: int, second: int)
    requires Complete(Cleaned(request)) && 0 < first != second && second > 0
    ensures var begin := [SignUp(request, Some(gitlabID), 0)] + UpdateMoves(0, 1, first, false, false);
            var w := RunMoves(begin + OvertakenLogin(0, 1, 1, Cleaned(request).username, second, 0)).w;
            StoredProjectID(w.store, 1) == second && ReviewProject(w, 1, 0, false) == first
  {
    var signUp, update := [SignUp(request, Some(gitlabID), 0)], UpdateMoves(0, 1, first, false, false);
    var login := OvertakenLogin(0, 1, 1, Cleaned(request).username, second, 0);
    AfterOne(START, SignUp(request, Some(gitlabID), 0));
    SignUpStep(START, request, gitlabID, 0, After(START, signUp));
    FirstUser(Cleaned(request), gitlabID, first);
    AfterConcat(START, signUp, update);
    UpdateAlone(After(START, signUp), 0, 1, first, false, false);
    AfterConcat(START, signUp + update, login);
    UpdateDuringLoginIsLost(After(START, signUp + update), 0, 1, 1, Cleaned(request).username, second, 0);
  }

  /** The moves of a registration and a login after it. */
  function NewSession(request: Registration, gitlabID: int, nonce: nat): seq<Move> {
    [SignUp(request, Some(gitlabID), nonce)] + (LoginReads(0, Cleaned(request).username) + [Advance(0, nonce)])
  }

  lemma SessionServesItsRegistration(w: World, r: Registration, gitlabID: int, nonce: nat)
    requires Complete(r)
    ensures var w' := Session.Login(Enroll(w, r, Some(gitlabID), nonce), r.username, nonce);
            var user := if r.username in w.store.byName then w.store.byName[r.username] else w.store.nextID;
            && r.username in w'.store.byName && w'.store.byName[r.username] == user
            && user in w'.cache && HashConfig(w'.cache[user]) == Some(ConfigOf(r, gitlabID))
  {
  }

  lemma NewSessionWorld(s: State, request: Registration, gitlabID: int, nonce: nat)
    requires Complete(Cleaned(request))
    ensures var r := Cleaned(request);
            After(s, NewSession(request, gitlabID, nonce)).w
              == Session.Login(Enroll(s.w, r, Some(gitlabID), nonce), r.username, nonce)
  {
    var signUp, r := SignUp(request, Some(gitlabID), nonce), Cleaned(request);
    AfterCons(s, signUp, LoginReads(0, r.username) + [Advance(0, nonce)]);
    SignUpStep(s, request, gitlabID, nonce, Next(s, signUp));
    SessionServesItsRegistration(s.w, r, gitlabID, nonce);
    LoginAlone(Next(s, signUp), 0, r.username, nonce);
  }

  lemma MixedReads(early: World, late: World, first: Config, second: Config)
    requires 1 in early.cache && HashConfig(early.cache[1]) == Some(first) && first.token != ""
    requires 1 in late.cache && HashConfig(late.cache[1]) == Some(second) && second.webUrl != ""
    ensures GitConfig(early.cache, early.cache, late.cache, late.store, late.store, late.store, 1)
         == Some(Config(first.token, second.webUrl, first.gitlabID))
  {
  }

  /** The token and the URL need not be of one registration: read around a second
      registration and login of the user, they mix. */
  lemma ReadsCanMixRegistrations(first: Registration, second: Registration, g1: int, g2: int)
    requires Complete(Cleaned(first)) && Complete(Cleaned(second))
    requires Cleaned(first).username == Cleaned(second).username
    ensures var begin := NewSession(first, g1, 0);
            var early, late := RunMoves(begin).w, RunMoves(begin + NewSession(second, g2, 2)).w;
            GitConfig(early.cache, early.cache, late.cache, late.store, late.store, late.store, 1)
              == Some(Config(Cleaned(first).token, Cleaned(second).webUrl, g1))
  {
    var begin := NewSession(first, g1, 0);
    NewSessionWorld(START, first, g1, 0);
    SessionServesItsRegistration(EMPTY, Cleaned(first), g1, 0);
    AfterConcat(START, begin, NewSession(second, g2, 2));
    NewSessionWorld(RunMoves(begin), second, g2, 2);
    SessionServesItsRegistration(RunMoves(begin).w, Cleaned(second), g2, 2);
    MixedReads(RunMoves(begin).w, RunMoves(begin + NewSession(second, g2, 2)).w,
               ConfigOf(Cleaned(first), g1), ConfigOf(Cleaned(second), g2));
  }

  // --------------------------------------------------- a logout inside an update

  lemma AfterFour(s: State, a: Move, b: Move, c: Move, d: Move)
    ensures After(s, [a] + [b] + [c] + [d]) == Next(Next(Next(Next(s, a), b), c), d)
  {
    AfterOne(s, a);
    AfterSnoc(s, [a], b);
    AfterSnoc(s, [a] + [b], c);
    AfterSnoc(s, [a] + [b] + [c], d);
  }

  /** The user logs out between the existence test of an update and its write. */
  function LogoutDuringUpdate(id: nat, user: int, project: int): seq<Move> {
    [BeginUpdate(id, user, project)] + [Advance(id, 0)] + [SignOut(user)] + [Advance(id, 0)]
  }

  lemma SignOutStep(s: State, user: int, s': State)
    requires s' == Next(s, SignOut(user))
    ensures s'.w == World(s.w.store, s.w.cache - {user}) && s'.pending == s.pending
  {
  }

  /** The update then leaves a hash that holds the project alone, though nothing expired. */
  lemma LogoutLeavesBareHash(s: State, id: nat, user: int, project: int)
    requires project > 0 && user in s.w.store.tokens && user in s.w.cache
    ensures var c := After(s, LogoutDuringUpdate(id, user, project)).w.cache;
            user in c && c[user] == ProjectAlone(project)
  {
    var begin, next, out := BeginUpdate(id, user, project), Advance(id, 0), SignOut(user);
    AfterFour(s, begin, next, out, next);
    var r := Updating(user, project, false, s.clock + 1);
    var s1 := Next(s, begin);
    var s2 := Next(s1, next);
    var s3 := Next(s2, out);
    BeginUpdateStep(s, id, user, project, s1);
    TestStep(s1, id, r, s2);
    SignOutStep(s2, user, s3);
    WriteFieldStep(s3, id, r.(tested := true), Next(s3, next));
  }

  lemma FirstSessionState(request: Registration, gitlabID: int)
    requires Complete(Cleaned(request))
    ensures var w := RunMoves(NewSession(request, gitlabID, 0)).w;
            1 in w.store.tokens && 1 in w.cache
  {
    NewSessionWorld(START, request, gitlabID, 0);
    SessionServesItsRegistration(EMPTY, Cleaned(request), gitlabID, 0);
    FirstUser(Cleaned(request), gitlabID, 1);
  }

  /** From the empty system: sign up, log in, and log out inside an update. */
  lemma BareHashIsReachedByLogout(request: Registration, gitlabID: int, project: int)
    requires Complete(Cleaned(request)) && project > 0
    ensures var c := RunMoves(NewSession(request, gitlabID, 0) + LogoutDuringUpdate(1, 1, project)).w.cache;
            1 in c && c[1] == ProjectAlone(project)
  {
    FirstSessionState(request, gitlabID);
    AfterConcat(START, NewSession(request, gitlabID, 0), LogoutDuringUpdate(1, 1, project));
    LogoutLeavesBareHash(RunMoves(NewSession(request, gitlabID, 0)), 1, 1, project);
  }

  // ----------------------------------------------- registrations during a login

  lemma BeginOne(s: State, id: nat, username: string, s': State)
    requires username in s.w.store.byName && s' == Next(s, BeginLogin(id, username))
    ensures s'.w == s.w
    ensures s'.pending == s.pending[id := Begun(s.w.store, username, s.w.store.byName[username], s.clock)]
  {
  }

  lemma ReadOne(s: State, id: nat, r: Request, s': State)
    requires r.LoggingIn? && r.stage < 3 && id in s.pending && s.pending[id] == r && s' == Next(s, Advance(id, 0))
    ensures s'.w == s.w && s'.pending == s.pending[id := NextRead(s.w.store, r, s.clock)]
  {
  }

  /** A session just written is the one served. */
  lemma WrittenIsServed(w: World, user: int, username: string, snap: Snapshot, nonce: nat)
    requires Readable(snap.token) && Readable(snap.webUrl)
    ensures ServedConfig(w.(cache := WriteSession(w.cache, user, username, snap, nonce)), user, false, false, false)
         == Some(Config(snap.token.value, snap.webUrl.value, snap.gitlabID))
  {
  }

  /** The user registers again between a login's reads of the token and of the URL. */
  function MixedLogin(id: nat, username: string, request: Registration, gitlabID: int, nonce: nat): seq<Move> {
    [BeginLogin(id, username)] + [Advance(id, 0)] + [SignUp(request, Some(gitlabID), nonce)] + [Advance(id, 0)]
    + ([Advance(id, 0)] + [Advance(id, 0)])
  }

  lemma AfterSix(s: State, a: Move, b: Move, c: Move, d: Move, e: Move, f: Move)
    ensures After(s, [a] + [b] + [c] + [d] + ([e] + [f]))
         == Next(Next(Next(Next(Next(Next(s, a), b), c), d), e), f)
  {
    AfterConcat(s, [a] + [b] + [c] + [d], [e] + [f]);
    AfterFour(s, a, b, c, d);
    var s4 := After(s, [a] + [b] + [c] + [d]);
    AfterSnoc(s4, [e], f);
    AfterOne(s4, e);
  }

  lemma StoredAfterEnroll(w: World, r: Registration, gitlabID: int, nonce: nat, user: int)
    requires Complete(r) && r.username in w.store.byName && w.store.byName[r.username] == user
    ensures StoredConfig(Enroll(w, r, Some(gitlabID), nonce).store, user) == Some(ConfigOf(r, gitlabID))
  {
  }

  /** A login that has read the token of the first configuration and will read the URL of
      the second from the store as it is. */
  predicate WillMix(store: Store, r: Request, clock: nat, user: int, c1: Config, c2: Config) {
    && r.LoggingIn? && r.stage == 1 && r.user == user
    && var r3 := NextRead(store, NextRead(store, r, clock), clock + 1);
    && r3.LoggingIn? && r3.user == user
    && r3.snap.token == Some(c1.token) && r3.snap.webUrl == Some(c2.webUrl) && r3.snap.gitlabID == c1.gitlabID
  }

  lemma MixedReadings(before: Store, after: Store, username: string, user: int, c: nat, c': nat, c1: Config, c2: Config)
    requires StoredConfig(before, user) == Some(c1) && StoredConfig(after, user) == Some(c2)
    ensures WillMix(after, NextRead(before, Begun(before, username, user, c), c + 1), c', user, c1, c2)
  {
  }

  lemma NextClock(s: State, m: Move)
    ensures Next(s, m).clock == s.clock + 1
  {
  }

  lemma TokenThenSignUp(s: State, id: nat, username: string, request: Registration, gitlabID: int, nonce: nat,
                        s3: State)
    requires username in s.w.store.byName && Complete(Cleaned(request))
    requires s3 == Next(Next(Next(s, BeginLogin(id, username)), Advance(id, 0)),
                        SignUp(request, Some(gitlabID), nonce))
    ensures s3.w == Enroll(s.w, Cleaned(request), Some(gitlabID), nonce)
    ensures id in s3.pending
    ensures s3.pending[id] == NextRead(s.w.store, Begun(s.w.store, username, s.w.store.byName[username], s.clock),
                                       s.clock + 1)
  {
    var s1 := Next(s, BeginLogin(id, username));
    var s2 := Next(s1, Advance(id, 0));
    BeginOne(s, id, username, s1);
    NextClock(s, BeginLogin(id, username));
    ReadOne(s1, id, Begun(s.w.store, username, s.w.store.byName[username], s.clock), s2);
    SignUpStep(s2, request, gitlabID, nonce, s3);
  }

  lemma UrlProjectWrite(s: State, id: nat, r: Request, s': State)
    requires id in s.pending && s.pending[id] == r && r.LoggingIn? && r.stage == 1
    requires s' == Next(Next(Next(s, Advance(id, 0)), Advance(id, 0)), Advance(id, 0))
    ensures var r3 := NextRead(s.w.store, NextRead(s.w.store, r, s.clock), s.clock + 1);
            r3.LoggingIn? && s'.w == s.w.(cache := WriteSession(s.w.cache, r3.user, r3.username, r3.snap, 0))
  {
    var next := Advance(id, 0);
    var s1 := Next(s, next);
    var s2 := Next(s1, next);
    var r2 := NextRead(s.w.store, r, s.clock);
    ReadOne(s, id, r, s1);
    NextClock(s, next);
    ReadOne(s1, id, r2, s2);
    WriteStep(s2, id, NextRead(s.w.store, r2, s.clock + 1), 0, s');
  }

  predicate Mixing(s: State, id: nat, user: int, c1: Config, c2: Config) {
    id in s.pending && WillMix(s.w.store, s.pending[id], s.clock, user, c1, c2)
  }

  lemma RestIsServed(s: State, id: nat, s': State, user: int, c1: Config, c2: Config)
    requires Mixing(s, id, user, c1, c2) && c1.token != "" && c2.webUrl != ""
    requires s' == Next(Next(Next(s, Advance(id, 0)), Advance(id, 0)), Advance(id, 0))
    ensures ServedConfig(s'.w, user, false, false, false) == Some(Config(c1.token, c2.webUrl, c1.gitlabID))
  {
    UrlProjectWrite(s, id, s.pending[id], s');
    var r3 := NextRead(s.w.store, NextRead(s.w.store, s.pending[id], s.clock), s.clock + 1);
    WrittenIsServed(s.w, user, r3.username, r3.snap, 0);
  }

  lemma SignUpMixes(s: State, id: nat, username: string, r: Registration, gitlabID: int, nonce: nat,
                    user: int, c: Config, s3: State)
    requires StoredConfig(s.w.store, user) == Some(c) && Complete(r)
    requires r.username in s.w.store.byName && s.w.store.byName[r.username] == user
    requires s3.w == Enroll(s.w, r, Some(gitlabID), nonce) && id in s3.pending
    requires s3.pending[id] == NextRead(s.w.store, Begun(s.w.store, username, user, s.clock), s.clock + 1)
    ensures Mixing(s3, id, user, c, ConfigOf(r, gitlabID))
  {
    StoredAfterEnroll(s.w, r, gitlabID, nonce, user);
    MixedReadings(s.w.store, s3.w.store, username, user, s.clock, s3.clock, c, ConfigOf(r, gitlabID));
  }

  /** The login caches the old token beside the new URL, and serves both from then on. */
  lemma MixedPairIsCached(s: State, id: nat, username: string, request: Registration, gitlabID: int, nonce: nat,
                          user: int, c: Config)
    requires username in s.w.store.byName && s.w.store.byName[username] == user
    requires StoredConfig(s.w.store, user) == Some(c) && c.token != ""
    requires Complete(Cleaned(request)) && Cleaned(request).username == username
    ensures ServedConfig(After(s, MixedLogin(id, username, request, gitlabID, nonce)).w, user, false, false, false)
         == Some(Config(c.token, Cleaned(request).webUrl, c.gitlabID))
  {
    var begin, next, signUp := BeginLogin(id, username), Advance(id, 0), SignUp(request, Some(gitlabID), nonce);
    var s3 := Next(Next(Next(s, begin), next), signUp);
    AfterSix(s, begin, next, signUp, next, next, next);
    TokenThenSignUp(s, id, username, request, gitlabID, nonce, s3);
    SignUpMixes(s, id, username, Cleaned(request), gitlabID, nonce, user, c, s3);
    RestIsServed(s3, id, Next(Next(Next(s3, next), next), next), user, c, ConfigOf(Cleaned(request), gitlabID));
  }

  lemma FirstSignUp(request: Registration, gitlabID: int)
    requires Complete(Cleaned(request))
    ensures var w := After(START, [SignUp(request, Some(gitlabID), 0)]).w;
            && Cleaned(request).username in w.store.byName && w.store.byName[Cleaned(request).username] == 1
            && StoredConfig(w.store, 1) == Some(ConfigOf(Cleaned(request), gitlabID))
  {
    AfterOne(START, SignUp(request, Some(gitlabID), 0));
    SignUpStep(START, request, gitlabID, 0, After(START, [SignUp(request, Some(gitlabID), 0)]));
    RegistrationIsStored(EMPTY, Cleaned(request), gitlabID, 0, 0);
  }

  /** From the empty system: sign up, and sign up again during the first login. */
  lemma MixedPairIsReached(first: Registration, second: Registration, g1: int, g2: int)
    requires Complete(Cleaned(first)) && Complete(Cleaned(second))
    requires Cleaned(first).username == Cleaned(second).username
    ensures var moves := [SignUp(first, Some(g1), 0)] + MixedLogin(0, Cleaned(first).username, second, g2, 2);
            ServedConfig(RunMoves(moves).w, 1, false, false, false)
              == Some(Config(Cleaned(first).token, Cleaned(second).webUrl, g1))
  {
    var login := MixedLogin(0, Cleaned(first).username, second, g2, 2);
    FirstSignUp(first, g1);
    AfterConcat(START, [SignUp(first, Some(g1), 0)], login);
    MixedPairIsCached(After(START, [SignUp(first, Some(g1), 0)]), 0, Cleaned(first).username, second, g2, 2, 1,
                      ConfigOf(Cleaned(first), g1));
  }

  /** The user registers again between a login's last read and its write. */
  function LateLogin(id: nat, username: string, request: Registration, gitlabID: int, nonce: nat): seq<Move> {
    LoginReads(id, username) + [SignUp(request, Some(gitlabID), nonce)] + [Advance(id, 0)]
  }

  /** The login then serves the old credentials, though no session was there to overtake. */
  lemma LateLoginServesOld(s: State, id: nat, username: string, request: Registration, gitlabID: int, nonce: nat,
                           user: int, c: Config)
    requires username in s.w.store.byName && s.w.store.byName[username] == user
    requires StoredConfig(s.w.store, user) == Some(c) && c.token != "" && c.webUrl != ""
    requires Complete(Cleaned(request)) && Cleaned(request).username == username
    ensures var w := After(s, LateLogin(id, username, request, gitlabID, nonce)).w;
            && ServedConfig(w, user, false, false, false) == Some(c)
            && StoredConfig(w.store, user) == Some(ConfigOf(Cleaned(request), gitlabID))
  {
    var signUp := SignUp(request, Some(gitlabID), nonce);
    LoginReadsAll(s, id, username);
    var s1 := After(s, LoginReads(id, username));
    AfterSnoc(s, LoginReads(id, username), signUp);
    var s2 := Next(s1, signUp);
    SignUpStep(s1, request, gitlabID, nonce, s2);
    StoredAfterEnroll(s.w, Cleaned(request), gitlabID, nonce, user);
    AfterSnoc(s, LoginReads(id, username) + [signUp], Advance(id, 0));
    var r := ReadUp(s.w.store, username, user, s.clock);
    WriteStep(s2, id, r, 0, Next(s2, Advance(id, 0)));
    WrittenIsServed(s2.w, user, username, r.snap, 0);
  }

  /** From the empty system: sign up, and sign up again inside the first login. */
  lemma LateLoginIsReached(first: Registration, second: Registration, g1: int, g2: int)
    requires Complete(Cleaned(first)) && Complete(Cleaned(second))
    requires Cleaned(first).username == Cleaned(second).username
    ensures var moves := [SignUp(first, Some(g1), 0)] + LateLogin(0, Cleaned(first).username, second, g2, 2);
            var w := RunMoves(moves).w;
            && ServedConfig(w, 1, false, false, false) == Some(ConfigOf(Cleaned(first), g1))
            && StoredConfig(w.store, 1) == Some(ConfigOf(Cleaned(second), g2))
  {
    var login := LateLogin(0, Cleaned(first).username, second, g2, 2);
    FirstSignUp(first, g1);
    AfterConcat(START, [SignUp(first, Some(g1), 0)], login);
    LateLoginServesOld(After(START, [SignUp(first, Some(g1), 0)]), 0, Cleaned(first).username, second, g2, 2, 1,
                       ConfigOf(Cleaned(first), g1));
  }
}
