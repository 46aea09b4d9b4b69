/** The Redis script, the Go wrapper around it and the routes that use it. The script
    keeps a sorted set per key; everything proved about it goes through `Represents`,
    which ties the set to the plain history of SlidingWindow. Times are milliseconds. */
module RateLimiter {
  import opened SlidingWindow
  import Decimal
  import Text

  /** A sorted set, member to score, with the time its key expires. An absent key is an
      empty set. */
  datatype Bucket = Bucket(scores: map<string, int>, expiresAt: int)

  const EMPTY := Bucket(map[], 0)

  datatype Reply = Reply(count: int, allowed: bool)

  function Member(now: nat, count: nat): string {
    Decimal.Natural(now) + "-" + Decimal.Natural(count)
  }

  /** ZREMRANGEBYSCORE from minus infinity to `bound`, inclusive. */
  function Prune(scores: map<string, int>, bound: int): map<string, int> {
    map m | m in scores && scores[m] > bound :: scores[m]
  }

  /** One atomic execution of the sliding-window script. ZADD on a member that is
      already there only overwrites its score. */
  function Script(b: Bucket, now: nat, window: int, limit: int): (Bucket, Reply) {
    var scores := Prune(b.scores, now - window);
    var count := |scores|;
    if count < limit then
      (Bucket(scores[Member(now, count) := now], now + window), Reply(count + 1, true))
    else
      (Bucket(scores, b.expiresAt), Reply(count, false))
  }

  /** What Redis may do to the key at any instant from its expiry time on. */
  function Lapse(b: Bucket, now: int): Bucket {
    if b.expiresAt <= now then EMPTY else b
  }

  // ------------------------------------------------- the set is the live history

  predicate AllNatural(log: seq<int>) {
    forall k | 0 <= k < |log| :: 0 <= log[k]
  }

  /** The member under which admission number n of the history is stored. */
  function NameOf(log: seq<int>, n: nat, window: int): string
    requires AllNatural(log) && n < |log|
  {
    Member(log[n], Above(log[..n], log[n] - window))
  }

  /** The sorted set holding the admissions later than `bound`. */
  function Live(log: seq<int>, bound: int, window: int): map<string, int>
    requires AllNatural(log)
  {
    if log == [] then map[]
    else
      var n := |log| - 1;
      var older := Live(log[..n], bound, window);
      if log[n] > bound then older[NameOf(log, n, window) := log[n]] else older
  }

  /** `b` is what the script keeps after admitting `log`, last looked at at time `last`. */
  ghost predicate Represents(b: Bucket, log: seq<int>, last: int, window: int) {
    && NonDecreasing(log) && AllNatural(log) && NoLaterThan(log, last)
    && b.scores == Live(log, last - window, window)
    && (b.scores != map[] ==> log != [] && b.expiresAt == log[|log| - 1] + window)
  }

  lemma MemberInjective(t: nat, c: nat, t': nat, c': nat)
    requires Member(t, c) == Member(t', c')
    ensures t == t' && c == c'
  {
    Text.SeparatorUnique(Decimal.Natural(t), Decimal.Natural(c),
                         Decimal.Natural(t'), Decimal.Natural(c'), '-');
    Decimal.NaturalInjective(t, t');
    Decimal.NaturalInjective(c, c');
  }

  lemma {:induction false} AboveGrows(log: seq<int>, p: nat, q: nat, lo: int)
    requires p < q <= |log| && log[p] > lo
    ensures Above(log[..p], lo) < Above(log[..q], lo)
  {
    assert log[..q][..q - 1] == log[..q - 1];
    if p + 1 < q {
      AboveGrows(log, p, q - 1, lo);
    }
  }

  /** No two admissions ever share a member, same-millisecond ones included. */
  lemma NamesAreDistinct(log: seq<int>, p: nat, q: nat, window: int)
    requires AllNatural(log) && p < q < |log|
    requires window > 0
    ensures NameOf(log, p, window) != NameOf(log, q, window)
  {
    if NameOf(log, p, window) == NameOf(log, q, window) {
      MemberInjective(log[p], Above(log[..p], log[p] - window),
                      log[q], Above(log[..q], log[q] - window));
      AboveGrows(log, p, q, log[p] - window);
      assert false;
    }
  }

  lemma {:induction false} LiveMemberHasName(log: seq<int>, bound: int, window: int, m: string) returns (p: nat)
    requires AllNatural(log) && m in Live(log, bound, window)
    ensures p < |log| && log[p] > bound && m == NameOf(log, p, window)
  {
    var n := |log| - 1;
    if log[n] > bound && m == NameOf(log, n, window) {
      p := n;
    } else {
      p := LiveMemberHasName(log[..n], bound, window, m);
      assert log[..n][..p] == log[..p];
    }
  }

  lemma NewestNameIsFresh(log: seq<int>, bound: int, window: int)
    requires AllNatural(log) && log != [] && window > 0
    ensures NameOf(log, |log| - 1, window) !in Live(log[..|log| - 1], bound, window)
  {
    var n := |log| - 1;
    var m := NameOf(log, n, window);
    if m in Live(log[..n], bound, window) {
      var p := LiveMemberHasName(log[..n], bound, window, m);
      assert log[..n][..p] == log[..p];
      NamesAreDistinct(log, p, n, window);
      assert false;
    }
  }

  lemma {:induction false} LiveSize(log: seq<int>, bound: int, window: int)
    requires AllNatural(log) && window > 0
    ensures |Live(log, bound, window)| == Above(log, bound)
  {
    if log != [] {
      var n := |log| - 1;
      LiveSize(log[..n], bound, window);
      NewestNameIsFresh(log, bound, window);
    }
  }

  lemma {:induction false} PruneLive(log: seq<int>, bound: int, bound': int, window: int)
    requires AllNatural(log) && window > 0 && bound <= bound'
    ensures Prune(Live(log, bound, window), bound') == Live(log, bound', window)
  {
    if log != [] {
      var n := |log| - 1;
      PruneLive(log[..n], bound, bound', window);
      NewestNameIsFresh(log, bound, window);
      var older := Live(log[..n], bound, window);
      if log[n] > bound' {
        assert Prune(older[NameOf(log, n, window) := log[n]], bound')
            == Prune(older, bound')[NameOf(log, n, window) := log[n]];
      }
    }
  }

  /** The result of one execution at `now` is what the plain rule asks for: same verdict,
      exact count, and the set again holds exactly the live history. */
  ghost predicate Refines(result: (Bucket, Reply), log: seq<int>, now: int, window: int, limit: int) {
    var (b', reply) := result;
    var log' := Extend(log, reply.allowed, now);
    && reply.allowed == Admits(log, now, window, limit)
    && reply.count == Above(log', now - window) == |b'.scores|
    && Represents(b', log', now, window)
  }

  lemma AboveExtend(log: seq<int>, admitted: bool, now: int, window: int)
    requires window > 0
    ensures Above(Extend(log, admitted, now), now - window) == Above(log, now - window) + (if admitted then 1 else 0)
  {
    assert (log + [now])[..|log|] == log;
  }

  lemma AppendKeepsOrder(log: seq<int>, last: int, now: nat)
    requires last <= now && NonDecreasing(log) && AllNatural(log) && NoLaterThan(log, last)
    ensures NonDecreasing(log + [now]) && AllNatural(log + [now]) && NoLaterThan(log + [now], now)
  {
  }

  lemma NewestName(log: seq<int>, now: nat, window: int)
    requires window > 0 && AllNatural(log + [now])
    ensures AllNatural(log)
    ensures NameOf(log + [now], |log|, window) == Member(now, |Live(log, now - window, window)|)
  {
    assert (log + [now])[..|log|] == log;
    assert forall k | 0 <= k < |log| :: log[k] == (log + [now])[k];
    LiveSize(log, now - window, window);
  }

  lemma AppendIsLive(log: seq<int>, now: nat, window: int)
    requires window > 0 && AllNatural(log) && AllNatural(log + [now])
    ensures var scores := Live(log, now - window, window);
            var log' := log + [now];
            && Live(log', now - window, window) == scores[Member(now, |scores|) := now]
            && Above(log', now - window) == |scores| + 1 == |scores[Member(now, |scores|) := now]|
  {
    var log' := log + [now];
    assert log'[..|log|] == log;
    LiveSize(log', now - window, window);
    LiveSize(log, now - window, window);
    NewestName(log, now, window);
    AboveExtend(log, true, now, window);
  }

  lemma ScriptResult(b: Bucket, log: seq<int>, last: int, now: nat, window: int, limit: int)
    requires window > 0 && last <= now
    requires Represents(b, log, last, window)
    ensures var scores := Live(log, now - window, window);
            Script(b, now, window, limit) ==
              if |scores| < limit then
                (Bucket(scores[Member(now, |scores|) := now], now + window), Reply(|scores| + 1, true))
              else (Bucket(scores, b.expiresAt), Reply(|scores|, false))
    ensures b.scores == map[] ==> Live(log, now - window, window) == map[]
  {
    PruneLive(log, last - window, now - window, window);
  }

  lemma ScriptRefines(b: Bucket, log: seq<int>, last: int, now: nat, window: int, limit: int)
    requires window > 0 && last <= now
    requires Represents(b, log, last, window)
    ensures Refines(Script(b, now, window, limit), log, now, window, limit)
  {
    ScriptResult(b, log, last, now, window, limit);
    LiveSize(log, now - window, window);
    if Admits(log, now, window, limit) {
      AppendKeepsOrder(log, last, now);
      AppendIsLive(log, now, window);
      AdmissionRefines(Script(b, now, window, limit), log, now, window, limit);
    } else {
      DenialRefines(Script(b, now, window, limit), b, log, last, now, window, limit);
    }
  }

  lemma AdmissionRefines(result: (Bucket, Reply), log: seq<int>, now: nat, window: int, limit: int)
    requires Admits(log, now, window, limit) && AllNatural(log + [now])
    requires NonDecreasing(log + [now]) && NoLaterThan(log + [now], now)
    requires result.0 == Bucket(Live(log + [now], now - window, window), now + window)
    requires result.1 == Reply(Above(log + [now], now - window), true)
    requires |result.0.scores| == result.1.count
    ensures Refines(result, log, now, window, limit)
  {
  }

  lemma DenialRefines(result: (Bucket, Reply), b: Bucket, log: seq<int>, last: int, now: nat, window: int, limit: int)
    requires last <= now && Represents(b, log, last, window) && !Admits(log, now, window, limit)
    requires result == (Bucket(Live(log, now - window, window), b.expiresAt),
                        Reply(Above(log, now - window), false))
    requires |result.0.scores| == result.1.count
    requires b.scores == map[] ==> result.0.scores == map[]
    ensures Refines(result, log, now, window, limit)
  {
  }

  /** A lapsed key held nothing that a later decision could count. */
  lemma LapseIsTransparent(b: Bucket, log: seq<int>, last: int, now: int, window: int)
    requires window > 0 && last <= now
    requires Represents(b, log, last, window)
    requires b.expiresAt <= now
    ensures Represents(Lapse(b, now), log, now, window)
  {
    PruneLive(log, last - window, now - window, window);
    if b.scores != map[] {
      AboveNothing(log, now - window);
    }
    LiveSize(log, now - window, window);
  }

  // ------------------------------------------------------------- whole runs

  /** A request at `now`; `lapsed` says whether Redis had dropped the key by then, which
      takes effect only when the key's expiry time has come. */
  datatype Arrival = Arrival(now: nat, lapsed: bool)

  function Times(arrivals: seq<Arrival>): seq<int> {
    seq(|arrivals|, k requires 0 <= k < |arrivals| => arrivals[k].now)
  }

  function Serve(b: Bucket, a: Arrival, window: int, limit: int): (Bucket, Reply) {
    Script(if a.lapsed then Lapse(b, a.now) else b, a.now, window, limit)
  }

  function Run(arrivals: seq<Arrival>, window: int, limit: int): (r: (Bucket, seq<Reply>))
    ensures |r.1| == |arrivals|
  {
    if arrivals == [] then (EMPTY, [])
    else
      var n := |arrivals| - 1;
      var (b, replies) := Run(arrivals[..n], window, limit);
      var (b', reply) := Serve(b, arrivals[n], window, limit);
      (b', replies + [reply])
  }

  lemma ServeRefines(b: Bucket, log: seq<int>, last: int, a: Arrival, window: int, limit: int)
    requires window > 0 && last <= a.now
    requires Represents(b, log, last, window)
    ensures Refines(Serve(b, a, window, limit), log, a.now, window, limit)
  {
    if a.lapsed && b.expiresAt <= a.now {
      LapseIsTransparent(b, log, last, a.now, window);
      ScriptRefines(Lapse(b, a.now), log, a.now, a.now, window, limit);
    } else {
      ScriptRefines(b, log, last, a.now, window, limit);
    }
  }

  /** The reply the plain rule prescribes for request k. */
  function ExactReply(ts: seq<int>, k: nat, window: int, limit: int): Reply
    requires k < |ts|
  {
    Reply(Above(GreedyLog(ts[..k + 1], window, limit), ts[k] - window), Greedy(ts[..k + 1], window, limit)[k])
  }

  function LastOf(ts: seq<int>): int {
    if ts == [] then 0 else ts[|ts| - 1]
  }

  ghost predicate ExactReplies(replies: seq<Reply>, ts: seq<int>, window: int, limit: int) {
    && |replies| == |ts|
    && forall k | 0 <= k < |ts| :: replies[k] == ExactReply(ts, k, window, limit)
  }

  lemma ExactRepliesSnoc(replies: seq<Reply>, reply: Reply, ts: seq<int>, window: int, limit: int)
    requires ts != [] && ExactReplies(replies, ts[..|ts| - 1], window, limit)
    requires reply == ExactReply(ts, |ts| - 1, window, limit)
    ensures ExactReplies(replies + [reply], ts, window, limit)
  {
    var n := |ts| - 1;
    forall k | 0 <= k < n
      ensures replies[k] == ExactReply(ts, k, window, limit)
    {
      assert ts[..n][..k + 1] == ts[..k + 1];
    }
  }

  lemma ExactReplyLast(ts: seq<int>, window: int, limit: int)
    requires ts != []
    ensures var n := |ts| - 1;
            var log := GreedyLog(ts[..n], window, limit);
            var admitted := Admits(log, ts[n], window, limit);
            ExactReply(ts, n, window, limit) == Reply(Above(Extend(log, admitted, ts[n]), ts[n] - window), admitted)
  {
    assert ts[..|ts| - 1 + 1] == ts;
    GreedyLogSnoc(ts, window, limit);
  }

  /** One more request after an exact run. */
  lemma RunStep(b: Bucket, a: Arrival, ts: seq<int>, window: int, limit: int)
    requires window > 0 && ts != [] && NonDecreasing(ts) && ts[|ts| - 1] == a.now
    requires var before := ts[..|ts| - 1];
             Represents(b, GreedyLog(before, window, limit), LastOf(before), window)
    ensures Serve(b, a, window, limit).1 == ExactReply(ts, |ts| - 1, window, limit)
    ensures Represents(Serve(b, a, window, limit).0, GreedyLog(ts, window, limit), a.now, window)
  {
    var n := |ts| - 1;
    assert n > 0 ==> ts[n - 1] <= ts[n];
    ServeRefines(b, GreedyLog(ts[..n], window, limit), LastOf(ts[..n]), a, window, limit);
    GreedyLogSnoc(ts, window, limit);
    ExactReplyLast(ts, window, limit);
  }

  /** Whole-run refinement: over any non-decreasing run, with keys lapsing whenever they
      may, every reply is the one the plain rule prescribes, count included. */
  lemma {:induction false} RunRefines(arrivals: seq<Arrival>, window: int, limit: int)
    requires window > 0 && NonDecreasing(Times(arrivals))
    ensures ExactReplies(Run(arrivals, window, limit).1, Times(arrivals), window, limit)
    ensures Represents(Run(arrivals, window, limit).0, GreedyLog(Times(arrivals), window, limit),
                       LastOf(Times(arrivals)), window)
  {
    if arrivals == [] {
    } else {
      var n := |arrivals| - 1;
      var ts := Times(arrivals);
      assert Times(arrivals[..n]) == ts[..n];
      RunRefines(arrivals[..n], window, limit);
      var (b, replies) := Run(arrivals[..n], window, limit);
      RunStep(b, arrivals[n], ts, window, limit);
      ExactRepliesSnoc(replies, Serve(b, arrivals[n], window, limit).1, ts, window, limit);
    }
  }

  /** The verdicts of the run are those of the plain rule over the request times, so the
      safety and optimality of SlidingWindow hold of the script. */
  lemma RunDecidesGreedily(arrivals: seq<Arrival>, window: int, limit: int)
    requires window > 0 && NonDecreasing(Times(arrivals))
    ensures forall k | 0 <= k < |arrivals| ::
              Run(arrivals, window, limit).1[k].allowed == Greedy(Times(arrivals), window, limit)[k]
  {
    RunRefines(arrivals, window, limit);
    var ts := Times(arrivals);
    forall k | 0 <= k < |arrivals|
      ensures Run(arrivals, window, limit).1[k].allowed == Greedy(ts, window, limit)[k]
    {
      GreedyPrefix(ts, k + 1, window, limit);
      assert Greedy(ts, window, limit)[..k + 1][k] == Greedy(ts, window, limit)[k];
    }
  }

  function Verdicts(replies: seq<Reply>): (verdicts: seq<bool>)
    ensures |verdicts| == |replies|
  {
    seq(|replies|, k requires 0 <= k < |replies| => replies[k].allowed)
  }

  /** The script itself, over whole runs: the requests it admits never exceed the limit in
      any window, and no rival choice that keeps the limit admits more, in any prefix. */
  lemma {:induction false} ScriptIsSafeAndOptimal(arrivals: seq<Arrival>, rival: seq<bool>, window: int, limit: int)
    requires window > 0 && NonDecreasing(Times(arrivals)) && |rival| == |arrivals|
    requires WithinLimit(Chosen(Times(arrivals), rival), window, limit)
    ensures var ts := Times(arrivals);
            var verdicts := Verdicts(Run(arrivals, window, limit).1);
            && WithinLimit(Chosen(ts, verdicts), window, limit)
            && forall n | 0 <= n <= |ts| :: |Chosen(ts[..n], rival[..n])| <= |Chosen(ts[..n], verdicts[..n])|
  {
    var ts := Times(arrivals);
    RunDecidesGreedily(arrivals, window, limit);
    assert Verdicts(Run(arrivals, window, limit).1) == Greedy(ts, window, limit);
    GreedyIsSafe(ts, window, limit);
    GreedyIsOptimal(ts, rival, window, limit);
  }

  /** When and whether expired keys are dropped changes no reply of any run. */
  lemma ExpiryChangesNothing(arrivals: seq<Arrival>, arrivals': seq<Arrival>, window: int, limit: int)
    requires window > 0 && NonDecreasing(Times(arrivals))
    requires Times(arrivals) == Times(arrivals')
    ensures Run(arrivals, window, limit).1 == Run(arrivals', window, limit).1
  {
    RunRefines(arrivals, window, limit);
    RunRefines(arrivals', window, limit);
    assert |Times(arrivals)| == |arrivals| == |arrivals'|;
  }

  // ------------------------------------------------- clocks that step back

  /** A request at `now`, a reading that may lie before earlier ones; `dropped` says whether
      Redis had dropped the key by then. */
  datatype Tick = Tick(now: nat, dropped: bool)

  function Kept(b: Bucket, t: Tick, window: int): map<string, int> {
    Prune(if t.dropped then map[] else b.scores, t.now - window)
  }

  function ServeTick(b: Bucket, t: Tick, window: int, limit: int): (Bucket, Reply) {
    Script(if t.dropped then EMPTY else b, t.now, window, limit)
  }

  function TickRun(ticks: seq<Tick>, window: int, limit: int): (r: (Bucket, seq<Reply>))
    ensures |r.1| == |ticks|
  {
    if ticks == [] then (EMPTY, [])
    else
      var n := |ticks| - 1;
      var (b, replies) := TickRun(ticks[..n], window, limit);
      var (b', reply) := ServeTick(b, ticks[n], window, limit);
      (b', replies + [reply])
  }

  /** Since tick k the key was not dropped and no clock reading has pruned it. */
  predicate Survives(ticks: seq<Tick>, k: nat, window: int)
    requires k < |ticks|
  {
    forall j | k < j < |ticks| :: !ticks[j].dropped && ticks[j].now - window < ticks[k].now
  }

  /** Tick k was admitted at that time as that number, and is live. */
  predicate LiveAs(ticks: seq<Tick>, replies: seq<Reply>, k: nat, now: nat, count: int, window: int)
    requires |replies| == |ticks|
  {
    k < |ticks| && replies[k].allowed && ticks[k].now == now && replies[k].count == count && Survives(ticks, k, window)
  }

  predicate IsLive(ticks: seq<Tick>, replies: seq<Reply>, now: nat, count: int, window: int)
    requires |replies| == |ticks|
  {
    exists k: nat | k < |ticks| :: LiveAs(ticks, replies, k, now, count, window)
  }

  /** One that was made before the last tick. */
  predicate WasLive(ticks: seq<Tick>, replies: seq<Reply>, now: nat, count: int, window: int)
    requires |replies| == |ticks|
  {
    exists k: nat | k < |ticks| - 1 :: LiveAs(ticks, replies, k, now, count, window)
  }

  /** The set holds the name of an admission exactly while it is live. */
  ghost predicate HoldsLive(scores: map<string, int>, ticks: seq<Tick>, replies: seq<Reply>, window: int)
    requires |replies| == |ticks|
  {
    forall now: nat, c: nat :: NameIsLive(scores, ticks, replies, now, c, window)
  }

  predicate NameIsLive(scores: map<string, int>, ticks: seq<Tick>, replies: seq<Reply>, now: nat, c: nat, window: int)
    requires |replies| == |ticks|
  {
    && (Member(now, c) in scores <==> IsLive(ticks, replies, now, c + 1, window))
    && (Member(now, c) in scores ==> scores[Member(now, c)] == now)
  }

  /** What was live stays so through a tick that neither drops nor prunes it. */
  lemma LiveThroughTick(ticks: seq<Tick>, replies: seq<Reply>, now: nat, count: int, window: int)
    requires ticks != [] && |replies| == |ticks|
    ensures var n := |ticks| - 1;
            WasLive(ticks, replies, now, count, window)
            <==> IsLive(ticks[..n], replies[..n], now, count, window)
                 && !ticks[n].dropped && ticks[n].now - window < now
  {
    var n := |ticks| - 1;
    if k: nat :| k < n && LiveAs(ticks, replies, k, now, count, window) {
      assert LiveAs(ticks[..n], replies[..n], k, now, count, window);
    }
    if !ticks[n].dropped && ticks[n].now - window < now {
      if k: nat :| k < n && LiveAs(ticks[..n], replies[..n], k, now, count, window) {
        assert forall j | k < j < n :: ticks[..n][j] == ticks[j];
        assert LiveAs(ticks, replies, k, now, count, window);
      }
    }
  }

  lemma KeptIsLive(b: Bucket, ticks: seq<Tick>, replies: seq<Reply>, now: nat, c: nat, window: int)
    requires ticks != [] && |replies| == |ticks|
    requires HoldsLive(b.scores, ticks[..|ticks| - 1], replies[..|ticks| - 1], window)
    ensures var kept := Kept(b, ticks[|ticks| - 1], window);
            && (Member(now, c) in kept <==> WasLive(ticks, replies, now, c + 1, window))
            && (Member(now, c) in kept ==> kept[Member(now, c)] == now)
  {
    assert NameIsLive(b.scores, ticks[..|ticks| - 1], replies[..|ticks| - 1], now, c, window);
    LiveThroughTick(ticks, replies, now, c + 1, window);
  }

  lemma TickResult(b: Bucket, t: Tick, window: int, limit: int)
    ensures var kept := Kept(b, t, window);
            var (b', reply) := ServeTick(b, t, window, limit);
            && reply.allowed == (|kept| < limit)
            && reply.count == (if reply.allowed then |kept| + 1 else |kept|)
            && b'.scores == if reply.allowed then kept[Member(t.now, |kept|) := t.now] else kept
  {
  }

  lemma TickKeepsLive(b: Bucket, b': Bucket, ticks: seq<Tick>, replies: seq<Reply>, window: int, limit: int)
    requires ticks != [] && |replies| == |ticks|
    requires HoldsLive(b.scores, ticks[..|ticks| - 1], replies[..|ticks| - 1], window)
    requires (b', replies[|ticks| - 1]) == ServeTick(b, ticks[|ticks| - 1], window, limit)
    ensures HoldsLive(b'.scores, ticks, replies, window)
  {
    var n := |ticks| - 1;
    var kept := Kept(b, ticks[n], window);
    TickResult(b, ticks[n], window, limit);
    forall now: nat, c: nat
      ensures NameIsLive(b'.scores, ticks, replies, now, c, window)
    {
      KeptIsLive(b, ticks, replies, now, c, window);
      if Member(now, c) == Member(ticks[n].now, |kept|) {
        MemberInjective(now, c, ticks[n].now, |kept|);
      }
      LiveExactly(ticks, replies, now, c + 1, window);
    }
  }

  lemma LiveExactly(ticks: seq<Tick>, replies: seq<Reply>, now: nat, count: int, window: int)
    requires ticks != [] && |replies| == |ticks|
    ensures var n := |ticks| - 1;
            IsLive(ticks, replies, now, count, window)
            <==> WasLive(ticks, replies, now, count, window)
                 || (replies[n].allowed && ticks[n].now == now && replies[n].count == count)
  {
    var n := |ticks| - 1;
    if replies[n].allowed && ticks[n].now == now && replies[n].count == count {
      assert LiveAs(ticks, replies, n, now, count, window);
    }
  }

  lemma {:induction false} RunHoldsLive(ticks: seq<Tick>, window: int, limit: int)
    ensures var (b, replies) := TickRun(ticks, window, limit);
            HoldsLive(b.scores, ticks, replies, window)
  {
    if ticks == [] {
    } else {
      var n := |ticks| - 1;
      RunHoldsLive(ticks[..n], window, limit);
      var (b, replies) := TickRun(ticks, window, limit);
      var before := TickRun(ticks[..n], window, limit).0;
      assert replies[..n] == TickRun(ticks[..n], window, limit).1;
      TickKeepsLive(before, b, ticks, replies, window, limit);
    }
  }

  /** Inserting a member keeps the size exactly when it was there. */
  lemma InsertKeepsSize(kept: map<string, int>, m: string, v: int)
    ensures |kept[m := v]| == if m in kept then |kept| else |kept| + 1
  {
    if m in kept {
      assert kept[m := v].Keys == kept.Keys;
      assert |kept[m := v].Keys| == |kept.Keys|;
    }
  }

  /** Over any run of requests, with clock readings in any order and keys dropped at any
      time, a reply's count differs from the size of the set exactly when the request is
      admitted and a live earlier admission of the same millisecond was given that count. */
  lemma CountIsOffExactlyWhenNameIsTaken(ticks: seq<Tick>, window: int, limit: int)
    requires ticks != []
    ensures var (b, replies) := TickRun(ticks, window, limit);
            var n := |ticks| - 1;
            replies[n].count != |b.scores|
            <==> replies[n].allowed && WasLive(ticks, replies, ticks[n].now, replies[n].count, window)
  {
    var n := |ticks| - 1;
    var (b, replies) := TickRun(ticks, window, limit);
    var before := TickRun(ticks[..n], window, limit).0;
    RunHoldsLive(ticks[..n], window, limit);
    assert replies[..n] == TickRun(ticks[..n], window, limit).1;
    LastCountIsOff(before, b, ticks, replies, window, limit);
  }

  lemma LastCountIsOff(before: Bucket, b: Bucket, ticks: seq<Tick>, replies: seq<Reply>, window: int, limit: int)
    requires ticks != [] && |replies| == |ticks|
    requires HoldsLive(before.scores, ticks[..|ticks| - 1], replies[..|ticks| - 1], window)
    requires (b, replies[|ticks| - 1]) == ServeTick(before, ticks[|ticks| - 1], window, limit)
    ensures var n := |ticks| - 1;
            replies[n].count != |b.scores|
            <==> replies[n].allowed && WasLive(ticks, replies, ticks[n].now, replies[n].count, window)
  {
    var n := |ticks| - 1;
    var kept := Kept(before, ticks[n], window);
    TickResult(before, ticks[n], window, limit);
    InsertKeepsSize(kept, Member(ticks[n].now, |kept|), ticks[n].now);
    KeptIsLive(before, ticks, replies, ticks[n].now, |kept|, window);
  }

  function ScriptBucket(b: Bucket, now: nat): Bucket {
    Script(b, now, 100, 10).0
  }

  lemma ThreeAdmissions()
    ensures ScriptBucket(ScriptBucket(ScriptBucket(EMPTY, 1), 2), 5)
         == Bucket(map[Member(1, 0) := 1, Member(2, 1) := 2, Member(5, 2) := 5], 105)
  {
    var b1 := Bucket(map[Member(1, 0) := 1], 101);
    assert ScriptBucket(EMPTY, 1) == b1 by {
      assert Prune(EMPTY.scores, -99) == map[];
    }
    assert Prune(b1.scores, -98) == b1.scores;
    if Member(1, 0) == Member(2, 1) {
      MemberInjective(1, 0, 2, 1);
    }
    var b2 := Bucket(map[Member(1, 0) := 1, Member(2, 1) := 2], 102);
    assert ScriptBucket(b1, 2) == b2;
    assert Prune(b2.scores, -95) == b2.scores;
  }

  lemma WindowPassesTwo()
    ensures ScriptBucket(Bucket(map[Member(1, 0) := 1, Member(2, 1) := 2, Member(5, 2) := 5], 105), 102)
         == Bucket(map[Member(5, 2) := 5, Member(102, 1) := 102], 202)
  {
    var b3 := Bucket(map[Member(1, 0) := 1, Member(2, 1) := 2, Member(5, 2) := 5], 105);
    if Member(1, 0) == Member(5, 2) {
      MemberInjective(1, 0, 5, 2);
    }
    if Member(2, 1) == Member(5, 2) {
      MemberInjective(2, 1, 5, 2);
    }
    assert Prune(b3.scores, 2) == map[Member(5, 2) := 5];
  }

  lemma ThirdMemberOverwritten()
    ensures var b := Bucket(map[Member(5, 2) := 5, Member(102, 1) := 102], 202);
            && Script(b, 5, 100, 10).1 == Reply(3, true)
            && |Script(b, 5, 100, 10).0.scores| == 2
  {
    var scores := map[Member(5, 2) := 5, Member(102, 1) := 102];
    if Member(5, 2) == Member(102, 1) {
      MemberInjective(5, 2, 102, 1);
    }
    assert Prune(scores, -95) == scores;
    assert scores[Member(5, 2) := 5] == scores;
  }

  /** A clock that steps back can overwrite an admission. Requests at 1, 2, 5 and 102 ms
      leave two live members, one of them written at 5 with the count 2; a request at 5
      again is admitted with the reply 3, yet the set still holds two. */
  lemma ClockSteppingBackOverwrites()
    ensures var b := ScriptBucket(ScriptBucket(ScriptBucket(ScriptBucket(EMPTY, 1), 2), 5), 102);
            && Script(b, 5, 100, 10).1 == Reply(3, true)
            && |Script(b, 5, 100, 10).0.scores| == 2
  {
    ThreeAdmissions();
    WindowPassesTwo();
    ThirdMemberOverwritten();
  }

  // ---------------------------------------------------------------- headers

  /** The X-RateLimit-Remaining header. */
  function Remaining(limit: int, count: int): int {
    if limit - count < 0 then 0 else limit - count
  }

  /** The Retry-After value of a denial, in seconds: the window rounded up. */
  function RetryAfterSeconds(window: int): int {
    (window + 999) / 1000
  }

  /** k further requests in the same millisecond. */
  function Burst(b: Bucket, now: nat, k: nat, window: int, limit: int): (replies: seq<Reply>)
    ensures |replies| == k
    decreases k
  {
    if k == 0 then []
    else
      var (b', reply) := Script(b, now, window, limit);
      [reply] + Burst(b', now, k - 1, window, limit)
  }

  /** One more request of the same millisecond finds the set as it was left. */
  lemma SameMillisecond(b: Bucket, log: seq<int>, now: nat, window: int, limit: int)
    requires window > 0 && Represents(b, log, now, window)
    ensures var (b', reply) := Script(b, now, window, limit);
            && (reply.allowed <==> |b.scores| < limit)
            && |b'.scores| == |b.scores| + (if reply.allowed then 1 else 0)
            && Represents(b', Extend(log, reply.allowed, now), now, window)
  {
    ScriptRefines(b, log, now, now, window, limit);
    LiveSize(log, now - window, window);
    AboveExtend(log, Script(b, now, window, limit).1.allowed, now, window);
  }

  /** Precisely the first `left` replies are admissions. */
  predicate AdmitsFirst(replies: seq<Reply>, left: int) {
    forall i | 0 <= i < |replies| :: replies[i].allowed <==> i < left
  }

  lemma AdmitsFirstCons(reply: Reply, rest: seq<Reply>, left: int)
    requires reply.allowed <==> 0 < left
    requires AdmitsFirst(rest, if reply.allowed then left - 1 else left)
    ensures AdmitsFirst([reply] + rest, left)
  {
  }

  lemma {:induction false} BurstFollowsSetSize(b: Bucket, log: seq<int>, now: nat, k: nat, window: int, limit: int)
    requires window > 0 && Represents(b, log, now, window)
    ensures AdmitsFirst(Burst(b, now, k, window, limit), Remaining(limit, |b.scores|))
    decreases k
  {
    if k > 0 {
      SameMillisecond(b, log, now, window, limit);
      var (b', reply) := Script(b, now, window, limit);
      BurstFollowsSetSize(b', Extend(log, reply.allowed, now), now, k - 1, window, limit);
      AdmitsFirstCons(reply, Burst(b', now, k - 1, window, limit), Remaining(limit, |b.scores|));
    }
  }

  /** The Remaining header is exact: of the requests following a reply in the same
      millisecond, precisely that many are admitted. */
  lemma RemainingIsExact(b: Bucket, log: seq<int>, last: int, now: nat, k: nat, window: int, limit: int)
    requires window > 0 && last <= now && Represents(b, log, last, window)
    ensures var (b', reply) := Script(b, now, window, limit);
            AdmitsFirst(Burst(b', now, k, window, limit), Remaining(limit, reply.count))
  {
    ScriptRefines(b, log, last, now, window, limit);
    var (b', reply) := Script(b, now, window, limit);
    BurstFollowsSetSize(b', Extend(log, reply.allowed, now), now, k, window, limit);
  }

  /** Waiting Retry-After seconds after a denial suffices, if nothing was admitted since. */
  lemma RetryAfterSuffices(b: Bucket, log: seq<int>, last: int, deniedAt: int, retryAt: nat, window: int, limit: int)
    requires window > 0 && limit >= 1
    requires Represents(b, log, last, window) && NoLaterThan(log, deniedAt)
    requires last <= retryAt && deniedAt + 1000 * RetryAfterSeconds(window) <= retryAt
    ensures Script(b, retryAt, window, limit).1.allowed
    ensures window <= 1000 * RetryAfterSeconds(window) < window + 1000
  {
    ScriptRefines(b, log, last, retryAt, window, limit);
    AboveNothing(log, retryAt - window);
  }

  // ------------------------------------------------- Redis failures and routes

  /** What becomes of one call to the script: a reply, or an error, which may come whether
      the script ran or not. Timeouts are told apart from all other errors, among them a
      refused or reset connection, a cancelled request, and Redis refusing the script. */
  datatype Fate = Answered | Failed(ran: bool, timedOut: bool)

  /** The script ran, whatever the caller learned of it. */
  predicate Ran(fate: Fate) {
    fate.Answered? || fate.ran
  }

  datatype Request = Request(arrival: Arrival, fate: Fate)

  datatype Result = Result(allowed: bool, count: int, limit: int, retryAfter: int)

  datatype Outcome = Outcome(result: Result, failed: bool)

  /** The Result, and whether an error comes with it, for a reply or the lack of one. */
  function Wrap(reply: Reply, fate: Fate, window: int, limit: int, failOpen: bool): Outcome {
    match fate
    case Answered =>
      Outcome(Result(reply.allowed, reply.count, limit,
                     if reply.allowed then 0 else 1000 * RetryAfterSeconds(window)), false)
    case Failed(_, timedOut) =>
      if !timedOut then Outcome(Result(false, 0, 0, 0), true)
      else if failOpen then Outcome(Result(true, 0, limit, 0), false)
      else Outcome(Result(false, limit, limit, window), true)
  }

  /** Whether the middleware lets the request through to its handler: the auth routes
      answer 503 on an error, the API routes go on. */
  predicate Passes(o: Outcome, failOpen: bool) {
    if o.failed then failOpen else o.result.allowed
  }

  function Call(b: Bucket, q: Request, window: int, limit: int, failOpen: bool): (Bucket, Outcome) {
    var (b', reply) := Serve(b, q.arrival, window, limit);
    (if Ran(q.fate) then b' else b, Wrap(reply, q.fate, window, limit, failOpen))
  }

  // -------------------------------------------------- what a caller can rely on

  /** An answered call gives the verdict of the plain rule and the number of admissions in the
      window, under the caller's limit; the wait it asks for is nothing exactly when it
      admits. */
  lemma AnsweredCall(b: Bucket, log: seq<int>, last: int, q: Request, window: int, limit: int, failOpen: bool)
    requires window > 0 && last <= q.arrival.now && Represents(b, log, last, window) && q.fate.Answered?
    ensures var (b', o) := Call(b, q, window, limit, failOpen);
            var log' := Extend(log, o.result.allowed, q.arrival.now);
            && !o.failed && o.result.limit == limit
            && (o.result.allowed <==> Above(log, q.arrival.now - window) < limit)
            && o.result.count == Above(log', q.arrival.now - window) == |b'.scores|
            && (o.result.retryAfter == 0 <==> o.result.allowed)
            && (!o.result.allowed ==> window <= o.result.retryAfter < window + 1000)
            && Represents(b', log', q.arrival.now, window)
  {
    ServeRefines(b, log, last, q.arrival, window, limit);
  }

  /** After an answered call exactly limit minus count further requests of the same
      millisecond are admitted, both numbers as the result names them. */
  lemma ResultCountsDown(b: Bucket, log: seq<int>, last: int, q: Request, k: nat, window: int, limit: int,
                         failOpen: bool)
    requires window > 0 && last <= q.arrival.now && Represents(b, log, last, window) && q.fate.Answered?
    ensures var (b', o) := Call(b, q, window, limit, failOpen);
            var left := o.result.limit - o.result.count;
            && |Burst(b', q.arrival.now, k, window, limit)| == k
            && forall i | 0 <= i < k ::
                 Burst(b', q.arrival.now, k, window, limit)[i].allowed <==> i < (if left < 0 then 0 else left)
  {
    AnsweredCall(b, log, last, q, window, limit, failOpen);
    var (b', o) := Call(b, q, window, limit, failOpen);
    BurstFollowsSetSize(b', Extend(log, o.result.allowed, q.arrival.now), q.arrival.now, k, window, limit);
  }

  /** After a denial, a request made when the wait that the result asks for is over is
      admitted, if nothing was admitted in between, however many were denied. */
  lemma WaitingAsToldSuffices(b: Bucket, log: seq<int>, last: int, q: Request, b2: Bucket, last2: int, retryAt: nat,
                              window: int, limit: int, failOpen: bool)
    requires window > 0 && limit >= 1 && last <= q.arrival.now && Represents(b, log, last, window) && q.fate.Answered?
    requires !Call(b, q, window, limit, failOpen).1.result.allowed
    requires Represents(b2, log, last2, window) && last2 <= retryAt
    requires q.arrival.now + Call(b, q, window, limit, failOpen).1.result.retryAfter <= retryAt
    ensures Script(b2, retryAt, window, limit).1.allowed
  {
    AnsweredCall(b, log, last, q, window, limit, failOpen);
    RetryAfterSuffices(b2, log, last2, q.arrival.now, retryAt, window, limit);
  }

  /** A failed call: a timeout lets the request through where the route fails open and blocks
      it for a whole window where it fails closed; any other error gives the empty result.
      The bucket changes exactly if the script ran. */
  lemma FailedCall(b: Bucket, q: Request, window: int, limit: int, failOpen: bool)
    requires q.fate.Failed?
    ensures var (b', o) := Call(b, q, window, limit, failOpen);
            && (q.fate.timedOut && failOpen ==> o == Outcome(Result(true, 0, limit, 0), false))
            && (q.fate.timedOut && !failOpen ==> o == Outcome(Result(false, limit, limit, window), true))
            && (!q.fate.timedOut ==> o == Outcome(Result(false, 0, 0, 0), true))
            && b' == (if q.fate.ran then Serve(b, q.arrival, window, limit).0 else b)
  {
  }

  /** The middleware lets an answered request through exactly when it is admitted, and one
      whose call failed exactly where the route fails open. */
  lemma PassesExactly(b: Bucket, q: Request, window: int, limit: int, failOpen: bool)
    ensures Passes(Call(b, q, window, limit, failOpen).1, failOpen)
            <==> if q.fate.Answered? then Serve(b, q.arrival, window, limit).1.allowed else failOpen
  {
  }

  function RequestTimes(requests: seq<Request>): seq<int> {
    seq(|requests|, k requires 0 <= k < |requests| => requests[k].arrival.now)
  }

  /** The state after a run on one key, and the times of the requests let through. */
  function RouteRun(requests: seq<Request>, window: int, limit: int, failOpen: bool): (Bucket, seq<int>) {
    if requests == [] then (EMPTY, [])
    else
      var n := |requests| - 1;
      var (b, passed) := RouteRun(requests[..n], window, limit, failOpen);
      var (b', o) := Call(b, requests[n], window, limit, failOpen);
      (b', if Passes(o, failOpen) then passed + [requests[n].arrival.now] else passed)
  }

  /** The times of the requests that got no reply. */
  function FailureTimes(requests: seq<Request>): seq<int> {
    if requests == [] then []
    else
      var q := requests[|requests| - 1];
      FailureTimes(requests[..|requests| - 1]) + (if q.fate.Answered? then [] else [q.arrival.now])
  }

  lemma WindowCountExtend(log: seq<int>, allowed: bool, now: int, window: int, t: int)
    ensures WindowCount(Extend(log, allowed, now), window, t)
         == WindowCount(log, window, t) + (if allowed && t - window < now <= t then 1 else 0)
  {
    if allowed {
      assert (log + [now])[..|log|] == log;
    }
  }

  /** What passed is at most the history plus, on fail-open routes, the failures. */
  ghost predicate Bounded(passed: seq<int>, log: seq<int>, failures: seq<int>, window: int, failOpen: bool) {
    forall t: int :: WindowCount(passed, window, t)
                  <= WindowCount(log, window, t) + if failOpen then WindowCount(failures, window, t) else 0
  }

  lemma BoundedStep(passed: seq<int>, log: seq<int>, failures: seq<int>, now: int,
                    pass: bool, admit: bool, fail: bool, window: int, failOpen: bool)
    requires Bounded(passed, log, failures, window, failOpen)
    requires pass ==> admit || (fail && failOpen)
    ensures Bounded(Extend(passed, pass, now), Extend(log, admit, now), Extend(failures, fail, now), window, failOpen)
  {
    forall t: int
      ensures WindowCount(Extend(passed, pass, now), window, t)
           <= WindowCount(Extend(log, admit, now), window, t)
            + if failOpen then WindowCount(Extend(failures, fail, now), window, t) else 0
    {
      WindowCountExtend(passed, pass, now, window, t);
      WindowCountExtend(log, admit, now, window, t);
      WindowCountExtend(failures, fail, now, window, t);
      assert WindowCount(passed, window, t)
          <= WindowCount(log, window, t) + if failOpen then WindowCount(failures, window, t) else 0;
    }
  }

  /** The history after one call, and the time the set was last looked at. */
  function LogAfter(b: Bucket, log: seq<int>, q: Request, window: int, limit: int): seq<int> {
    Extend(log, Ran(q.fate) && Serve(b, q.arrival, window, limit).1.allowed, q.arrival.now)
  }

  lemma CallRefines(b: Bucket, log: seq<int>, last: int, q: Request, window: int, limit: int, failOpen: bool)
    returns (last': int)
    requires window > 0 && last <= q.arrival.now
    requires Represents(b, log, last, window) && WithinLimit(log, window, limit)
    ensures Represents(Call(b, q, window, limit, failOpen).0, LogAfter(b, log, q, window, limit), last', window)
    ensures WithinLimit(LogAfter(b, log, q, window, limit), window, limit)
    ensures last' <= q.arrival.now
  {
    ServeRefines(b, log, last, q.arrival, window, limit);
    if Ran(q.fate) {
      last' := q.arrival.now;
      if Admits(log, q.arrival.now, window, limit) {
        AdmissionKeepsLimit(log, q.arrival.now, window, limit);
      }
    } else {
      last' := last;
    }
  }

  /** The history behind a run with failures keeps the limit and accounts for what passed. */
  lemma {:induction false} RouteHistory(requests: seq<Request>, window: int, limit: int, failOpen: bool)
    returns (log: seq<int>, last: int)
    requires window > 0 && NonDecreasing(RequestTimes(requests))
    ensures Represents(RouteRun(requests, window, limit, failOpen).0, log, last, window)
    ensures WithinLimit(log, window, limit)
    ensures Bounded(RouteRun(requests, window, limit, failOpen).1, log, FailureTimes(requests), window, failOpen)
    ensures last <= LastOf(RequestTimes(requests))
  {
    if requests == [] {
      log, last := [], 0;
    } else {
      var n := |requests| - 1;
      var q := requests[n];
      var ts := RequestTimes(requests);
      assert RequestTimes(requests[..n]) == ts[..n];
      var log0, last0 := RouteHistory(requests[..n], window, limit, failOpen);
      assert n > 0 ==> ts[n - 1] <= ts[n];
      var (b, passed) := RouteRun(requests[..n], window, limit, failOpen);
      last := CallRefines(b, log0, last0, q, window, limit, failOpen);
      log := LogAfter(b, log0, q, window, limit);
      var failures := FailureTimes(requests[..n]);
      BoundedStep(passed, log0, failures, q.arrival.now, Passes(Call(b, q, window, limit, failOpen).1, failOpen),
                  log != log0, !q.fate.Answered?, window, failOpen);
      assert FailureTimes(requests) == Extend(failures, !q.fate.Answered?, q.arrival.now) by {
        assert failures + [] == failures;
      }
    }
  }

  /** Fail-closed routes keep the limit at every instant whatever Redis does; fail-open
      routes exceed it by no more than the calls that got no reply. */
  lemma RouteBound(requests: seq<Request>, window: int, limit: int, failOpen: bool, t: int)
    requires window > 0 && NonDecreasing(RequestTimes(requests))
    ensures WindowCount(RouteRun(requests, window, limit, failOpen).1, window, t)
         <= Cap(limit) + if failOpen then WindowCount(FailureTimes(requests), window, t) else 0
  {
    var log, _ := RouteHistory(requests, window, limit, failOpen);
    assert WindowCount(log, window, t) <= Cap(limit);
  }

  /** The times of the requests whose script ran. */
  function RanTimes(requests: seq<Request>): seq<int> {
    if requests == [] then []
    else
      var q := requests[|requests| - 1];
      Extend(RanTimes(requests[..|requests| - 1]), q.fate.Answered? || q.fate.ran, q.arrival.now)
  }

  /** The plain rule for a route: an answered request is let through if fewer than `limit` of
      the executions before it, its own key's only, were admitted within the window; one whose
      call failed is let through if the route fails open. */
  function LetThrough(requests: seq<Request>, window: int, limit: int, failOpen: bool): seq<int> {
    if requests == [] then []
    else
      var n := |requests| - 1;
      var q := requests[n];
      var before := GreedyLog(RanTimes(requests[..n]), window, limit);
      Extend(LetThrough(requests[..n], window, limit, failOpen),
             if q.fate.Answered? then Above(before, q.arrival.now - window) < limit else failOpen, q.arrival.now)
  }

  lemma RanTimesSnoc(requests: seq<Request>, window: int, limit: int)
    requires requests != []
    ensures var n := |requests| - 1;
            var q := requests[n];
            var before := GreedyLog(RanTimes(requests[..n]), window, limit);
            GreedyLog(RanTimes(requests), window, limit)
              == Extend(before, Ran(q.fate) && Admits(before, q.arrival.now, window, limit), q.arrival.now)
  {
    var n := |requests| - 1;
    var ran := RanTimes(requests[..n]);
    if Ran(requests[n].fate) {
      var ts := ran + [requests[n].arrival.now];
      assert ts[..|ran|] == ran && RanTimes(requests) == ts;
      GreedyLogSnoc(ts, window, limit);
    }
  }

  lemma ServeFollowsRule(b: Bucket, log: seq<int>, last: int, a: Arrival, window: int, limit: int)
    requires window > 0 && last <= a.now && Represents(b, log, last, window)
    ensures Represents(Serve(b, a, window, limit).0, Extend(log, Admits(log, a.now, window, limit), a.now),
                       a.now, window)
    ensures Serve(b, a, window, limit).1.allowed == Admits(log, a.now, window, limit)
  {
    ServeRefines(b, log, last, a, window, limit);
  }

  lemma CallChanges(b: Bucket, q: Request, window: int, limit: int, failOpen: bool)
    ensures Call(b, q, window, limit, failOpen).0 == if Ran(q.fate) then Serve(b, q.arrival, window, limit).0 else b
  {
  }

  lemma CallFollowsRule(b: Bucket, log: seq<int>, last: int, q: Request, window: int, limit: int, failOpen: bool,
                        b': Bucket, passes: bool)
    returns (last': int)
    requires window > 0 && last <= q.arrival.now && Represents(b, log, last, window)
    requires b' == Call(b, q, window, limit, failOpen).0
    requires passes == Passes(Call(b, q, window, limit, failOpen).1, failOpen)
    ensures Represents(b', Extend(log, Ran(q.fate) && Admits(log, q.arrival.now, window, limit), q.arrival.now),
                       last', window)
    ensures last' <= q.arrival.now
    ensures passes <==> if q.fate.Answered? then Above(log, q.arrival.now - window) < limit else failOpen
  {
    PassesExactly(b, q, window, limit, failOpen);
    CallChanges(b, q, window, limit, failOpen);
    ServeFollowsRule(b, log, last, q.arrival, window, limit);
    last' := if Ran(q.fate) then q.arrival.now else last;
  }

  /** The bucket holds the history of the executions so far, and what passed is what the plain
      rule lets through. */
  ghost predicate FollowsRule(requests: seq<Request>, b: Bucket, passed: seq<int>, last: int,
                              window: int, limit: int, failOpen: bool)
  {
    && Represents(b, GreedyLog(RanTimes(requests), window, limit), last, window)
    && last <= LastOf(RequestTimes(requests))
    && passed == LetThrough(requests, window, limit, failOpen)
  }

  lemma LetThroughSnoc(requests: seq<Request>, log: seq<int>, passed: seq<int>, passes: bool,
                       window: int, limit: int, failOpen: bool)
    requires requests != []
    requires var n := |requests| - 1;
             && log == GreedyLog(RanTimes(requests[..n]), window, limit)
             && passed == LetThrough(requests[..n], window, limit, failOpen)
    requires var q := requests[|requests| - 1];
             passes <==> if q.fate.Answered? then Above(log, q.arrival.now - window) < limit else failOpen
    ensures Extend(passed, passes, requests[|requests| - 1].arrival.now)
         == LetThrough(requests, window, limit, failOpen)
  {
  }

  lemma LastTime(requests: seq<Request>)
    requires requests != []
    ensures LastOf(RequestTimes(requests)) == requests[|requests| - 1].arrival.now
  {
  }

  lemma RouteStep(requests: seq<Request>, b: Bucket, log: seq<int>, passed: seq<int>, last: int,
                  window: int, limit: int, failOpen: bool, b': Bucket, passes: bool, passed': seq<int>)
    returns (last': int)
    requires window > 0 && requests != []
    requires var n := |requests| - 1;
             && last <= requests[n].arrival.now && Represents(b, log, last, window)
             && passed == LetThrough(requests[..n], window, limit, failOpen)
             && log == GreedyLog(RanTimes(requests[..n]), window, limit)
    requires var q := requests[|requests| - 1];
             && b' == Call(b, q, window, limit, failOpen).0
             && passes == Passes(Call(b, q, window, limit, failOpen).1, failOpen)
             && passed' == Extend(passed, passes, q.arrival.now)
    ensures FollowsRule(requests, b', passed', last', window, limit, failOpen)
  {
    var q := requests[|requests| - 1];
    last' := CallFollowsRule(b, log, last, q, window, limit, failOpen, b', passes);
    RanTimesSnoc(requests, window, limit);
    LastTime(requests);
    LetThroughSnoc(requests, log, passed, passes, window, limit, failOpen);
  }

  lemma FrontIsEarlier(requests: seq<Request>)
    requires requests != [] && NonDecreasing(RequestTimes(requests))
    ensures var n := |requests| - 1;
            NonDecreasing(RequestTimes(requests[..n]))
            && (n > 0 ==> LastOf(RequestTimes(requests[..n])) <= requests[n].arrival.now)
  {
    var n := |requests| - 1;
    var ts := RequestTimes(requests);
    assert RequestTimes(requests[..n]) == ts[..n];
    assert n > 0 ==> ts[n - 1] <= ts[n];
  }

  /** Whatever calls fail, and whether or not their scripts ran, a route lets through exactly
      the requests the plain rule says. */
  lemma {:induction false} RouteIsExact(requests: seq<Request>, window: int, limit: int, failOpen: bool)
    returns (last: int)
    requires window > 0 && NonDecreasing(RequestTimes(requests))
    ensures var (b, passed) := RouteRun(requests, window, limit, failOpen);
            FollowsRule(requests, b, passed, last, window, limit, failOpen)
  {
    if requests == [] {
      last := 0;
    } else {
      var n := |requests| - 1;
      FrontIsEarlier(requests);
      last := RouteIsExact(requests[..n], window, limit, failOpen);
      var (b, passed) := RouteRun(requests[..n], window, limit, failOpen);
      var (b', o) := Call(b, requests[n], window, limit, failOpen);
      var passes := Passes(o, failOpen);
      last := RouteStep(requests, b, GreedyLog(RanTimes(requests[..n]), window, limit), passed, last, window, limit,
                        failOpen, b', passes, Extend(passed, passes, requests[n].arrival.now));
    }
  }

  /** Said of the requests let through alone. */
  lemma RouteLetsThrough(requests: seq<Request>, window: int, limit: int, failOpen: bool)
    requires window > 0 && NonDecreasing(RequestTimes(requests))
    ensures RouteRun(requests, window, limit, failOpen).1 == LetThrough(requests, window, limit, failOpen)
  {
    var last := RouteIsExact(requests, window, limit, failOpen);
  }

  // ------------------------------------------------------------ the limiter

  const AUTH_PREFIX := "ratelimit:auth:"
  const API_PREFIX := "ratelimit:api:"
  const AUTH_LIMIT := 5
  const AUTH_WINDOW := 15 * 60 * 1000
  const API_LIMIT := 100
  const API_WINDOW := 60 * 1000

  function AuthKey(ip: string): string { AUTH_PREFIX + ip }
  function ApiKey(id: string): string { API_PREFIX + id }

  /** Two callers share a bucket only if they are on the same kind of route with the same
      identifier. */
  lemma KeysDoNotCollide(a: string, b: string)
    ensures AuthKey(a) != ApiKey(b)
    ensures AuthKey(a) == "ratelimit:auth:" + a && ApiKey(b) == "ratelimit:api:" + b
    ensures AuthKey(a) == AuthKey(b) <==> a == b
    ensures ApiKey(a) == ApiKey(b) <==> a == b
  {
    assert AuthKey(a)[11] == 'u' && ApiKey(b)[11] == 'p';
    assert AuthKey(a)[|AUTH_PREFIX|..] == a && AuthKey(b)[|AUTH_PREFIX|..] == b;
    assert ApiKey(a)[|API_PREFIX|..] == a && ApiKey(b)[|API_PREFIX|..] == b;
  }

  function BucketAt(buckets: map<string, Bucket>, key: string): Bucket {
    if key in buckets then buckets[key] else EMPTY
  }

  /** The limiter with the part of Redis it owns. */
  class Limiter {
    var buckets: map<string, Bucket>

    constructor ()
      ensures buckets == map[]
    {
      buckets := map[];
    }

    /** Runs the script on the key, which Redis may have dropped before. */
    method RunScript(key: string, a: Arrival, window: int, limit: int) returns (reply: Reply)
      modifies this
      ensures (BucketAt(buckets, key), reply) == Serve(BucketAt(old(buckets), key), a, window, limit)
      ensures buckets == old(buckets)[key := BucketAt(buckets, key)]
    {
      var b := BucketAt(buckets, key);
      if a.lapsed {
        b := Lapse(b, a.now);
      }
      b := Bucket(Prune(b.scores, a.now - window), b.expiresAt);
      var count := |b.scores|;
      if count < limit {
        b := Bucket(b.scores[Member(a.now, count) := a.now], a.now + window);
        reply := Reply(count + 1, true);
      } else {
        reply := Reply(count, false);
      }
      buckets := buckets[key := b];
    }

    method Allow(key: string, q: Request, window: int, limit: int, failOpen: bool) returns (o: Outcome)
      modifies this
      ensures (BucketAt(buckets, key), o) == Call(BucketAt(old(buckets), key), q, window, limit, failOpen)
      ensures forall k | k != key :: BucketAt(buckets, k) == BucketAt(old(buckets), k)
      ensures q.fate.Answered? && window > 0 ==> !o.failed && o.result.limit == limit
                                                 && (o.result.retryAfter == 0 <==> o.result.allowed)
      ensures q.fate.Failed? && !q.fate.timedOut ==> o == Outcome(Result(false, 0, 0, 0), true)
      ensures q.fate.Failed? && q.fate.timedOut ==>
                o == if failOpen then Outcome(Result(true, 0, limit, 0), false)
                     else Outcome(Result(false, limit, limit, window), true)
    {
      if Ran(q.fate) {
        var reply := RunScript(key, q.arrival, window, limit);
        o := Wrap(reply, q.fate, window, limit, failOpen);
      } else {
        o := Wrap(Reply(0, false), q.fate, window, limit, failOpen);
      }
    }

    /** Auth routes: 5 requests per 15 minutes and address, failing closed. */
    method AllowAuthIP(ip: string, q: Request) returns (o: Outcome)
      modifies this
      ensures (BucketAt(buckets, AuthKey(ip)), o)
           == Call(BucketAt(old(buckets), AuthKey(ip)), q, 900_000, 5, false)
      ensures q.fate.Answered? ==> !o.failed && o.result.limit == 5
                                   && o.result.retryAfter == (if o.result.allowed then 0 else 900_000)
      ensures q.fate.Failed? ==> o.failed && !o.result.allowed
      ensures forall id :: BucketAt(buckets, ApiKey(id)) == BucketAt(old(buckets), ApiKey(id))
      ensures forall ip' | ip' != ip :: BucketAt(buckets, AuthKey(ip')) == BucketAt(old(buckets), AuthKey(ip'))
    {
      o := Allow(AuthKey(ip), q, AUTH_WINDOW, AUTH_LIMIT, false);
      forall id: string
        ensures AuthKey(ip) != ApiKey(id)
      {
        KeysDoNotCollide(ip, id);
      }
      forall ip': string
        ensures AuthKey(ip') == AuthKey(ip) ==> ip' == ip
      {
        KeysDoNotCollide(ip', ip);
      }
    }

    /** API routes: 100 requests per minute and identifier, failing open. */
    method AllowAPI(id: string, q: Request) returns (o: Outcome)
      modifies this
      ensures (BucketAt(buckets, ApiKey(id)), o)
           == Call(BucketAt(old(buckets), ApiKey(id)), q, 60_000, 100, true)
      ensures q.fate.Answered? ==> !o.failed && o.result.limit == 100
                                   && o.result.retryAfter == (if o.result.allowed then 0 else 60_000)
      ensures q.fate.Failed? && q.fate.timedOut ==> o == Outcome(Result(true, 0, 100, 0), false)
      ensures forall ip :: BucketAt(buckets, AuthKey(ip)) == BucketAt(old(buckets), AuthKey(ip))
      ensures forall id' | id' != id :: BucketAt(buckets, ApiKey(id')) == BucketAt(old(buckets), ApiKey(id'))
    {
      o := Allow(ApiKey(id), q, API_WINDOW, API_LIMIT, true);
      forall ip: string
        ensures AuthKey(ip) != ApiKey(id)
      {
        KeysDoNotCollide(ip, id);
      }
      forall id': string
        ensures ApiKey(id') == ApiKey(id) ==> id' == id
      {
        KeysDoNotCollide(id', id);
      }
    }
  }
}
