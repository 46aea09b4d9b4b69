/** What a sliding-window limiter promises, stated on the plain history of admitted
    request times: at most `limit` admissions in every window, and as many
    admissions as any rule keeping that bound could give. Times are in milliseconds. */
module SlidingWindow {

  function Cap(limit: int): nat {
    if limit < 0 then 0 else limit
  }

  /** How many entries lie in (lo, hi]. */
  function CountIn(log: seq<int>, lo: int, hi: int): nat {
    if log == [] then 0
    else
      var t := log[|log| - 1];
      CountIn(log[..|log| - 1], lo, hi) + (if lo < t <= hi then 1 else 0)
  }

  /** How many entries are later than `lo`. */
  function Above(log: seq<int>, lo: int): nat {
    if log == [] then 0
    else Above(log[..|log| - 1], lo) + (if lo < log[|log| - 1] then 1 else 0)
  }

  predicate NoLaterThan(log: seq<int>, hi: int) {
    forall k | 0 <= k < |log| :: log[k] <= hi
  }

  predicate NonDecreasing(ts: seq<int>) {
    forall i, j | 0 <= i < j < |ts| :: ts[i] <= ts[j]
  }

  /** How many entries lie in the window (t - window, t] that ends at instant t. */
  function WindowCount(log: seq<int>, window: int, t: int): nat {
    CountIn(log, t - window, t)
  }

  /** No instant sees more than `limit` admissions in the window ending there. */
  ghost predicate WithinLimit(log: seq<int>, window: int, limit: int) {
    forall t: int :: WindowCount(log, window, t) <= Cap(limit)
  }

  /** The plain rule: admit while fewer than `limit` admissions are younger than the window. */
  predicate Admits(log: seq<int>, now: int, window: int, limit: int) {
    Above(log, now - window) < limit
  }

  /** The times of the chosen requests. */
  function Chosen(ts: seq<int>, choice: seq<bool>): seq<int>
    requires |ts| == |choice|
  {
    if ts == [] then []
    else
      var n := |ts| - 1;
      Chosen(ts[..n], choice[..n]) + (if choice[n] then [ts[n]] else [])
  }

  /** The decisions of the plain rule over a whole sequence of requests. */
  function Greedy(ts: seq<int>, window: int, limit: int): (choice: seq<bool>)
    ensures |choice| == |ts|
  {
    if ts == [] then []
    else
      var n := |ts| - 1;
      var before := Greedy(ts[..n], window, limit);
      before + [Admits(Chosen(ts[..n], before), ts[n], window, limit)]
  }

  function GreedyLog(ts: seq<int>, window: int, limit: int): seq<int> {
    Chosen(ts, Greedy(ts, window, limit))
  }

  // ---------------------------------------------------------------- counting

  lemma {:induction false} CountInBounded(log: seq<int>, lo: int, hi: int, now: int)
    requires NoLaterThan(log, now)
    requires now <= hi
    ensures CountIn(log, lo, hi) == Above(log, lo)
  {
    if log != [] {
      CountInBounded(log[..|log| - 1], lo, hi, now);
    }
  }

  lemma {:induction false} AboveMonotone(log: seq<int>, lo: int, lo': int)
    requires lo <= lo'
    ensures Above(log, lo') <= Above(log, lo)
  {
    if log != [] {
      AboveMonotone(log[..|log| - 1], lo, lo');
    }
  }

  lemma {:induction false} AboveNothing(log: seq<int>, lo: int)
    requires NoLaterThan(log, lo)
    ensures Above(log, lo) == 0
  {
    if log != [] {
      AboveNothing(log[..|log| - 1], lo);
    }
  }

  lemma {:induction false} ChosenNoLater(ts: seq<int>, choice: seq<bool>, hi: int)
    requires |ts| == |choice| && NoLaterThan(ts, hi)
    ensures NoLaterThan(Chosen(ts, choice), hi)
  {
    if ts != [] {
      ChosenNoLater(ts[..|ts| - 1], choice[..|ts| - 1], hi);
    }
  }

  // ------------------------------------------------------------------ safety

  /** One admission keeps the bound for every instant, past and future. */
  lemma AdmissionKeepsLimit(log: seq<int>, now: int, window: int, limit: int)
    requires NoLaterThan(log, now)
    requires WithinLimit(log, window, limit)
    requires Admits(log, now, window, limit)
    ensures WithinLimit(log + [now], window, limit)
  {
    forall t: int
      ensures WindowCount(log + [now], window, t) <= Cap(limit)
    {
      assert (log + [now])[..|log|] == log;
      if t - window < now <= t {
        CountInBounded(log, t - window, t, now);
        AboveMonotone(log, now - window, t - window);
      } else {
        assert WindowCount(log, window, t) <= Cap(limit);
      }
    }
  }

  /** Whole-run safety: for every instant, not only request times. */
  lemma {:induction false} GreedyIsSafe(ts: seq<int>, window: int, limit: int)
    requires NonDecreasing(ts)
    ensures WithinLimit(GreedyLog(ts, window, limit), window, limit)
  {
    if ts == [] {
    } else {
      var n := |ts| - 1;
      GreedyIsSafe(ts[..n], window, limit);
      ChosenNoLater(ts[..n], Greedy(ts[..n], window, limit), ts[n]);
      GreedyLogSnoc(ts, window, limit);
      var log := GreedyLog(ts[..n], window, limit);
      if Admits(log, ts[n], window, limit) {
        AdmissionKeepsLimit(log, ts[n], window, limit);
      }
    }
  }

  lemma {:induction false} GreedyPrefix(ts: seq<int>, n: nat, window: int, limit: int)
    requires n <= |ts|
    ensures Greedy(ts, window, limit)[..n] == Greedy(ts[..n], window, limit)
  {
    if n == |ts| {
      assert ts[..n] == ts;
    } else {
      var m := |ts| - 1;
      GreedyPrefix(ts[..m], n, window, limit);
      assert ts[..m][..n] == ts[..n];
      assert Greedy(ts, window, limit)[..n] == Greedy(ts[..m], window, limit)[..n];
    }
  }

  lemma AdmitsExactlyWhenRoom(log: seq<int>, now: int, window: int, limit: nat)
    requires NoLaterThan(log, now) && WithinLimit(log, window, limit)
    ensures Admits(log, now, window, limit) <==> WindowCount(log, window, now) != limit
  {
    CountInBounded(log, now - window, now, now);
    assert WindowCount(log, window, now) <= Cap(limit);
  }

  /** Denials are never gratuitous: request n is denied exactly when the window ending
      at it already holds `limit` admissions. */
  lemma DeniedExactlyWhenFull(ts: seq<int>, n: nat, window: int, limit: nat)
    requires NonDecreasing(ts) && n < |ts|
    ensures !Greedy(ts, window, limit)[n] <==> WindowCount(GreedyLog(ts[..n], window, limit), window, ts[n]) == limit
  {
    var upTo := ts[..n + 1];
    assert upTo[..n] == ts[..n];
    ChosenNoLater(ts[..n], Greedy(ts[..n], window, limit), ts[n]);
    GreedyIsSafe(ts[..n], window, limit);
    AdmitsExactlyWhenRoom(GreedyLog(ts[..n], window, limit), ts[n], window, limit);
    GreedyLogSnoc(upTo, window, limit);
    GreedyPrefix(ts, n + 1, window, limit);
    assert Greedy(ts, window, limit)[n] == Greedy(ts, window, limit)[..n + 1][n];
  }

  // -------------------------------------------------------------- optimality

  /** Splitting the requests at the window's start splits the chosen ones. */
  lemma {:induction false} WindowSplit(ts: seq<int>, choice: seq<bool>, j: nat, x: int)
    requires |ts| == |choice| && j <= |ts|
    requires forall k | 0 <= k < j :: ts[k] <= x
    requires forall k | j <= k < |ts| :: x < ts[k]
    ensures |Chosen(ts, choice)| == |Chosen(ts[..j], choice[..j])| + Above(Chosen(ts, choice), x)
  {
    if j == |ts| {
      assert ts[..j] == ts && choice[..j] == choice;
      ChosenNoLater(ts, choice, x);
      AboveNothing(Chosen(ts, choice), x);
    } else {
      var n := |ts| - 1;
      WindowSplit(ts[..n], choice[..n], j, x);
      assert ts[..n][..j] == ts[..j] && choice[..n][..j] == choice[..j];
      var before := Chosen(ts[..n], choice[..n]);
      if choice[n] {
        assert (before + [ts[n]])[..|before|] == before;
      } else {
        assert before + [] == before;
      }
    }
  }

  lemma {:induction false} FirstInside(ts: seq<int>, x: int) returns (j: nat)
    requires NonDecreasing(ts)
    ensures j <= |ts|
    ensures forall k | 0 <= k < j :: ts[k] <= x
    ensures forall k | j <= k < |ts| :: x < ts[k]
  {
    if ts == [] || ts[|ts| - 1] <= x {
      j := |ts|;
    } else {
      j := FirstInside(ts[..|ts| - 1], x);
    }
  }

  lemma {:induction false} ChosenPrefix(ts: seq<int>, choice: seq<bool>, n: nat)
    requires |ts| == |choice| && n <= |ts|
    ensures Chosen(ts[..n], choice[..n]) <= Chosen(ts, choice)
  {
    if n == |ts| {
      assert ts[..n] == ts && choice[..n] == choice;
    } else {
      var m := |ts| - 1;
      ChosenPrefix(ts[..m], choice[..m], n);
      assert ts[..m][..n] == ts[..n] && choice[..m][..n] == choice[..n];
    }
  }

  lemma {:induction false} CountInMonotone(front: seq<int>, log: seq<int>, lo: int, hi: int)
    requires front <= log
    ensures CountIn(front, lo, hi) <= CountIn(log, lo, hi)
  {
    if front == log {
    } else {
      CountInMonotone(front, log[..|log| - 1], lo, hi);
    }
  }

  lemma FrontWithinLimit(front: seq<int>, log: seq<int>, window: int, limit: int)
    requires front <= log && WithinLimit(log, window, limit)
    ensures WithinLimit(front, window, limit)
  {
    forall t: int
      ensures WindowCount(front, window, t) <= Cap(limit)
    {
      CountInMonotone(front, log, t - window, t);
      assert WindowCount(log, window, t) <= Cap(limit);
    }
  }

  lemma PrefixWithinLimit(ts: seq<int>, choice: seq<bool>, n: nat, window: int, limit: int)
    requires |ts| == |choice| && n <= |ts|
    requires WithinLimit(Chosen(ts, choice), window, limit)
    ensures WithinLimit(Chosen(ts[..n], choice[..n]), window, limit)
  {
    ChosenPrefix(ts, choice, n);
    FrontWithinLimit(Chosen(ts[..n], choice[..n]), Chosen(ts, choice), window, limit);
  }

  /** A rival keeping the bound gains at most `limit` requests inside one window. */
  lemma RivalGainsAtMostLimit(ts: seq<int>, rival: seq<bool>, j: nat, window: int, limit: int)
    requires ts != [] && |ts| == |rival| && NonDecreasing(ts)
    requires WithinLimit(Chosen(ts, rival), window, limit)
    requires window > 0
    requires j <= |ts|
    requires forall k | 0 <= k < j :: ts[k] <= ts[|ts| - 1] - window
    requires forall k | j <= k < |ts| :: ts[|ts| - 1] - window < ts[k]
    ensures |Chosen(ts, rival)| <= |Chosen(ts[..j], rival[..j])| + Cap(limit)
    ensures rival[|ts| - 1] ==> limit >= 1
  {
    var n := |ts| - 1;
    var now := ts[n];
    var taken := Chosen(ts, rival);
    ChosenNoLater(ts, rival, now);
    CountInBounded(taken, now - window, now, now);
    assert WindowCount(taken, window, now) <= Cap(limit);
    WindowSplit(ts, rival, j, now - window);
    if rival[n] {
      var before := Chosen(ts[..n], rival[..n]);
      assert taken[..|before|] == before;
      assert Above(taken, now - window) >= 1;
    }
  }

  lemma GreedyWindowSplit(ts: seq<int>, j: nat, x: int, window: int, limit: int)
    requires j <= |ts|
    requires forall k | 0 <= k < j :: ts[k] <= x
    requires forall k | j <= k < |ts| :: x < ts[k]
    ensures |GreedyLog(ts, window, limit)|
         == |GreedyLog(ts[..j], window, limit)| + Above(GreedyLog(ts, window, limit), x)
  {
    WindowSplit(ts, Greedy(ts, window, limit), j, x);
    GreedyPrefix(ts, j, window, limit);
  }

  function Extend(log: seq<int>, admitted: bool, now: int): seq<int> {
    if admitted then log + [now] else log
  }

  lemma GreedyLogSnoc(ts: seq<int>, window: int, limit: int)
    requires ts != []
    ensures var n := |ts| - 1;
            var log := GreedyLog(ts[..n], window, limit);
            var admitted := Admits(log, ts[n], window, limit);
            && Greedy(ts, window, limit)[n] == admitted
            && GreedyLog(ts, window, limit) == Extend(log, admitted, ts[n])
  {
    var n := |ts| - 1;
    var before := Greedy(ts[..n], window, limit);
    assert Greedy(ts, window, limit)[..n] == before;
    assert Chosen(ts[..n], before) + [] == Chosen(ts[..n], before);
  }

  /** When the rule denies a request, it gained at least `limit` inside that window. */
  lemma DenialMeansWindowFull(ts: seq<int>, j: nat, window: int, limit: int)
    requires ts != [] && NonDecreasing(ts)
    requires !Greedy(ts, window, limit)[|ts| - 1]
    requires j <= |ts| - 1
    requires forall k | 0 <= k < j :: ts[k] <= ts[|ts| - 1] - window
    requires forall k | j <= k < |ts| :: ts[|ts| - 1] - window < ts[k]
    ensures |GreedyLog(ts[..j], window, limit)| + limit <= |GreedyLog(ts, window, limit)|
  {
    var n := |ts| - 1;
    GreedyLogSnoc(ts, window, limit);
    GreedyWindowSplit(ts[..n], j, ts[n] - window, window, limit);
    assert ts[..n][..j] == ts[..j];
  }

  /** Greedy optimality: whatever other choice keeps the bound in every window, it has
      admitted no more requests in any prefix of the run. */
  lemma {:induction false} GreedyIsOptimal(ts: seq<int>, rival: seq<bool>, window: int, limit: int)
    requires |ts| == |rival| && NonDecreasing(ts)
    requires window > 0
    requires WithinLimit(Chosen(ts, rival), window, limit)
    ensures forall n | 0 <= n <= |ts| ::
              |Chosen(ts[..n], rival[..n])| <= |Chosen(ts[..n], Greedy(ts, window, limit)[..n])|
  {
    forall n | 0 <= n <= |ts|
      ensures |Chosen(ts[..n], rival[..n])| <= |Chosen(ts[..n], Greedy(ts, window, limit)[..n])|
    {
      PrefixWithinLimit(ts, rival, n, window, limit);
      GreedyPrefix(ts, n, window, limit);
      StaysAhead(ts[..n], rival[..n], window, limit);
    }
  }

  lemma {:induction false} StaysAhead(ts: seq<int>, rival: seq<bool>, window: int, limit: int)
    requires |ts| == |rival| && NonDecreasing(ts)
    requires window > 0
    requires WithinLimit(Chosen(ts, rival), window, limit)
    ensures |Chosen(ts, rival)| <= |GreedyLog(ts, window, limit)|
    decreases |ts|
  {
    if ts == [] {
    } else {
      var n := |ts| - 1;
      PrefixWithinLimit(ts, rival, n, window, limit);
      StaysAhead(ts[..n], rival[..n], window, limit);
      GreedyPrefix(ts, n, window, limit);
      if rival[n] && !Greedy(ts, window, limit)[n] {
        var j := FirstInside(ts, ts[n] - window);
        assert ts[n] > ts[n] - window;
        PrefixWithinLimit(ts, rival, j, window, limit);
        StaysAhead(ts[..j], rival[..j], window, limit);
        RivalGainsAtMostLimit(ts, rival, j, window, limit);
        DenialMeansWindowFull(ts, j, window, limit);
      }
    }
  }
}
