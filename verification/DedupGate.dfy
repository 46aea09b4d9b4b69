/** The worker's memory of handled events: a map from key to the time of dispatch, pruned
    of entries older than ten minutes whenever a new event is dispatched. Times are
    nanoseconds. */
module DedupGate {
  import opened EventKey
  import opened Options
  import Text

  const MINUTE := 60_000_000_000
  const KEEP := 10 * MINUTE

  type Memory = map<string, int>

  datatype Step = Step(key: string, now: int)

  function Evict(processed: Memory, now: int): Memory {
    map k | k in processed && now - processed[k] <= KEEP :: processed[k]
  }

  /** One passage through the gate. Membership is looked up before the old entries go. */
  function Gate(processed: Memory, s: Step): (Memory, bool) {
    if s.key in processed then (processed, false)
    else (Evict(processed, s.now)[s.key := s.now], true)
  }

  function Run(processed: Memory, steps: seq<Step>): (r: (Memory, seq<bool>))
    ensures |r.1| == |steps|
  {
    if steps == [] then (processed, [])
    else
      var n := |steps| - 1;
      var (before, verdicts) := Run(processed, steps[..n]);
      var (after, passed) := Gate(before, steps[n]);
      (after, verdicts + [passed])
  }

  ghost predicate InOrder(steps: seq<Step>) {
    forall i, j | 0 <= i < j < |steps| :: steps[i].now <= steps[j].now
  }

  // ------------------------------------------ the gate in terms of its history

  /** The steps of a run that were dispatched. */
  function Dispatched(steps: seq<Step>, verdicts: seq<bool>): seq<Step>
    requires |steps| == |verdicts|
  {
    if steps == [] then []
    else
      var n := |steps| - 1;
      Dispatched(steps[..n], verdicts[..n]) + (if verdicts[n] then [steps[n]] else [])
  }

  function History(steps: seq<Step>): seq<Step> {
    Dispatched(steps, Run(map[], steps).1)
  }

  /** When a key was last dispatched. */
  function LastDispatch(history: seq<Step>, key: string): Option<int> {
    if history == [] then None
    else if history[|history| - 1].key == key then Some(history[|history| - 1].now)
    else LastDispatch(history[..|history| - 1], key)
  }

  /** The key's last dispatch is at most ten minutes older than the last dispatch of any
      key. Note that the present time plays no part. */
  predicate Remembered(history: seq<Step>, key: string) {
    var t := LastDispatch(history, key);
    t.Some? && history[|history| - 1].now - t.value <= KEEP
  }

  ghost predicate Mirrors(processed: Memory, history: seq<Step>) {
    forall key :: key in processed <==> Remembered(history, key)
  }

  ghost predicate HoldsTimes(processed: Memory, history: seq<Step>) {
    forall key | key in processed :: LastDispatch(history, key) == Some(processed[key])
  }

  lemma {:induction false} LastDispatchBounded(history: seq<Step>, key: string, hi: int)
    requires forall k | 0 <= k < |history| :: history[k].now <= hi
    ensures LastDispatch(history, key).Some? ==> LastDispatch(history, key).value <= hi
  {
    if history != [] {
      LastDispatchBounded(history[..|history| - 1], key, hi);
    }
  }

  lemma GateMirrors(processed: Memory, history: seq<Step>, s: Step)
    requires Mirrors(processed, history) && HoldsTimes(processed, history)
    requires history != [] ==> history[|history| - 1].now <= s.now
    requires s.key !in processed
    ensures Mirrors(Gate(processed, s).0, history + [s])
    ensures HoldsTimes(Gate(processed, s).0, history + [s])
  {
    var after := Gate(processed, s).0;
    var history' := history + [s];
    assert history'[..|history|] == history;
    forall key
      ensures key in after <==> Remembered(history', key)
      ensures key in after ==> LastDispatch(history', key) == Some(after[key])
    {
      if key != s.key {
        assert LastDispatch(history', key) == LastDispatch(history, key);
        assert Remembered(history', key) ==> Remembered(history, key);
      }
    }
  }

  lemma {:induction false} DispatchedAreEarlier(steps: seq<Step>, verdicts: seq<bool>, hi: int)
    requires |steps| == |verdicts|
    requires forall k | 0 <= k < |steps| :: steps[k].now <= hi
    ensures forall k | 0 <= k < |Dispatched(steps, verdicts)| :: Dispatched(steps, verdicts)[k].now <= hi
  {
    if steps != [] {
      DispatchedAreEarlier(steps[..|steps| - 1], verdicts[..|steps| - 1], hi);
    }
  }

  lemma HistorySnoc(steps: seq<Step>)
    requires steps != []
    ensures var n := |steps| - 1;
            var passed := Gate(Run(map[], steps[..n]).0, steps[n]).1;
            History(steps) == if passed then History(steps[..n]) + [steps[n]] else History(steps[..n])
  {
    var n := |steps| - 1;
    var (before, verdicts) := Run(map[], steps[..n]);
    assert (verdicts + [Gate(before, steps[n]).1])[..n] == verdicts;
    assert Dispatched(steps[..n], verdicts) + [] == Dispatched(steps[..n], verdicts);
  }

  /** Over any run in time order the map holds exactly the keys dispatched within ten
      minutes of the latest dispatch, each with the time it was dispatched. */
  lemma {:induction false} MemoryMirrorsHistory(steps: seq<Step>)
    requires InOrder(steps)
    ensures Mirrors(Run(map[], steps).0, History(steps))
    ensures HoldsTimes(Run(map[], steps).0, History(steps))
  {
    if steps == [] {
    } else {
      var n := |steps| - 1;
      MemoryMirrorsHistory(steps[..n]);
      HistorySnoc(steps);
      var before := Run(map[], steps[..n]).0;
      if steps[n].key !in before {
        DispatchedAreEarlier(steps[..n], Run(map[], steps[..n]).1, steps[n].now);
        GateMirrors(before, History(steps[..n]), steps[n]);
      }
    }
  }

  /** Exactly when an event passes the gate: its key was never dispatched, or some key has
      been dispatched more than ten minutes after it since. An old key therefore
      suppresses a repeat for as long as nothing else is dispatched. */
  lemma {:induction false} PassesExactlyWhenForgotten(steps: seq<Step>, s: Step)
    requires InOrder(steps)
    ensures Run(map[], steps + [s]).1[|steps|] <==> !Remembered(History(steps), s.key)
  {
    MemoryMirrorsHistory(steps);
    assert (steps + [s])[..|steps|] == steps;
  }

  /** After a dispatch no entry is more than ten minutes old. */
  lemma EntriesAreRecent(steps: seq<Step>, s: Step, key: string)
    requires InOrder(steps + [s])
    requires var (after, passed) := Gate(Run(map[], steps).0, s);
             passed && key in after
    ensures 0 <= s.now - Gate(Run(map[], steps).0, s).0[key] <= KEEP
  {
    var all := steps + [s];
    assert forall k | 0 <= k < |steps| :: steps[k] == all[k] && all[k].now <= all[|steps|].now;
    MemoryMirrorsHistory(steps);
    var before := Run(map[], steps).0;
    DispatchedAreEarlier(steps, Run(map[], steps).1, s.now);
    LastDispatchBounded(History(steps), key, s.now);
    assert key != s.key ==> LastDispatch(History(steps), key) == Some(before[key]);
  }

  // ------------------------------------------------------ at most once, at least once

  /** How many steps with this key were dispatched. */
  function Passes(steps: seq<Step>, verdicts: seq<bool>, key: string): nat
    requires |steps| == |verdicts|
  {
    if steps == [] then 0
    else
      var n := |steps| - 1;
      Passes(steps[..n], verdicts[..n], key) + (if verdicts[n] && steps[n].key == key then 1 else 0)
  }

  predicate Occurs(steps: seq<Step>, key: string) {
    exists k | 0 <= k < |steps| :: steps[k].key == key
  }

  /** If all steps with a key fall within ten minutes they yield one dispatch together,
      whatever else is dispatched in between. */
  lemma {:induction false} OneDispatchWithinKeep(steps: seq<Step>, key: string, c: int)
    requires InOrder(steps)
    requires forall k | 0 <= k < |steps| && steps[k].key == key :: c <= steps[k].now <= c + KEEP
    ensures var (processed, verdicts) := Run(map[], steps);
            && Passes(steps, verdicts, key) == (if Occurs(steps, key) then 1 else 0)
            && (Occurs(steps, key) && steps[|steps| - 1].now <= c + KEEP ==> key in processed && c <= processed[key])
            && (!Occurs(steps, key) ==> key !in processed)
  {
    if steps == [] {
    } else {
      var n := |steps| - 1;
      OneDispatchWithinKeep(steps[..n], key, c);
      var (before, verdicts) := Run(map[], steps[..n]);
      assert Run(map[], steps).1[..n] == verdicts;
      if Occurs(steps[..n], key) {
        var k :| 0 <= k < n && steps[..n][k].key == key;
        assert steps[k].key == key;
        assert Occurs(steps, key);
        assert steps[..n][n - 1].now <= steps[n].now;
      } else {
        assert forall k | 0 <= k < n :: steps[k] == steps[..n][k];
        assert Occurs(steps, key) <==> steps[n].key == key;
      }
    }
  }

  // ----------------------------------------------------------------- the worker

  /** What handling one event leads to. */
  datatype Outcome = Duplicate | ReviewRequested | Observed | Ignored

  function OutcomeOf(e: Event): Outcome {
    if e.action == "commented on" then
      if Text.Contains(e.body, "review") then ReviewRequested else Observed
    else if e.action == "opened" || e.action == "updated" then Observed
    else Ignored
  }

  lemma RunUpTo(processed: Memory, steps: seq<Step>, i: nat)
    requires i < |steps|
    ensures var (before, verdicts) := Run(processed, steps[..i]);
            var (after, passed) := Gate(before, steps[i]);
            Run(processed, steps[..i + 1]) == (after, verdicts + [passed])
  {
    assert steps[..i + 1][..i] == steps[..i];
  }

  class Worker {
    var processed: Memory

    constructor ()
      ensures processed == map[]
    {
      processed := map[];
    }

    /** Drops the entries that are more than ten minutes old, one by one. */
    method CleanUp(now: int)
      modifies this
      ensures processed == Evict(old(processed), now)
    {
      var todo := processed.Keys;
      while todo != {}
        invariant todo <= processed.Keys
        invariant forall k :: k in processed <==>
                    k in old(processed) && (k in todo || now - old(processed)[k] <= KEEP)
        invariant forall k | k in processed :: processed[k] == old(processed)[k]
      {
        var k :| k in todo;
        todo := todo - {k};
        if now - processed[k] > KEEP {
          processed := processed - {k};
        }
      }
    }

    method HandleEvent(e: Event, now: int) returns (o: Outcome)
      modifies this
      ensures (processed, o != Duplicate) == Gate(old(processed), Step(Key(e), now))
      ensures o == Duplicate <==> Key(e) in old(processed)
      ensures o != Duplicate ==> Key(e) in processed && processed[Key(e)] == now
      ensures o != Duplicate ==> forall k | k != Key(e) ::
                if k in old(processed) && now - old(processed)[k] <= 600_000_000_000 then
                  k in processed && processed[k] == old(processed)[k]
                else k !in processed
      ensures o == ReviewRequested <==> o != Duplicate && e.action == "commented on" && Text.Contains(e.body, "review")
      ensures o == Ignored <==> o != Duplicate && e.action !in ["commented on", "opened", "updated"]
    {
      var key := Key(e);
      if key in processed {
        return Duplicate;
      }
      CleanUp(now);
      processed := processed[key := now];
      o := OutcomeOf(e);
    }

    /** Handles the events of one poll in order, each at its own time. */
    method HandleAll(events: seq<Event>, times: seq<int>) returns (verdicts: seq<bool>)
      requires |events| == |times|
      modifies this
      ensures (processed, verdicts) == Run(old(processed), StepsOf(events, times))
    {
      verdicts := [];
      var steps := StepsOf(events, times);
      for i := 0 to |events|
        invariant (processed, verdicts) == Run(old(processed), steps[..i])
      {
        RunUpTo(old(processed), steps, i);
        var o := HandleEvent(events[i], times[i]);
        verdicts := verdicts + [o != Duplicate];
      }
      assert steps[..|events|] == steps;
    }
  }

  function StepsOf(events: seq<Event>, times: seq<int>): (steps: seq<Step>)
    requires |events| == |times|
    ensures |steps| == |events|
  {
    seq(|events|, k requires 0 <= k < |events| => Step(Key(events[k]), times[k]))
  }
}
