/** Failover between LLM providers: a provider that reports its quota used up is passed over
    for a day. Times are nanoseconds on one clock. */
module Registry {
  import opened Options

  const RESET := 24 * 60 * 60 * 1_000_000_000

  /** The time of each provider's last quota hit; every record lasts RESET. */
  type Records = map<string, int>

  datatype CallResult = Ok(text: string) | QuotaHit | Failed(error: string)

  /** One turn of the loop: when the record is checked, what the call would give, and when
      a quota hit would be recorded. */
  datatype Turn = Turn(checkedAt: int, outcome: CallResult, markedAt: int)

  datatype Answer = Text(text: string) | ProviderError(provider: string, error: string) | AllExhausted

  /** What an attempt leaves: the records, the answer and the positions called, in order. */
  datatype Effect = Effect(records: Records, answer: Answer, called: seq<nat>)

  predicate Exhausted(records: Records, name: string, now: int) {
    name in records && now - records[name] < RESET
  }

  /** The loop from position i on. */
  function AttemptFrom(records: Records, providers: seq<string>, turns: seq<Turn>, i: nat): Effect
    requires |turns| == |providers| && i <= |providers|
    decreases |providers| - i
  {
    if i == |providers| then Effect(records, AllExhausted, [])
    else
      var name := providers[i];
      if Exhausted(records, name, turns[i].checkedAt) then AttemptFrom(records, providers, turns, i + 1)
      else
        match turns[i].outcome
        case Ok(text) => Effect(records, Text(text), [i])
        case Failed(error) => Effect(records, ProviderError(name, error), [i])
        case QuotaHit =>
          var rest := AttemptFrom(records[name := turns[i].markedAt], providers, turns, i + 1);
          rest.(called := [i] + rest.called)
  }

  function ActiveIn(records: Records, providers: seq<string>, now: int): seq<string> {
    if providers == [] then []
    else
      var name := providers[|providers| - 1];
      ActiveIn(records, providers[..|providers| - 1], now) + (if Exhausted(records, name, now) then [] else [name])
  }

  function RecordOf(records: Records, name: string): Option<int> {
    if name in records then Some(records[name]) else None
  }

  /** There is no mark, or it is 24 hours old at least. */
  predicate Due(mark: Option<int>, now: int) {
    mark.None? || now - mark.value >= 86_400_000_000_000
  }

  lemma {:induction false} ActiveAreDue(records: Records, providers: seq<string>, now: int)
    ensures forall name ::
              name in ActiveIn(records, providers, now) <==> name in providers && Due(RecordOf(records, name), now)
  {
    if providers != [] {
      var n := |providers| - 1;
      ActiveAreDue(records, providers[..n], now);
      assert providers == providers[..n] + [providers[n]];
    }
  }

  /** The list of active providers keeps the order of the providers. */
  lemma {:induction false} ActiveInOrder(records: Records, front: seq<string>, back: seq<string>, now: int)
    ensures ActiveIn(records, front + back, now) == ActiveIn(records, front, now) + ActiveIn(records, back, now)
  {
    if back == [] {
      assert front + back == front;
    } else {
      var n := |back| - 1;
      ActiveInOrder(records, front, back[..n], now);
      assert (front + back)[..|front| + n] == front + back[..n];
    }
  }

  class Registry {
    const providers: seq<string>
    var quotaRecords: Records

    constructor (providers: seq<string>)
      ensures this.providers == providers && quotaRecords == map[]
    {
      this.providers := providers;
      quotaRecords := map[];
    }

    method Active(now: int) returns (active: seq<string>)
      ensures active == ActiveIn(quotaRecords, providers, now)
      ensures forall name :: name in active <==> name in providers && Due(RecordOf(quotaRecords, name), now)
    {
      ActiveAreDue(quotaRecords, providers, now);
      active := [];
      for i := 0 to |providers|
        invariant active == ActiveIn(quotaRecords, providers[..i], now)
      {
        assert providers[..i + 1][..i] == providers[..i];
        if !Exhausted(quotaRecords, providers[i], now) {
          active := active + [providers[i]];
        }
      }
      assert providers[..|providers|] == providers;
    }

    /** Tries the providers in order until one decides. */
    method Attempt(turns: seq<Turn>) returns (answer: Answer, called: seq<nat>)
      requires |turns| == |providers|
      modifies this
      ensures Effect(quotaRecords, answer, called) == AttemptFrom(old(quotaRecords), providers, turns, 0)
    {
      called := [];
      for i := 0 to |providers|
        invariant AttemptFrom(old(quotaRecords), providers, turns, 0)
               == Prepend(called, AttemptFrom(quotaRecords, providers, turns, i))
      {
        var name := providers[i];
        if !Exhausted(quotaRecords, name, turns[i].checkedAt) {
          ghost var before := called;
          called := called + [i];
          match turns[i].outcome {
            case Ok(text) => return Text(text), called;
            case Failed(error) => return ProviderError(name, error), called;
            case QuotaHit =>
              quotaRecords := quotaRecords[name := turns[i].markedAt];
              PrependAssociates(before, [i], AttemptFrom(quotaRecords, providers, turns, i + 1));
          }
        }
      }
      answer := AllExhausted;
      assert called + [] == called;
    }
  }

  function Prepend(called: seq<nat>, e: Effect): Effect {
    e.(called := called + e.called)
  }

  lemma PrependAssociates(a: seq<nat>, b: seq<nat>, e: Effect)
    ensures Prepend(a, Prepend(b, e)) == Prepend(a + b, e)
  {
    assert a + (b + e.called) == (a + b) + e.called;
  }

  // ------------------------------------------ what an attempt does at one instant

  /** All checks and marks of the attempt happen at `now`. */
  predicate Frozen(turns: seq<Turn>, now: int) {
    forall i | 0 <= i < |turns| :: turns[i].checkedAt == now && turns[i].markedAt == now
  }

  /** Position i gets a call if the attempt reaches it: its provider was not exhausted at the
      start and does not stand earlier in the list. */
  predicate Eligible(records: Records, providers: seq<string>, now: int, i: nat)
    requires i < |providers|
  {
    !Exhausted(records, providers[i], now) && providers[i] !in providers[..i]
  }

  /** The first eligible position, from i on, whose call does not report a used-up quota. */
  function Decider(records: Records, providers: seq<string>, turns: seq<Turn>, now: int, i: nat): (d: nat)
    requires |turns| == |providers| && i <= |providers|
    ensures i <= d <= |providers|
    ensures forall k | i <= k < d :: Eligible(records, providers, now, k) ==> turns[k].outcome.QuotaHit?
    ensures d < |providers| ==> Eligible(records, providers, now, d) && !turns[d].outcome.QuotaHit?
    decreases |providers| - i
  {
    if i == |providers| || (Eligible(records, providers, now, i) && !turns[i].outcome.QuotaHit?) then i
    else Decider(records, providers, turns, now, i + 1)
  }

  /** The eligible positions in [i, hi). */
  function EligibleIn(records: Records, providers: seq<string>, now: int, i: nat, hi: nat): seq<nat>
    requires i <= hi <= |providers|
    decreases hi - i
  {
    if i == hi then []
    else (if Eligible(records, providers, now, i) then [i] else []) + EligibleIn(records, providers, now, i + 1, hi)
  }

  /** The records once the eligible positions below i have been marked. */
  function MarkedUpTo(records: Records, providers: seq<string>, now: int, i: nat): Records
    requires i <= |providers|
  {
    if i == 0 then records
    else
      var before := MarkedUpTo(records, providers, now, i - 1);
      if Eligible(records, providers, now, i - 1) then before[providers[i - 1] := now] else before
  }

  lemma {:induction false} ExhaustedAfterMarks(records: Records, providers: seq<string>, now: int, i: nat, name: string)
    requires i <= |providers|
    ensures Exhausted(MarkedUpTo(records, providers, now, i), name, now)
            <==> Exhausted(records, name, now) || name in providers[..i]
  {
    if i > 0 {
      ExhaustedAfterMarks(records, providers, now, i - 1, name);
      assert providers[..i] == providers[..i - 1] + [providers[i - 1]];
    }
  }

  function AnswerOf(name: string, outcome: CallResult): Answer
    requires !outcome.QuotaHit?
  {
    match outcome
    case Ok(text) => Text(text)
    case Failed(error) => ProviderError(name, error)
  }

  /** What the failover promises at one instant: the decider's answer, calls to the eligible
      positions up to it and to no other, and marks for those before it. */
  function Promised(records: Records, providers: seq<string>, turns: seq<Turn>, now: int, i: nat): Effect
    requires |turns| == |providers| && i <= |providers|
  {
    var d := Decider(records, providers, turns, now, i);
    if d == |providers| then
      Effect(MarkedUpTo(records, providers, now, d), AllExhausted, EligibleIn(records, providers, now, i, d))
    else
      Effect(MarkedUpTo(records, providers, now, d), AnswerOf(providers[d], turns[d].outcome),
             EligibleIn(records, providers, now, i, d + 1))
  }

  lemma {:induction false} LoopKeepsPromise(records: Records, providers: seq<string>, turns: seq<Turn>,
                                            now: int, i: nat)
    requires |turns| == |providers| && i <= |providers| && Frozen(turns, now)
    ensures AttemptFrom(MarkedUpTo(records, providers, now, i), providers, turns, i)
         == Promised(records, providers, turns, now, i)
    decreases |providers| - i
  {
    if i < |providers| {
      ExhaustedAfterMarks(records, providers, now, i, providers[i]);
      LoopKeepsPromise(records, providers, turns, now, i + 1);
      assert MarkedUpTo(records, providers, now, i + 1)
          == if Eligible(records, providers, now, i) then MarkedUpTo(records, providers, now, i)[providers[i] := now]
             else MarkedUpTo(records, providers, now, i);
      if Eligible(records, providers, now, i) && !turns[i].outcome.QuotaHit? {
        assert EligibleIn(records, providers, now, i + 1, i + 1) == [];
      }
    }
  }

  /** With the clock standing still an attempt is the first eligible provider that is not out
      of quota, whether or not names repeat in the list. */
  lemma AttemptMeetsPromise(records: Records, providers: seq<string>, turns: seq<Turn>, now: int)
    requires |turns| == |providers| && Frozen(turns, now)
    ensures AttemptFrom(records, providers, turns, 0) == Promised(records, providers, turns, now, 0)
  {
    LoopKeepsPromise(records, providers, turns, now, 0);
  }

  lemma {:induction false} ActiveExactly(records: Records, providers: seq<string>, now: int)
    ensures ActiveIn(records, providers, now) == []
            <==> forall k | 0 <= k < |providers| :: Exhausted(records, providers[k], now)
  {
    if providers != [] {
      var n := |providers| - 1;
      ActiveExactly(records, providers[..n], now);
      if forall k | 0 <= k < n :: Exhausted(records, providers[..n][k], now) {
        assert forall k | 0 <= k < n :: providers[k] == providers[..n][k];
      } else {
        var k :| 0 <= k < n && !Exhausted(records, providers[..n][k], now);
        assert !Exhausted(records, providers[k], now);
      }
    }
  }

  /** An attempt reports that all providers are exhausted exactly when it leaves none
      active. */
  lemma AllExhaustedExactlyWhenNoneActive(records: Records, providers: seq<string>, turns: seq<Turn>, now: int)
    requires |turns| == |providers| && Frozen(turns, now)
    ensures var e := AttemptFrom(records, providers, turns, 0);
            e.answer == AllExhausted <==> ActiveIn(e.records, providers, now) == []
  {
    AttemptMeetsPromise(records, providers, turns, now);
    var d := Decider(records, providers, turns, now, 0);
    var after := MarkedUpTo(records, providers, now, d);
    ActiveExactly(after, providers, now);
    if d == |providers| {
      forall k | 0 <= k < |providers|
        ensures Exhausted(after, providers[k], now)
      {
        ExhaustedAfterMarks(records, providers, now, d, providers[k]);
        assert providers[k] in providers[..d];
      }
    } else {
      ExhaustedAfterMarks(records, providers, now, d, providers[d]);
    }
  }

  lemma {:induction false} NoneEligible(records: Records, providers: seq<string>, turns: seq<Turn>, now: int, i: nat)
    requires |turns| == |providers| && i <= |providers| && Frozen(turns, now)
    requires forall k | 0 <= k < |providers| :: Exhausted(records, providers[k], now)
    ensures AttemptFrom(records, providers, turns, i) == Effect(records, AllExhausted, [])
    decreases |providers| - i
  {
    if i < |providers| {
      NoneEligible(records, providers, turns, now, i + 1);
    }
  }

  /** With no provider active an attempt gives up without calling anyone. */
  lemma NoneActiveMeansNoCall(records: Records, providers: seq<string>, turns: seq<Turn>, now: int)
    requires |turns| == |providers| && Frozen(turns, now)
    requires ActiveIn(records, providers, now) == []
    ensures AttemptFrom(records, providers, turns, 0) == Effect(records, AllExhausted, [])
  {
    ActiveExactly(records, providers, now);
    NoneEligible(records, providers, turns, now, 0);
  }

  // ------------------------------------------ what an attempt does as time passes

  /** The provider's last mark when position i is reached: the latest made by the attempt
      itself, else the one it found. */
  function MarkBefore(records: Records, providers: seq<string>, turns: seq<Turn>, called: seq<nat>, i: nat,
                      name: string): Option<int>
    requires |turns| == |providers| && i <= |providers|
  {
    if i == 0 then RecordOf(records, name)
    else if i - 1 in called && providers[i - 1] == name && turns[i - 1].outcome.QuotaHit? then
      Some(turns[i - 1].markedAt)
    else MarkBefore(records, providers, turns, called, i - 1, name)
  }

  /** No call before position i has decided the attempt. */
  predicate Reaches(turns: seq<Turn>, called: seq<nat>, i: nat) {
    forall j | j in called && j < i && j < |turns| :: turns[j].outcome.QuotaHit?
  }

  /** Position i gets a call exactly when it is reached and its provider's last mark, if any,
      is a day old at its check. */
  predicate CalledWhenDue(records: Records, providers: seq<string>, turns: seq<Turn>, called: seq<nat>, i: nat)
    requires |turns| == |providers| && i < |providers|
  {
    i in called <==> Reaches(turns, called, i)
                     && Due(MarkBefore(records, providers, turns, called, i, providers[i]), turns[i].checkedAt)
  }

  /** The answer is that of the call that was no quota hit, if there was one. */
  predicate Answers(providers: seq<string>, turns: seq<Turn>, called: seq<nat>, answer: Answer)
    requires |turns| == |providers|
  {
    && (forall j | j in called && j < |turns| && turns[j].outcome.Ok? :: answer == Text(turns[j].outcome.text))
    && (forall j | j in called && j < |turns| && turns[j].outcome.Failed? ::
          answer == ProviderError(providers[j], turns[j].outcome.error))
    && ((forall j | j in called && j < |turns| :: turns[j].outcome.QuotaHit?) ==> answer == AllExhausted)
  }

  lemma {:induction false} SameBelow(records: Records, providers: seq<string>, turns: seq<Turn>, called: seq<nat>,
                                     called': seq<nat>, i: nat, name: string)
    requires |turns| == |providers| && i <= |providers|
    requires forall j | 0 <= j < i :: j in called <==> j in called'
    ensures MarkBefore(records, providers, turns, called, i, name)
         == MarkBefore(records, providers, turns, called', i, name)
  {
    if i > 0 {
      SameBelow(records, providers, turns, called, called', i - 1, name);
    }
  }

  predicate HoldsMark(found: Records, now: Records, providers: seq<string>, turns: seq<Turn>,
                      called: seq<nat>, i: nat, name: string)
    requires |turns| == |providers| && i <= |providers|
  {
    RecordOf(now, name) == MarkBefore(found, providers, turns, called, i, name)
  }

  /** The records hold the last marks. */
  ghost predicate HoldsMarks(found: Records, now: Records, providers: seq<string>, turns: seq<Turn>,
                             called: seq<nat>, i: nat)
    requires |turns| == |providers| && i <= |providers|
  {
    forall name: string :: HoldsMark(found, now, providers, turns, called, i, name)
  }

  /** What is left to do at position i, after the calls `front`. */
  ghost predicate RestOverTime(found: Records, e: Effect, providers: seq<string>, turns: seq<Turn>,
                               front: seq<nat>, i: nat)
    requires |turns| == |providers| && i <= |providers|
  {
    var called := front + e.called;
    && (forall k | 0 <= k < |e.called| :: i <= e.called[k] < |providers|)
    && (forall k | i <= k < |providers| :: CalledWhenDue(found, providers, turns, called, k))
    && HoldsMarks(found, e.records, providers, turns, called, |providers|)
    && Answers(providers, turns, called, e.answer)
    && forall j, k | 0 <= j < k < |e.called| :: e.called[j] < e.called[k]
  }

  ghost predicate HitsBelow(turns: seq<Turn>, front: seq<nat>, i: nat) {
    forall j | j in front :: j < i && j < |turns| && turns[j].outcome.QuotaHit?
  }

  lemma SkipOverTime(found: Records, e: Effect, providers: seq<string>, turns: seq<Turn>, front: seq<nat>, i: nat,
                     now: Records)
    requires |turns| == |providers| && i < |providers| && HitsBelow(turns, front, i)
    requires HoldsMarks(found, now, providers, turns, front, i)
    requires !Due(RecordOf(now, providers[i]), turns[i].checkedAt)
    requires RestOverTime(found, e, providers, turns, front, i + 1)
    ensures RestOverTime(found, e, providers, turns, front, i)
  {
    var called := front + e.called;
    SameBelow(found, providers, turns, called, front, i, providers[i]);
    assert HoldsMark(found, now, providers, turns, front, i, providers[i]);
    assert CalledWhenDue(found, providers, turns, called, i);
  }

  lemma DecideOverTime(found: Records, e: Effect, providers: seq<string>, turns: seq<Turn>, front: seq<nat>, i: nat)
    requires |turns| == |providers| && i < |providers| && HitsBelow(turns, front, i)
    requires HoldsMarks(found, e.records, providers, turns, front, i)
    requires Due(RecordOf(e.records, providers[i]), turns[i].checkedAt)
    requires !turns[i].outcome.QuotaHit? && e.called == [i] && e.answer == AnswerOf(providers[i], turns[i].outcome)
    ensures RestOverTime(found, e, providers, turns, front, i)
  {
    var called := front + e.called;
    SameBelow(found, providers, turns, called, front, i, providers[i]);
    assert HoldsMark(found, e.records, providers, turns, front, i, providers[i]);
    assert i in called;
    forall name: string
      ensures HoldsMark(found, e.records, providers, turns, called, |providers|, name)
    {
      assert HoldsMark(found, e.records, providers, turns, front, i, name);
      SameBelow(found, providers, turns, called, front, i, name);
      NoMarksAfter(found, providers, turns, called, i, |providers|, name);
    }
  }

  /** Positions that hit no quota leave no mark. */
  lemma {:induction false} NoMarksAfter(found: Records, providers: seq<string>, turns: seq<Turn>, called: seq<nat>,
                                        i: nat, hi: nat, name: string)
    requires |turns| == |providers| && i <= hi <= |providers|
    requires forall k | i <= k < hi && k in called :: !turns[k].outcome.QuotaHit?
    ensures MarkBefore(found, providers, turns, called, hi, name)
         == MarkBefore(found, providers, turns, called, i, name)
  {
    if i < hi {
      NoMarksAfter(found, providers, turns, called, i, hi - 1, name);
    }
  }

  lemma MarkHolds(found: Records, now: Records, providers: seq<string>, turns: seq<Turn>, front: seq<nat>, i: nat)
    requires |turns| == |providers| && i < |providers| && HitsBelow(turns, front, i)
    requires HoldsMarks(found, now, providers, turns, front, i) && turns[i].outcome.QuotaHit?
    ensures HoldsMarks(found, now[providers[i] := turns[i].markedAt], providers, turns, front + [i], i + 1)
  {
    var marked, called, next := now[providers[i] := turns[i].markedAt], front + [i], i + 1;
    forall name: string
      ensures HoldsMark(found, marked, providers, turns, called, next, name)
    {
      assert HoldsMark(found, now, providers, turns, front, i, name);
      SameBelow(found, providers, turns, front + [i], front, i, name);
    }
  }

  lemma HitOverTime(found: Records, e: Effect, rest: Effect, providers: seq<string>, turns: seq<Turn>, front: seq<nat>,
                    i: nat, now: Records)
    requires |turns| == |providers| && i < |providers| && HitsBelow(turns, front, i)
    requires HoldsMarks(found, now, providers, turns, front, i)
    requires Due(RecordOf(now, providers[i]), turns[i].checkedAt) && turns[i].outcome.QuotaHit?
    requires RestOverTime(found, rest, providers, turns, front + [i], i + 1)
    requires e == rest.(called := [i] + rest.called)
    ensures RestOverTime(found, e, providers, turns, front, i)
  {
    var called := front + e.called;
    CallFirst(front, i, rest.called, |providers|);
    SameBelow(found, providers, turns, called, front, i, providers[i]);
    assert HoldsMark(found, now, providers, turns, front, i, providers[i]);
    assert CalledWhenDue(found, providers, turns, called, i);
  }

  lemma CallFirst(front: seq<nat>, i: nat, later: seq<nat>, hi: nat)
    requires i < hi && forall k | 0 <= k < |later| :: i < later[k] < hi
    requires forall j, k | 0 <= j < k < |later| :: later[j] < later[k]
    ensures var called := [i] + later;
            && front + called == (front + [i]) + later && i in front + called
            && (forall k | 0 <= k < |called| :: i <= called[k] < hi)
            && forall j, k | 0 <= j < k < |called| :: called[j] < called[k]
  {
    assert (front + ([i] + later))[|front|] == i;
  }

  lemma {:induction false} LoopOverTime(found: Records, now: Records, providers: seq<string>, turns: seq<Turn>,
                                        front: seq<nat>, i: nat)
    requires |turns| == |providers| && i <= |providers| && HitsBelow(turns, front, i)
    requires HoldsMarks(found, now, providers, turns, front, i)
    ensures RestOverTime(found, AttemptFrom(now, providers, turns, i), providers, turns, front, i)
    decreases |providers| - i
  {
    var e := AttemptFrom(now, providers, turns, i);
    if i == |providers| {
      assert front + e.called == front;
    } else if !Due(RecordOf(now, providers[i]), turns[i].checkedAt) {
      SkipHolds(found, now, providers, turns, front, i);
      LoopOverTime(found, now, providers, turns, front, i + 1);
      SkipOverTime(found, e, providers, turns, front, i, now);
    } else if turns[i].outcome.QuotaHit? {
      MarkHolds(found, now, providers, turns, front, i);
      var marked := now[providers[i] := turns[i].markedAt];
      LoopOverTime(found, marked, providers, turns, front + [i], i + 1);
      HitOverTime(found, e, AttemptFrom(marked, providers, turns, i + 1), providers, turns, front, i, now);
    } else {
      DecideOverTime(found, e, providers, turns, front, i);
    }
  }

  lemma SkipHolds(found: Records, now: Records, providers: seq<string>, turns: seq<Turn>, front: seq<nat>, i: nat)
    requires |turns| == |providers| && i < |providers| && HitsBelow(turns, front, i)
    requires HoldsMarks(found, now, providers, turns, front, i)
    ensures HoldsMarks(found, now, providers, turns, front, i + 1)
  {
    var next := i + 1;
    forall name: string
      ensures HoldsMark(found, now, providers, turns, front, next, name)
    {
      assert HoldsMark(found, now, providers, turns, front, i, name);
      assert i !in front;
    }
  }

  /** With checks and marks at any times: an attempt calls positions in order, each exactly
      when it reaches it with its provider unmarked for a day; it answers with the first call
      that is no quota hit; and it leaves the last marks in the records. */
  lemma AttemptCallsExactlyWhenDue(records: Records, providers: seq<string>, turns: seq<Turn>)
    requires |turns| == |providers|
    ensures var e := AttemptFrom(records, providers, turns, 0);
            && (forall i | 0 <= i < |providers| :: CalledWhenDue(records, providers, turns, e.called, i))
            && (forall j, k | 0 <= j < k < |e.called| :: e.called[j] < e.called[k])
            && (forall k | 0 <= k < |e.called| :: e.called[k] < |providers|)
            && Answers(providers, turns, e.called, e.answer)
            && HoldsMarks(records, e.records, providers, turns, e.called, |providers|)
  {
    LoopOverTime(records, records, providers, turns, [], 0);
    var e := AttemptFrom(records, providers, turns, 0);
    assert [] + e.called == e.called;
  }

  // --------------------------------------------------------- concurrent attempts

  /** Where one attempt stands. `seen` is how many marks had been made, by any attempt, when
      the record was read; the comparison with the clock comes later. */
  datatype Pc = Ready(i: nat) | Loaded(i: nat, hitAt: Option<int>, seen: nat) | Calling(i: nat) | Over

  datatype Mark = Mark(name: string, at: int)

  datatype State = State(records: Records, pcs: map<nat, Pc>, marks: seq<Mark>, clock: int)

  /** The moves of the attempts, each at a time. The record is read and written under the
      lock; the call itself is not. */
  datatype Event =
    | Start(attempt: nat)
    | Read(attempt: nat)
    | Compare(attempt: nat)
    | Return(attempt: nat, outcome: CallResult)

  predicate Skips(hitAt: Option<int>, now: int) {
    hitAt.Some? && now - hitAt.value < RESET
  }

  function Moved(s: State, a: nat, pc: Pc, now: int): State {
    State(s.records, s.pcs[a := pc], s.marks, now)
  }

  /** One move at `now`; a move that is not possible changes nothing. */
  function Apply(providers: seq<string>, s: State, e: Event, now: int): State {
    var a := e.attempt;
    if now < s.clock then s
    else if e.Start? then
      if a in s.pcs then s else Moved(s, a, Ready(0), now)
    else if a !in s.pcs then s
    else
      match (e, s.pcs[a])
      case (Read(_), Ready(i)) =>
        if i >= |providers| then Moved(s, a, Over, now)
        else
          var hitAt := if providers[i] in s.records then Some(s.records[providers[i]]) else None;
          Moved(s, a, Loaded(i, hitAt, |s.marks|), now)
      case (Compare(_), Loaded(i, hitAt, _)) =>
        Moved(s, a, if Skips(hitAt, now) then Ready(i + 1) else Calling(i), now)
      case (Return(_, outcome), Calling(i)) =>
        if i < |providers| && outcome.QuotaHit? then
          State(s.records[providers[i] := now], s.pcs[a := Ready(i + 1)], s.marks + [Mark(providers[i], now)], now)
        else Moved(s, a, Over, now)
      case _ => s
  }

  datatype Move = Move(event: Event, at: int)

  function RunAll(providers: seq<string>, moves: seq<Move>): State {
    if moves == [] then State(map[], map[], [], 0)
    else
      var n := |moves| - 1;
      Apply(providers, RunAll(providers, moves[..n]), moves[n].event, moves[n].at)
  }

  /** The record is the provider's latest mark among the first `seen`. */
  predicate IsLatest(marks: seq<Mark>, seen: nat, name: string, hitAt: Option<int>)
    requires seen <= |marks|
  {
    && (forall k | 0 <= k < seen && marks[k].name == name :: hitAt.Some? && marks[k].at <= hitAt.value)
    && (hitAt.Some? ==> exists k | 0 <= k < seen :: marks[k] == Mark(name, hitAt.value))
  }

  ghost predicate PcGood(providers: seq<string>, s: State, pc: Pc) {
    pc.Loaded? ==> pc.i < |providers| && pc.seen <= |s.marks| && IsLatest(s.marks, pc.seen, providers[pc.i], pc.hitAt)
  }

  ghost predicate Sound(providers: seq<string>, s: State) {
    && (forall k | 0 <= k < |s.marks| :: s.marks[k].at <= s.clock)
    && (forall name: string :: IsLatest(s.marks, |s.marks|, name, RecordOf(s.records, name)))
    && (forall a | a in s.pcs :: PcGood(providers, s, s.pcs[a]))
  }

  lemma LatestSurvivesMark(marks: seq<Mark>, m: Mark, seen: nat, name: string, hitAt: Option<int>)
    requires seen <= |marks| && IsLatest(marks, seen, name, hitAt)
    ensures IsLatest(marks + [m], seen, name, hitAt)
  {
    if hitAt.Some? {
      var k :| 0 <= k < seen && marks[k] == Mark(name, hitAt.value);
      assert (marks + [m])[k] == Mark(name, hitAt.value);
    }
  }

  lemma MarkBecomesLatest(marks: seq<Mark>, records: Records, m: Mark, name: string)
    requires IsLatest(marks, |marks|, name, RecordOf(records, name))
    requires forall k | 0 <= k < |marks| :: marks[k].at <= m.at
    ensures IsLatest(marks + [m], |marks| + 1, name, RecordOf(records[m.name := m.at], name))
  {
    var all := marks + [m];
    if name == m.name {
      assert all[|marks|] == Mark(name, m.at);
    } else if name in records {
      var k :| 0 <= k < |marks| && marks[k] == Mark(name, records[name]);
      assert all[k] == Mark(name, records[name]);
    }
  }

  lemma MarkKeepsSound(providers: seq<string>, s: State, a: nat, m: Mark, pc: Pc)
    requires Sound(providers, s) && s.clock <= m.at && !pc.Loaded?
    ensures Sound(providers, State(s.records[m.name := m.at], s.pcs[a := pc], s.marks + [m], m.at))
  {
    var s' := State(s.records[m.name := m.at], s.pcs[a := pc], s.marks + [m], m.at);
    forall name: string
      ensures IsLatest(s'.marks, |s'.marks|, name, RecordOf(s'.records, name))
    {
      MarkBecomesLatest(s.marks, s.records, m, name);
    }
    forall b | b in s'.pcs
      ensures PcGood(providers, s', s'.pcs[b])
    {
      if b != a && s.pcs[b].Loaded? {
        assert PcGood(providers, s, s.pcs[b]);
        LatestSurvivesMark(s.marks, m, s.pcs[b].seen, providers[s.pcs[b].i], s.pcs[b].hitAt);
      }
    }
  }

  lemma MoveKeepsSound(providers: seq<string>, s: State, a: nat, pc: Pc, now: int)
    requires Sound(providers, s) && s.clock <= now && PcGood(providers, s, pc)
    ensures Sound(providers, Moved(s, a, pc, now))
  {
    var s' := Moved(s, a, pc, now);
    forall b | b in s'.pcs
      ensures PcGood(providers, s', s'.pcs[b])
    {
      assert b != a ==> PcGood(providers, s, s.pcs[b]);
    }
  }

  lemma ApplyKeepsSound(providers: seq<string>, s: State, e: Event, now: int)
    requires Sound(providers, s)
    ensures Sound(providers, Apply(providers, s, e, now))
  {
    var s' := Apply(providers, s, e, now);
    var a := e.attempt;
    if s' != s && s'.marks != s.marks {
      MarkKeepsSound(providers, s, a, Mark(providers[s.pcs[a].i], now), s'.pcs[a]);
    } else if s' != s {
      if e.Read? && s'.pcs[a].Loaded? {
        assert IsLatest(s.marks, |s.marks|, providers[s'.pcs[a].i], RecordOf(s.records, providers[s'.pcs[a].i]));
      }
      MoveKeepsSound(providers, s, a, s'.pcs[a], now);
    }
  }

  lemma {:induction false} RunIsSound(providers: seq<string>, moves: seq<Move>)
    ensures Sound(providers, RunAll(providers, moves))
  {
    if moves == [] {
    } else {
      var n := |moves| - 1;
      RunIsSound(providers, moves[..n]);
      ApplyKeepsSound(providers, RunAll(providers, moves[..n]), moves[n].event, moves[n].at);
    }
  }

  /** The quota window over runs: in any interleaving of any number of attempts, an attempt
      that has read a provider's record goes on to call it exactly when no mark made before
      that read, by whatever attempt, is less than a day old. */
  lemma CalledExactlyOutsideWindow(providers: seq<string>, moves: seq<Move>, a: nat, now: int)
    requires var s := RunAll(providers, moves);
             a in s.pcs && s.pcs[a].Loaded? && s.clock <= now
    ensures var s := RunAll(providers, moves);
            var pc := s.pcs[a];
            && pc.i < |providers| && pc.seen <= |s.marks|
            && (Apply(providers, s, Compare(a), now).pcs[a] == Calling(pc.i)
                <==> forall k | 0 <= k < pc.seen && s.marks[k].name == providers[pc.i] :: now - s.marks[k].at >= RESET)
  {
    RunIsSound(providers, moves);
    var s := RunAll(providers, moves);
    var pc := s.pcs[a];
    assert PcGood(providers, s, pc);
    if Skips(pc.hitAt, now) {
      var k :| 0 <= k < pc.seen && s.marks[k] == Mark(providers[pc.i], pc.hitAt.value);
      assert now - s.marks[k].at < RESET;
    }
  }

  /** Marking again never shortens a provider's window. */
  lemma RecordsNeverGoBack(providers: seq<string>, moves: seq<Move>, e: Event, now: int, name: string)
    requires name in RunAll(providers, moves).records
    ensures var s := RunAll(providers, moves);
            var s' := Apply(providers, s, e, now);
            name in s'.records && s.records[name] <= s'.records[name]
  {
    RunIsSound(providers, moves);
    var s := RunAll(providers, moves);
    assert IsLatest(s.marks, |s.marks|, name, RecordOf(s.records, name));
    var k :| 0 <= k < |s.marks| && s.marks[k] == Mark(name, s.records[name]);
    assert s.marks[k].at <= s.clock;
  }

  // ---------------------------------------------------- an attempt that is not disturbed

  /** From position i on, checks and marks follow one another between two times. */
  predicate InTime(turns: seq<Turn>, i: nat, from: int, to: int) {
    && from <= to
    && (forall k | i <= k < |turns| :: from <= turns[k].checkedAt <= turns[k].markedAt <= to)
    && (forall j, k | i <= j < k < |turns| :: turns[j].markedAt <= turns[k].checkedAt)
  }

  /** The attempt is about to read at position i, and no clock runs ahead of it. */
  predicate AtTurn(providers: seq<string>, s: State, a: nat, turns: seq<Turn>, i: nat, end: int) {
    && |turns| == |providers| && i <= |providers|
    && a in s.pcs && s.pcs[a] == Ready(i) && InTime(turns, i, s.clock, end)
  }

  /** Reading and comparing at position i. */
  function Checked(providers: seq<string>, s: State, a: nat, turn: Turn): State {
    Apply(providers, Apply(providers, s, Read(a), turn.checkedAt), Compare(a), turn.checkedAt)
  }

  lemma CheckSkipsOrCalls(providers: seq<string>, s: State, a: nat, turns: seq<Turn>, i: nat, end: int)
    requires AtTurn(providers, s, a, turns, i, end) && i < |providers|
    ensures var s' := Checked(providers, s, a, turns[i]);
            && s'.records == s.records && s'.clock == turns[i].checkedAt && a in s'.pcs
            && s'.pcs[a] == if Exhausted(s.records, providers[i], turns[i].checkedAt) then Ready(i + 1) else Calling(i)
  {
  }

  /** The moves of one attempt alone, from its read at position i to its end: the state they
      lead to and the positions called. */
  function Alone(providers: seq<string>, s: State, a: nat, turns: seq<Turn>, i: nat, end: int): (State, seq<nat>)
    requires |turns| == |providers| && i <= |providers|
    decreases |providers| - i
  {
    if i == |providers| then (Apply(providers, s, Read(a), end), [])
    else
      var checked := Checked(providers, s, a, turns[i]);
      if a in checked.pcs && checked.pcs[a] == Calling(i) then
        var returned := Apply(providers, checked, Return(a, turns[i].outcome), turns[i].markedAt);
        if a in returned.pcs && returned.pcs[a].Over? then (returned, [i])
        else
          var (last, called) := Alone(providers, returned, a, turns, i + 1, end);
          (last, [i] + called)
      else Alone(providers, checked, a, turns, i + 1, end)
  }

  /** An attempt that no other interrupts is the loop: its moves call the same positions, in
      the same order, leave the same records and end it. */
  lemma {:induction false} AttemptAlone(providers: seq<string>, s: State, a: nat, turns: seq<Turn>, i: nat, end: int)
    requires AtTurn(providers, s, a, turns, i, end)
    ensures var (last, called) := Alone(providers, s, a, turns, i, end);
            var loop := AttemptFrom(s.records, providers, turns, i);
            && last.records == loop.records && called == loop.called
            && a in last.pcs && last.pcs[a] == Over
    decreases |providers| - i
  {
    if i < |providers| {
      CheckSkipsOrCalls(providers, s, a, turns, i, end);
      var checked := Checked(providers, s, a, turns[i]);
      if checked.pcs[a] == Calling(i) {
        var returned := Apply(providers, checked, Return(a, turns[i].outcome), turns[i].markedAt);
        if turns[i].outcome.QuotaHit? {
          AttemptAlone(providers, returned, a, turns, i + 1, end);
        }
      } else {
        AttemptAlone(providers, checked, a, turns, i + 1, end);
      }
    }
  }

  /** The same from its first move. */
  lemma StartedAttemptAlone(providers: seq<string>, s: State, a: nat, turns: seq<Turn>, end: int)
    requires a !in s.pcs && |turns| == |providers| && InTime(turns, 0, s.clock, end)
    ensures var (last, called) := Alone(providers, Apply(providers, s, Start(a), s.clock), a, turns, 0, end);
            var loop := AttemptFrom(s.records, providers, turns, 0);
            && last.records == loop.records && called == loop.called
            && a in last.pcs && last.pcs[a] == Over
  {
    AttemptAlone(providers, Apply(providers, s, Start(a), s.clock), a, turns, 0, end);
  }
}
