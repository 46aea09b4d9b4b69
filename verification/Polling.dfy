/** Polling GitLab for events with overlapping windows, and what the dedup gate makes of
    the overlap. */
module Polling {
  import opened DedupGate
  import opened EventKey
  import opened Options
  import Text

  const WINDOW := 5 * MINUTE

  datatype Note = Note(iid: Int64, body: string)

  /** A contribution event as GitLab lists it. */
  datatype Listed = Listed(createdAt: Option<int>, action: string, targetType: string, title: string,
                           note: Option<Note>)

  predicate InWindow(l: Listed, since: int) {
    l.createdAt.Some? && since <= l.createdAt.value
  }

  function ToEvent(user: Int64, l: Listed): Event
    requires l.note.Some?
  {
    Event(user, l.action, l.title, l.note.value.iid, if l.targetType == "Note" then l.note.value.body else "")
  }

  /** The listed events inside the window, in order. */
  function Selected(listing: seq<Listed>, since: int): seq<Listed> {
    if listing == [] then []
    else
      var n := |listing| - 1;
      Selected(listing[..n], since) + (if InWindow(listing[n], since) then [listing[n]] else [])
  }

  lemma {:induction false} SelectedExactly(listing: seq<Listed>, since: int, l: Listed)
    ensures l in Selected(listing, since) <==> l in listing && InWindow(l, since)
  {
    if listing != [] {
      SelectedExactly(listing[..|listing| - 1], since, l);
      assert listing == listing[..|listing| - 1] + [listing[|listing| - 1]];
    }
  }

  /** What is in the window is selected in listing order. */
  lemma {:induction false} SelectedInOrder(front: seq<Listed>, back: seq<Listed>, since: int)
    ensures Selected(front + back, since) == Selected(front, since) + Selected(back, since)
  {
    if back == [] {
      assert front + back == front;
    } else {
      var n := |back| - 1;
      SelectedInOrder(front, back[..n], since);
      assert (front + back)[..|front| + n] == front + back[..n];
    }
  }

  predicate AllHaveNotes(selected: seq<Listed>) {
    forall k | 0 <= k < |selected| :: selected[k].note.Some?
  }

  function ToEvents(user: Int64, selected: seq<Listed>): (events: seq<Event>)
    requires AllHaveNotes(selected)
    ensures |events| == |selected|
  {
    seq(|selected|, k requires 0 <= k < |selected| => ToEvent(user, selected[k]))
  }

  /** The text of a listed event: the note's, if the target is a note. */
  function ListedText(l: Listed): string
    requires l.note.Some?
  {
    if l.targetType == "Note" then l.note.value.body else ""
  }

  /** The event has what was listed: the body exactly for a note. */
  predicate Carries(e: Event, user: Int64, l: Listed) {
    && e.user == user && e.action == l.action && e.title == l.title
    && l.note.Some? && e.iid == l.note.value.iid
    && (l.targetType == "Note" ==> e.body == l.note.value.body)
    && (l.targetType != "Note" ==> e.body == "")
  }

  /** The key of a listed event, in terms of what is listed. */
  function ListedKey(user: Int64, l: Listed): string
    requires l.note.Some?
  {
    Key(Event(user, l.action, l.title, l.note.value.iid, ListedText(l)))
  }

  /** The in-memory filter. None stands for the nil dereference that an in-window event
      without a note runs into: the note's identifiers are read before the nil check. */
  method FetchRecentEvents(user: Int64, listing: seq<Listed>, since: int) returns (r: Option<seq<Event>>)
    ensures r.Some? <==> AllHaveNotes(Selected(listing, since))
    ensures r.Some? ==> r.value == ToEvents(user, Selected(listing, since))
    ensures r.Some? ==> |r.value| == |Selected(listing, since)|
    ensures r.Some? ==> forall k | 0 <= k < |r.value| :: Carries(r.value[k], user, Selected(listing, since)[k])
  {
    var results: seq<Event> := [];
    for i := 0 to |listing|
      invariant AllHaveNotes(Selected(listing[..i], since))
      invariant results == ToEvents(user, Selected(listing[..i], since))
    {
      assert listing[..i + 1][..i] == listing[..i];
      if InWindow(listing[i], since) {
        if listing[i].note.None? {
          StaysWithoutNote(listing, i, since);
          return None;
        }
        results := results + [ToEvent(user, listing[i])];
      }
    }
    assert listing[..|listing|] == listing;
    r := Some(results);
  }

  lemma StaysWithoutNote(listing: seq<Listed>, i: nat, since: int)
    requires i < |listing| && InWindow(listing[i], since) && listing[i].note.None?
    ensures !AllHaveNotes(Selected(listing, since))
  {
    SelectedExactly(listing, since, listing[i]);
  }

  /** One poll of one user: made at `at`, with the listing GitLab returned and the times
      at which the selected events were handled. */
  datatype Poll = Poll(user: Int64, at: int, listing: seq<Listed>, handledAt: seq<int>)

  function Batch(p: Poll): seq<Listed> {
    Selected(p.listing, p.at - WINDOW)
  }

  ghost predicate WellFormed(p: Poll) {
    AllHaveNotes(Batch(p)) && |p.handledAt| == |Batch(p)|
  }

  predicate CreatedBy(l: Listed, t: int) {
    l.createdAt.Some? ==> l.createdAt.value <= t
  }

  /** What the poll selects under the key is handled within five minutes of the poll, and
      after its creation. */
  ghost predicate Timely(p: Poll, key: string)
    requires WellFormed(p)
  {
    forall k | 0 <= k < |Batch(p)| && ListedKey(p.user, Batch(p)[k]) == key ::
      p.at <= p.handledAt[k] <= p.at + WINDOW && CreatedBy(Batch(p)[k], p.handledAt[k])
  }

  ghost predicate AllWellFormed(polls: seq<Poll>) {
    forall i | 0 <= i < |polls| :: WellFormed(polls[i])
  }

  ghost predicate AllTimely(polls: seq<Poll>, key: string)
    requires AllWellFormed(polls)
  {
    forall i | 0 <= i < |polls| :: Timely(polls[i], key)
  }

  function PollSteps(p: Poll): seq<Step>
    requires WellFormed(p)
  {
    StepsOf(ToEvents(p.user, Batch(p)), p.handledAt)
  }

  /** All passages through the gate, in the order they happen. */
  ghost function AllSteps(polls: seq<Poll>): seq<Step>
    requires AllWellFormed(polls)
  {
    if polls == [] then []
    else AllSteps(polls[..|polls| - 1]) + PollSteps(polls[|polls| - 1])
  }

  function PollTimes(polls: seq<Poll>, user: Int64): seq<int> {
    if polls == [] then []
    else
      var p := polls[|polls| - 1];
      PollTimes(polls[..|polls| - 1], user) + (if p.user == user then [p.at] else [])
  }

  /** These are the times of all polls of the user, in order. */
  lemma {:induction false} PollTimesInOrder(front: seq<Poll>, p: Poll, back: seq<Poll>, user: Int64)
    ensures PollTimes(front + [p] + back, user)
         == PollTimes(front, user) + (if p.user == user then [p.at] else []) + PollTimes(back, user)
  {
    if back == [] {
      assert front + [p] + back == front + [p] && (front + [p])[..|front|] == front;
    } else {
      var n := |back| - 1;
      PollTimesInOrder(front, p, back[..n], user);
      assert (front + [p] + back)[..|front| + 1 + n] == front + [p] + back[..n];
    }
  }

  /** The user is polled before the event's window closes and after its creation, and the
      gap between polls in which it was created is at most five minutes. */
  ghost predicate PolledAround(times: seq<int>, c: int) {
    && times != [] && times[0] <= c + WINDOW && c <= times[|times| - 1]
    && forall i | 0 < i < |times| && times[i - 1] < c <= times[i] :: times[i] - times[i - 1] <= WINDOW
  }

  /** A poll of the user in whose window an event created at c falls. */
  predicate Near(p: Poll, user: Int64, c: int) {
    p.user == user && c <= p.at <= c + WINDOW
  }

  /** The polls in whose window the event falls list it. Nothing is asked of later ones. */
  ghost predicate CompletelyListed(polls: seq<Poll>, user: Int64, e: Listed, c: int) {
    forall i | 0 <= i < |polls| && Near(polls[i], user, c) :: e in polls[i].listing
  }

  /** Whatever the polls select under the event's key was created when the event was. */
  ghost predicate KeyIsUnique(polls: seq<Poll>, key: string, c: int)
    requires AllWellFormed(polls)
  {
    forall i, k | 0 <= i < |polls| && 0 <= k < |Batch(polls[i])| ::
      ListedKey(polls[i].user, Batch(polls[i])[k]) == key ==> Batch(polls[i])[k].createdAt == Some(c)
  }

  // ------------------------------------------------------------ locating steps

  lemma {:induction false} FindPoll(times: seq<int>, c: int) returns (i: nat)
    requires PolledAround(times, c)
    ensures i < |times| && c <= times[i] <= c + WINDOW
  {
    if c <= times[0] {
      i := 0;
    } else {
      var j := FindPoll(times[1..], c);
      i := j + 1;
    }
  }

  lemma {:induction false} PollWithTime(polls: seq<Poll>, user: Int64, t: int) returns (i: nat)
    requires t in PollTimes(polls, user)
    ensures i < |polls| && polls[i].user == user && polls[i].at == t
  {
    var n := |polls| - 1;
    if polls[n].user == user && polls[n].at == t {
      i := n;
    } else {
      i := PollWithTime(polls[..n], user, t);
    }
  }

  lemma PollStepAt(p: Poll, k: nat)
    requires WellFormed(p) && k < |Batch(p)|
    ensures |PollSteps(p)| == |Batch(p)|
    ensures PollSteps(p)[k] == Step(Key(ToEvent(p.user, Batch(p)[k])), p.handledAt[k])
  {
  }

  lemma StepsFromLastPoll(polls: seq<Poll>)
    requires AllWellFormed(polls) && polls != []
    ensures var n := |polls| - 1;
            && AllSteps(polls) == AllSteps(polls[..n]) + PollSteps(polls[n])
            && |PollSteps(polls[n])| == |Batch(polls[n])|
  {
  }

  /** Every step comes from a selected event of some poll. */
  lemma {:induction false} StepOrigin(polls: seq<Poll>, j: nat) returns (i: nat, k: nat)
    requires AllWellFormed(polls) && j < |AllSteps(polls)|
    ensures i < |polls| && k < |Batch(polls[i])|
    ensures AllSteps(polls)[j] == Step(Key(ToEvent(polls[i].user, Batch(polls[i])[k])), polls[i].handledAt[k])
  {
    var n := |polls| - 1;
    var earlier := AllSteps(polls[..n]);
    StepsFromLastPoll(polls);
    if j < |earlier| {
      i, k := StepOrigin(polls[..n], j);
      assert AllSteps(polls)[j] == earlier[j] && polls[..n][i] == polls[i];
    } else {
      i, k := n, j - |earlier|;
      PollStepAt(polls[n], k);
      assert AllSteps(polls)[j] == PollSteps(polls[n])[k];
    }
  }

  lemma OccursInConcat(a: seq<Step>, b: seq<Step>, key: string)
    requires Occurs(a, key) || Occurs(b, key)
    ensures Occurs(a + b, key)
  {
    if Occurs(a, key) {
      var j :| 0 <= j < |a| && a[j].key == key;
      assert (a + b)[j].key == key;
    } else {
      var j :| 0 <= j < |b| && b[j].key == key;
      assert (a + b)[|a| + j].key == key;
    }
  }

  lemma PollStepOccurs(p: Poll, k: nat, key: string)
    requires WellFormed(p) && k < |Batch(p)| && key == Key(ToEvent(p.user, Batch(p)[k]))
    ensures Occurs(PollSteps(p), key)
  {
    assert PollSteps(p)[k].key == key;
  }

  /** Every selected event of every poll makes a step. */
  lemma {:induction false} StepExists(polls: seq<Poll>, i: nat, k: nat, key: string)
    requires AllWellFormed(polls) && i < |polls| && k < |Batch(polls[i])|
    requires key == Key(ToEvent(polls[i].user, Batch(polls[i])[k]))
    ensures Occurs(AllSteps(polls), key)
  {
    var n := |polls| - 1;
    if i == n {
      PollStepOccurs(polls[n], k, key);
    } else {
      StepExists(polls[..n], i, k, key);
    }
    StepsFromLastPoll(polls);
    OccursInConcat(AllSteps(polls[..n]), PollSteps(polls[n]), key);
  }

  lemma StepsWithinKeep(polls: seq<Poll>, key: string, c: int, j: nat)
    requires AllWellFormed(polls) && AllTimely(polls, key) && KeyIsUnique(polls, key, c)
    requires j < |AllSteps(polls)| && AllSteps(polls)[j].key == key
    ensures c <= AllSteps(polls)[j].now <= c + KEEP
  {
    var i, k := StepOrigin(polls, j);
    var l := Batch(polls[i])[k];
    SelectedExactly(polls[i].listing, polls[i].at - WINDOW, l);
    assert Timely(polls[i], key);
  }

  lemma FindNearPoll(polls: seq<Poll>, user: Int64, c: int) returns (i: nat)
    requires PolledAround(PollTimes(polls, user), c)
    ensures i < |polls| && Near(polls[i], user, c)
  {
    var t := FindPoll(PollTimes(polls, user), c);
    i := PollWithTime(polls, user, PollTimes(polls, user)[t]);
  }

  /** A poll that lists an event of its window selects it. */
  lemma SelectsListed(p: Poll, e: Listed) returns (k: nat)
    requires e in p.listing && InWindow(e, p.at - WINDOW)
    ensures k < |Batch(p)| && Batch(p)[k] == e
  {
    SelectedExactly(p.listing, p.at - WINDOW, e);
    k :| k < |Batch(p)| && Batch(p)[k] == e;
  }

  lemma EventIsReached(polls: seq<Poll>, user: Int64, e: Listed, c: int)
    requires AllWellFormed(polls)
    requires e.createdAt == Some(c) && e.note.Some?
    requires CompletelyListed(polls, user, e, c)
    requires PolledAround(PollTimes(polls, user), c)
    ensures Occurs(AllSteps(polls), Key(ToEvent(user, e)))
  {
    var i := FindNearPoll(polls, user, c);
    var k := SelectsListed(polls[i], e);
    StepExists(polls, i, k, Key(ToEvent(user, e)));
  }

  lemma AllStepsWithinKeep(polls: seq<Poll>, key: string, c: int)
    requires AllWellFormed(polls) && AllTimely(polls, key) && KeyIsUnique(polls, key, c)
    ensures forall j | 0 <= j < |AllSteps(polls)| && AllSteps(polls)[j].key == key ::
              c <= AllSteps(polls)[j].now <= c + KEEP
  {
    forall j | 0 <= j < |AllSteps(polls)| && AllSteps(polls)[j].key == key
      ensures c <= AllSteps(polls)[j].now <= c + KEEP
    {
      StepsWithinKeep(polls, key, c, j);
    }
  }

  /** Exactly-once delivery: over any run, however long it goes on, an event whose key no
      other event carries passes the gate exactly once, if the polls whose window it falls
      in list it and it is handled in time. */
  lemma {:induction false} ExactlyOnce(polls: seq<Poll>, user: Int64, e: Listed, c: int)
    requires AllWellFormed(polls) && InOrder(AllSteps(polls))
    requires e.createdAt == Some(c) && e.note.Some?
    requires AllTimely(polls, ListedKey(user, e))
    requires KeyIsUnique(polls, ListedKey(user, e), c)
    requires CompletelyListed(polls, user, e, c)
    requires PolledAround(PollTimes(polls, user), c)
    ensures Passes(AllSteps(polls), Run(map[], AllSteps(polls)).1, ListedKey(user, e)) == 1
  {
    AllStepsWithinKeep(polls, ListedKey(user, e), c);
    EventIsReached(polls, user, e, c);
    OneDispatchWithinKeep(AllSteps(polls), ListedKey(user, e), c);
  }

  /** All actions come from GitLab's vocabulary, which has no colon. */
  ghost predicate PlainActions(polls: seq<Poll>) {
    forall i, k | 0 <= i < |polls| && 0 <= k < |Batch(polls[i])| :: Text.Lacks(Batch(polls[i])[k].action, ':')
  }

  /** Listed for the same merge request with the same action and the same text. */
  predicate SameListed(l: Listed, e: Listed)
    requires l.note.Some? && e.note.Some?
  {
    && l.action == e.action && l.title == e.title && l.note.value.iid == e.note.value.iid
    && ListedText(l) == ListedText(e)
  }

  /** Whatever the user's polls select with the same content was created when the event was. */
  ghost predicate ContentIsUnique(polls: seq<Poll>, user: Int64, e: Listed, c: int)
    requires AllWellFormed(polls) && e.note.Some?
  {
    forall i, k | 0 <= i < |polls| && 0 <= k < |Batch(polls[i])| ::
      polls[i].user == user && SameListed(Batch(polls[i])[k], e) ==> Batch(polls[i])[k].createdAt == Some(c)
  }

  /** No number fenced by colons in the title or the text. */
  ghost predicate Unfenced(e: Listed)
    requires e.note.Some?
  {
    Text.Lacks(e.action, ':') && !NumberInTitle(e.title) && !NumberInBody(ListedText(e))
  }

  /** Two listed events with the key of an unfenced one have the same content. */
  lemma SameKeySameContent(user: Int64, l: Listed, user': Int64, e: Listed)
    requires l.note.Some? && e.note.Some? && Text.Lacks(l.action, ':') && Unfenced(e)
    requires ListedKey(user, l) == ListedKey(user', e)
    ensures user == user' && SameListed(l, e)
  {
    var event := Event(user', e.action, e.title, e.note.value.iid, ListedText(e));
    var other := Event(user, l.action, l.title, l.note.value.iid, ListedText(l));
    AmbiguousExactlyWhenFencedNumber(event);
    assert Key(other) == Key(event) && Text.Lacks(other.action, ':');
    assert other == event;
  }

  /** An event with an unfenced title and text has a key of its own. */
  lemma UniqueContentUniqueKey(polls: seq<Poll>, user: Int64, e: Listed, c: int)
    requires AllWellFormed(polls) && PlainActions(polls) && e.note.Some? && ContentIsUnique(polls, user, e, c)
    requires Unfenced(e)
    ensures KeyIsUnique(polls, ListedKey(user, e), c)
  {
    forall i, k | 0 <= i < |polls| && 0 <= k < |Batch(polls[i])|
                  && ListedKey(polls[i].user, Batch(polls[i])[k]) == ListedKey(user, e)
      ensures Batch(polls[i])[k].createdAt == Some(c)
    {
      SameKeySameContent(polls[i].user, Batch(polls[i])[k], user, e);
    }
  }

  /** Exactly-once delivery in terms of what is listed: no assumption on keys is left. */
  lemma {:induction false} ExactlyOnceByContent(polls: seq<Poll>, user: Int64, e: Listed, c: int)
    requires AllWellFormed(polls) && InOrder(AllSteps(polls))
    requires e.createdAt == Some(c) && e.note.Some?
    requires AllTimely(polls, ListedKey(user, e))
    requires PlainActions(polls) && ContentIsUnique(polls, user, e, c) && Unfenced(e)
    requires CompletelyListed(polls, user, e, c)
    requires PolledAround(PollTimes(polls, user), c)
    ensures Passes(AllSteps(polls), Run(map[], AllSteps(polls)).1, ListedKey(user, e)) == 1
  {
    UniqueContentUniqueKey(polls, user, e, c);
    ExactlyOnce(polls, user, e, c);
  }

  /** What ExactlyOnceByContent asks of an event and of the polls. */
  ghost predicate Delivered(polls: seq<Poll>, user: Int64, e: Listed, c: int)
    requires AllWellFormed(polls)
  {
    && e.createdAt == Some(c) && e.note.Some? && Unfenced(e)
    && AllTimely(polls, ListedKey(user, e)) && ContentIsUnique(polls, user, e, c)
    && CompletelyListed(polls, user, e, c) && PolledAround(PollTimes(polls, user), c)
  }

  /** Two comments on one merge request that differ in their text alone are both dispatched,
      each once. */
  lemma {:induction false} CommentsDifferingInTextBothPass(polls: seq<Poll>, user: Int64, e: Listed, c: int,
                                                           e': Listed, c': int)
    requires AllWellFormed(polls) && InOrder(AllSteps(polls)) && PlainActions(polls)
    requires Delivered(polls, user, e, c) && Delivered(polls, user, e', c')
    requires e.targetType == "Note" == e'.targetType && e.action == e'.action && e.title == e'.title
    requires e.note.value.iid == e'.note.value.iid && e.note.value.body != e'.note.value.body
    ensures ListedKey(user, e) != ListedKey(user, e')
    ensures Passes(AllSteps(polls), Run(map[], AllSteps(polls)).1, ListedKey(user, e)) == 1
    ensures Passes(AllSteps(polls), Run(map[], AllSteps(polls)).1, ListedKey(user, e')) == 1
  {
    ExactlyOnceByContent(polls, user, e, c);
    ExactlyOnceByContent(polls, user, e', c');
    if ListedKey(user, e) == ListedKey(user, e') {
      SameKeySameContent(user, e, user, e');
    }
  }

  lemma SecondPassAfterEviction(key: string, other: string, late: int)
    requires key != other && late > KEEP
    ensures Run(map[], [Step(key, 0), Step(other, late), Step(key, late)]).1 == [true, true, true]
  {
    var steps := [Step(key, 0), Step(other, late), Step(key, late)];
    assert steps[..2] == [Step(key, 0), Step(other, late)];
    assert steps[..2][..1] == [Step(key, 0)];
    assert [Step(key, 0)][..0] == [];
    var none: Memory := map[];
    assert Evict(none, 0) == map[];
    var one: Memory := map[key := 0];
    var two: Memory := map[other := late];
    assert Gate(none, Step(key, 0)) == (one, true);
    assert Run(none, []) == (none, []);
    assert Run(none, [Step(key, 0)]).1 == [true] && Run(none, [Step(key, 0)]).0 == one;
    assert Evict(one, late) == none;
    assert Gate(one, Step(other, late)) == (two, true);
    assert Run(none, steps[..2]).1 == [true, true] && Run(none, steps[..2]).0 == two;
  }

  lemma SelectedPrepend(l: Listed, rest: seq<Listed>, since: int)
    requires |rest| <= 1
    requires InWindow(l, since) && forall k | 0 <= k < |rest| :: InWindow(rest[k], since)
    ensures Selected([l] + rest, since) == [l] + rest
  {
    assert [l][..0] == [];
    assert Selected([l], since) == [l];
    if rest == [] {
      assert [l] + rest == [l];
    } else {
      assert ([l] + rest)[..1] == [l];
    }
  }

  lemma TwoPolls(p: Poll, q: Poll)
    requires WellFormed(p) && WellFormed(q)
    ensures AllSteps([p, q]) == PollSteps(p) + PollSteps(q)
  {
    assert [p, q][..1] == [p] && [p][..0] == [];
    assert AllSteps([p]) == [] + PollSteps(p) == PollSteps(p);
  }

  lemma SinglePollSteps(user: Int64, at: int, e: Listed, t: int)
    requires InWindow(e, at - WINDOW) && e.note.Some?
    ensures var p := Poll(user, at, [e], [t]);
            WellFormed(p) && PollSteps(p) == [Step(Key(ToEvent(user, e)), t)]
  {
    SelectedPrepend(e, [], at - WINDOW);
    assert [e] + [] == [e];
  }

  lemma DoublePollSteps(user: Int64, at: int, o: Listed, e: Listed, t: int)
    requires InWindow(o, at - WINDOW) && o.note.Some? && InWindow(e, at - WINDOW) && e.note.Some?
    ensures var p := Poll(user, at, [o, e], [t, t]);
            WellFormed(p) && PollSteps(p) == [Step(Key(ToEvent(user, o)), t), Step(Key(ToEvent(user, e)), t)]
  {
    SelectedPrepend(o, [e], at - WINDOW);
    assert [o] + [e] == [o, e];
  }

  /** The five-minute bound on handling is tight: one nanosecond more and an event can pass
      twice, because another event of its second batch evicts it first. */
  lemma HandlingBoundIsTight(user: Int64, e: Listed, o: Listed)
    requires e.createdAt == Some(0) && e.note.Some?
    requires o.createdAt == Some(WINDOW) && o.note.Some?
    requires Key(ToEvent(user, e)) != Key(ToEvent(user, o))
    ensures var late := WINDOW + (WINDOW + 1);
            var polls := [Poll(user, 0, [e], [0]), Poll(user, WINDOW, [o, e], [late, late])];
            && AllWellFormed(polls) && InOrder(AllSteps(polls))
            && Run(map[], AllSteps(polls)).1 == [true, true, true]
  {
    var late := WINDOW + (WINDOW + 1);
    SinglePollSteps(user, 0, e, 0);
    DoublePollSteps(user, WINDOW, o, e, late);
    TwoPolls(Poll(user, 0, [e], [0]), Poll(user, WINDOW, [o, e], [late, late]));
    var ke, ko := Key(ToEvent(user, e)), Key(ToEvent(user, o));
    assert [Step(ke, 0)] + [Step(ko, late), Step(ke, late)] == [Step(ke, 0), Step(ko, late), Step(ke, late)];
    SecondPassAfterEviction(ke, ko, late);
  }
}
