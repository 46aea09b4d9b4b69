/** A value that changes by updates only: which of them decides whether an old reading of it
    is still right. */
module Updates {
  import opened Options

  /** `values` starts anywhere and follows the `updates`. */
  predicate Follows<T(==)>(values: seq<T>, updates: seq<Option<T>>) {
    && |values| == |updates| + 1
    && forall i | 0 <= i < |updates| :: values[i + 1] == if updates[i].Some? then updates[i].value else values[i]
  }

  /** Update i is the last between readings a and b, and sets another value than a saw. */
  predicate OvertakenBy<T(==)>(values: seq<T>, updates: seq<Option<T>>, a: nat, b: nat, i: nat)
    requires a < |values| && b <= |updates|
  {
    && a <= i < b
    && updates[i].Some? && updates[i].value != values[a]
    && forall j | i < j < b :: updates[j].None?
  }

  ghost predicate Overtaken<T>(values: seq<T>, updates: seq<Option<T>>, a: nat, b: nat)
    requires a < |values| && b <= |updates|
  {
    exists i: nat :: OvertakenBy(values, updates, a, b, i)
  }

  /** A value is that of the last update, or unchanged if there was none. */
  lemma {:induction false} LastUpdate<T>(values: seq<T>, updates: seq<Option<T>>, a: nat, b: nat) returns (last: nat)
    requires Follows(values, updates) && a <= b < |values|
    ensures a <= last <= b
    ensures forall i | last < i < b :: updates[i].None?
    ensures if last == b then (forall i | a <= i < b :: updates[i].None?) && values[b] == values[a]
            else updates[last] == Some(values[b])
  {
    if a == b {
      last := b;
    } else if updates[b - 1].Some? {
      last := b - 1;
    } else {
      last := LastUpdate(values, updates, a, b - 1);
      last := if last == b - 1 then b else last;
    }
  }

  /** Two readings differ exactly when the last update between them set another value. */
  lemma DiffersExactlyWhenOvertaken<T>(values: seq<T>, updates: seq<Option<T>>, a: nat, b: nat)
    requires Follows(values, updates) && a <= b < |values|
    ensures values[a] != values[b] <==> Overtaken(values, updates, a, b)
  {
    var last := LastUpdate(values, updates, a, b);
    if last < b && values[a] != values[b] {
      assert OvertakenBy(values, updates, a, b, last);
    }
    if i: nat :| OvertakenBy(values, updates, a, b, i) {
      assert updates[i].Some?;
      assert i == last;
    }
  }
}
