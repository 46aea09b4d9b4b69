/** The operations of Go's `strings` package that the modelled code relies on.
    A Go string is a sequence of bytes; here each `char` stands for one byte. */
module Text {

  predicate OccursAt(s: string, t: string, i: int) {
    0 <= i && i + |t| <= |s| && s[i..i + |t|] == t
  }

  predicate Contains(s: string, t: string) {
    exists i | 0 <= i <= |s| :: OccursAt(s, t, i)
  }

  predicate Lacks(s: string, c: char) {
    c !in s
  }

  predicate AllLack(parts: seq<string>, c: char) {
    forall k | 0 <= k < |parts| :: Lacks(parts[k], c)
  }

  predicate NoRepeats(s: seq<string>) {
    forall i, j | 0 <= i < j < |s| :: s[i] != s[j]
  }

  lemma ContainsMiddle(a: string, t: string, b: string)
    ensures Contains(a + t + b, t)
  {
    assert OccursAt(a + t + b, t, |a|);
  }

  lemma ContainsTail(s: string, c: char, u: string)
    requires Contains(s, u)
    ensures Contains([c] + s, u)
  {
    var i :| 0 <= i <= |s| && OccursAt(s, u, i);
    assert ([c] + s)[i + 1..i + 1 + |u|] == s[i..i + |u|];
    assert OccursAt([c] + s, u, i + 1);
  }

  lemma ContainsTransitive(s: string, t: string, u: string)
    requires Contains(s, t) && Contains(t, u)
    ensures Contains(s, u)
  {
    var i :| 0 <= i <= |s| && OccursAt(s, t, i);
    var j :| 0 <= j <= |t| && OccursAt(t, u, j);
    forall k | 0 <= k < |u|
      ensures s[i + j + k] == u[k]
    {
      assert t[j + k] == s[i..i + |t|][j + k];
      assert u[k] == t[j..j + |u|][k];
    }
    assert OccursAt(s, u, i + j);
  }

  /** A separator absent from both left parts marks the same place in both. */
  lemma SeparatorUnique(a: string, b: string, a': string, b': string, sep: char)
    requires Lacks(a, sep) && Lacks(a', sep)
    requires a + [sep] + b == a' + [sep] + b'
    ensures a == a' && b == b'
  {
    var s := a + [sep] + b;
    assert s[|a|] == sep && s[|a'|] == sep;
    assert forall k | 0 <= k < |a| :: s[k] == a[k];
    assert forall k | 0 <= k < |a'| :: s[k] == a'[k];
    assert |a| == |a'|;
    assert a == s[..|a|] == a';
    assert b == s[|a| + 1..] == b';
  }

  lemma OccursInFront(a: string, b: string, u: string, i: nat)
    requires OccursAt(a + b, u, i) && i + |u| <= |a|
    ensures OccursAt(a, u, i)
  {
    assert a[i..i + |u|] == (a + b)[i..i + |u|];
  }

  lemma OccursInBack(a: string, b: string, u: string, i: nat)
    requires OccursAt(a + b, u, i) && |a| <= i
    ensures OccursAt(b, u, i - |a|)
  {
    forall k | 0 <= k < |u|
      ensures b[i - |a| + k] == u[k]
    {
      assert (a + b)[i..i + |u|][k] == (a + b)[i + k];
    }
  }

  lemma OccurrenceStarts(s: string, t: string, i: nat)
    requires t != "" && i + |t| <= |s|
    ensures OccursAt(s, t, i) ==> s[i] == t[0]
  {
    assert s[i..i + |t|][0] == s[i];
  }

  /** strings.Split for a one-byte separator. */
  function Split(s: string, sep: char): (parts: seq<string>)
    ensures |parts| >= 1
  {
    if s == [] then [""]
    else
      var rest := Split(s[1..], sep);
      if s[0] == sep then [""] + rest else [[s[0]] + rest[0]] + rest[1..]
  }

  /** strings.Join for a one-byte separator. */
  function Join(parts: seq<string>, sep: char): string {
    if parts == [] then ""
    else if |parts| == 1 then parts[0]
    else parts[0] + [sep] + Join(parts[1..], sep)
  }

  lemma {:induction false} JoinSplit(s: string, sep: char)
    ensures Join(Split(s, sep), sep) == s
  {
    if s == [] {
    } else {
      JoinSplit(s[1..], sep);
      var rest := Split(s[1..], sep);
      if s[0] == sep {
        assert ([""] + rest)[1..] == rest;
      } else {
        var parts := [[s[0]] + rest[0]] + rest[1..];
        assert parts[1..] == rest[1..];
        if |rest| > 1 {
          assert Join(parts, sep) == [s[0]] + (rest[0] + [sep] + Join(rest[1..], sep));
        }
      }
    }
  }

  lemma {:induction false} SplitPartsLackSeparator(s: string, sep: char)
    ensures AllLack(Split(s, sep), sep)
  {
    if s == [] {
    } else {
      SplitPartsLackSeparator(s[1..], sep);
    }
  }

  lemma {:induction false} SplitOne(s: string, sep: char)
    requires Lacks(s, sep)
    ensures Split(s, sep) == [s]
  {
    if s == [] {
    } else {
      SplitOne(s[1..], sep);
      assert s == [s[0]] + s[1..];
    }
  }

  lemma ConsConcat(x: string, a: seq<string>, b: seq<string>)
    ensures [x] + (a + b) == ([x] + a) + b
    ensures a != [] ==> (a + b)[0] == a[0] && (a + b)[1..] == a[1..] + b
  {
  }

  /** A separator splits the text on its two sides independently. */
  lemma {:induction false} SplitAtSeparator(a: string, b: string, sep: char)
    ensures Split(a + [sep] + b, sep) == Split(a, sep) + Split(b, sep)
  {
    var s := a + [sep] + b;
    if a == [] {
      assert s[1..] == b;
    } else {
      assert s[1..] == a[1..] + [sep] + b && s[0] == a[0];
      SplitAtSeparator(a[1..], b, sep);
      var front, back := Split(a[1..], sep), Split(b, sep);
      if a[0] == sep {
        ConsConcat("", front, back);
      } else {
        ConsConcat([a[0]] + front[0], front[1..], back);
        ConsConcat("", front, back);
      }
    }
  }

  lemma {:induction false} SplitJoin(parts: seq<string>, sep: char)
    requires parts != [] && AllLack(parts, sep)
    ensures Split(Join(parts, sep), sep) == parts
  {
    SplitOne(parts[0], sep);
    if |parts| == 1 {
    } else {
      SplitJoin(parts[1..], sep);
      SplitAtSeparator(parts[0], Join(parts[1..], sep), sep);
      assert parts == [parts[0]] + parts[1..];
    }
  }

  /** A line in front of a text is its first line. */
  lemma SplitLine(line: string, rest: string, sep: char)
    requires Lacks(line, sep)
    ensures Split(line + [sep] + rest, sep) == [line] + Split(rest, sep)
  {
    SplitOne(line, sep);
    SplitAtSeparator(line, rest, sep);
  }

  lemma {:induction false} SplitFirstIsPrefix(s: string, sep: char)
    ensures Split(s, sep)[0] <= s
  {
    if s != [] && s[0] != sep {
      SplitFirstIsPrefix(s[1..], sep);
      assert s == [s[0]] + s[1..];
    }
  }

  /** Every line of a text is a substring of it. */
  lemma {:induction false} SplitPartOccurs(s: string, sep: char, k: nat)
    requires k < |Split(s, sep)|
    ensures Contains(s, Split(s, sep)[k])
  {
    if k == 0 {
      SplitFirstIsPrefix(s, sep);
      assert OccursAt(s, Split(s, sep)[0], 0);
    } else {
      var j := if s[0] == sep then k - 1 else k;
      SplitPartOccurs(s[1..], sep, j);
      assert Split(s, sep)[k] == Split(s[1..], sep)[j];
      ContainsTail(s[1..], s[0], Split(s[1..], sep)[j]);
      assert s == [s[0]] + s[1..];
    }
  }

  /** A blank, or one of tab, newline, vertical tab, form feed and carriage return. */
  predicate IsSpace(c: char) {
    c == ' ' || 9 <= c as int <= 13
  }

  function TrimLeft(s: string): (t: string)
    ensures |t| <= |s| && t == s[|s| - |t|..]
    ensures t != "" ==> !IsSpace(t[0])
  {
    if s != "" && IsSpace(s[0]) then TrimLeft(s[1..]) else s
  }

  function TrimRight(s: string): (t: string)
    ensures t <= s
    ensures t != "" ==> !IsSpace(t[|t| - 1])
  {
    if s != "" && IsSpace(s[|s| - 1]) then TrimRight(s[..|s| - 1]) else s
  }

  /** strings.TrimSpace. */
  function TrimSpace(s: string): string {
    TrimRight(TrimLeft(s))
  }

  /** The blanks, written out. */
  lemma BlanksAre(c: char)
    ensures IsSpace(c) <==> c in [' ', '\t', '\n', '\U{000B}', '\U{000C}', '\r']
  {
  }

  predicate AllSpace(s: string) {
    forall k | 0 <= k < |s| :: IsSpace(s[k])
  }

  /** Empty, or with no blank at either end. */
  predicate IsCore(s: string) {
    s != "" ==> !IsSpace(s[0]) && !IsSpace(s[|s| - 1])
  }

  lemma {:induction false} TrimLeftSkipsBlanks(s: string, k: nat)
    requires k < |s| - |TrimLeft(s)|
    ensures IsSpace(s[k])
  {
    if k > 0 {
      TrimLeftSkipsBlanks(s[1..], k - 1);
    }
  }

  lemma {:induction false} TrimRightSkipsBlanks(s: string, k: nat)
    requires |TrimRight(s)| <= k < |s|
    ensures IsSpace(s[k])
  {
    if k < |s| - 1 {
      TrimRightSkipsBlanks(s[..|s| - 1], k);
    }
  }

  lemma TrimLeftLength(s: string, n: nat)
    requires n <= |s| && (n < |s| ==> !IsSpace(s[n]))
    requires forall k | 0 <= k < n :: IsSpace(s[k])
    ensures |TrimLeft(s)| == |s| - n
  {
    var m := |s| - |TrimLeft(s)|;
    if n < m {
      TrimLeftSkipsBlanks(s, n);
    }
  }

  lemma TrimLeftOf(blanks: string, rest: string)
    requires AllSpace(blanks) && (rest != "" ==> !IsSpace(rest[0]))
    ensures TrimLeft(blanks + rest) == rest
  {
    TrimLeftLength(blanks + rest, |blanks|);
  }

  lemma TrimRightLength(s: string, n: nat)
    requires n <= |s| && (n > 0 ==> !IsSpace(s[n - 1]))
    requires forall k | n <= k < |s| :: IsSpace(s[k])
    ensures |TrimRight(s)| == n
  {
    if |TrimRight(s)| < n {
      TrimRightSkipsBlanks(s, n - 1);
    }
  }

  lemma TrimRightOf(front: string, blanks: string)
    requires AllSpace(blanks) && (front != "" ==> !IsSpace(front[|front| - 1]))
    ensures TrimRight(front + blanks) == front
  {
    TrimRightLength(front + blanks, |front|);
  }

  /** Trimming takes the blanks around a text and nothing else. */
  lemma TrimSpaceOf(lead: string, core: string, trail: string)
    requires AllSpace(lead) && AllSpace(trail) && IsCore(core)
    ensures TrimSpace(lead + core + trail) == core
  {
    if core == "" {
      assert lead + core + trail == (lead + trail) + "";
      TrimLeftOf(lead + trail, "");
    } else {
      assert lead + core + trail == lead + (core + trail);
      TrimLeftOf(lead, core + trail);
      TrimRightOf(core, trail);
    }
  }

  lemma TrimLeftLeaves(s: string) returns (lead: string)
    ensures s == lead + TrimLeft(s) && AllSpace(lead)
  {
    var n := |s| - |TrimLeft(s)|;
    lead := s[..n];
    forall k | 0 <= k < n
      ensures IsSpace(s[k])
    {
      TrimLeftSkipsBlanks(s, k);
    }
  }

  lemma TrimRightLeaves(s: string) returns (trail: string)
    ensures s == TrimRight(s) + trail && AllSpace(trail)
  {
    var n := |TrimRight(s)|;
    trail := s[n..];
    forall k | n <= k < |s|
      ensures IsSpace(s[k])
    {
      TrimRightSkipsBlanks(s, k);
    }
  }

  lemma Regrouped(a: string, b: string, c: string)
    ensures a + (b + c) == a + b + c
  {
  }

  /** Every text is a core between blanks. */
  lemma TrimSpaceLeaves(s: string) returns (lead: string, trail: string)
    ensures s == lead + TrimSpace(s) + trail && AllSpace(lead) && AllSpace(trail) && IsCore(TrimSpace(s))
  {
    lead := TrimLeftLeaves(s);
    trail := TrimRightLeaves(TrimLeft(s));
    Regrouped(lead, TrimSpace(s), trail);
  }

  lemma SliceLacks(s: string, lo: nat, hi: nat, c: char)
    requires lo <= hi <= |s| && Lacks(s, c)
    ensures Lacks(s[lo..hi], c)
  {
    assert forall k | 0 <= k < hi - lo :: s[lo..hi][k] == s[lo + k];
  }

  lemma TrimSpaceLacks(s: string, c: char)
    requires Lacks(s, c)
    ensures Lacks(TrimSpace(s), c)
  {
    var l := TrimLeft(s);
    SliceLacks(s, |s| - |l|, |s|, c);
    SliceLacks(l, 0, |TrimRight(l)|, c);
  }

  /** strings.Index on what follows position `from`, counted from the start of s; -1 when
      the pattern does not occur there. */
  function IndexFrom(s: string, t: string, from: nat): (i: int)
    requires from <= |s|
    ensures i == -1 || (from <= i && OccursAt(s, t, i))
    ensures i == -1 ==> forall j | from <= j <= |s| :: !OccursAt(s, t, j)
    ensures i != -1 ==> forall j | from <= j < i :: !OccursAt(s, t, j)
    decreases |s| - from
  {
    if OccursAt(s, t, from) then from
    else if from == |s| then -1
    else IndexFrom(s, t, from + 1)
  }
}
