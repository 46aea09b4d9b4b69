/** The key under which the worker remembers an event: user, action, title, IID and body
    joined by colons. */
module EventKey {
  import opened Decimal
  import opened Text

  type Int64 = n: int | -0x8000_0000_0000_0000 <= n < 0x8000_0000_0000_0000

  datatype Event = Event(user: Int64, action: string, title: string, iid: Int64, body: string)

  /** Three fields joined by colons. */
  function Joined(title: string, number: string, body: string): string {
    title + ":" + number + ":" + body
  }

  /** The part of the key after the action. */
  function Tail(title: string, iid: int, body: string): string {
    Joined(title, Integer(iid), body)
  }

  function Key(e: Event): string {
    Integer(e.user) + ":" + e.action + ":" + e.title + ":" + Integer(e.iid) + ":" + e.body
  }

  lemma IntegerLacksColon(n: int)
    ensures Lacks(Integer(n), ':')
  {
  }

  lemma KeyIsNested(e: Event)
    ensures Key(e) == Integer(e.user) + [':'] + (e.action + [':'] + Tail(e.title, e.iid, e.body))
  {
  }

  /** Equal keys of events with colon-free actions come from the same user and action. */
  lemma SameKeySameHead(e: Event, e': Event)
    requires Lacks(e.action, ':') && Lacks(e'.action, ':')
    ensures Key(e) == Key(e') <==>
            && e.user == e'.user && e.action == e'.action
            && Tail(e.title, e.iid, e.body) == Tail(e'.title, e'.iid, e'.body)
  {
    KeyIsNested(e);
    KeyIsNested(e');
    if Key(e) == Key(e') {
      SeparatorUnique(Integer(e.user), e.action + [':'] + Tail(e.title, e.iid, e.body),
                      Integer(e'.user), e'.action + [':'] + Tail(e'.title, e'.iid, e'.body), ':');
      IntegerInjective(e.user, e'.user);
      SeparatorUnique(e.action, Tail(e.title, e.iid, e.body),
                      e'.action, Tail(e'.title, e'.iid, e'.body), ':');
    }
  }

  /** The key is injective on events whose action and title hold no colon, whatever the body. */
  lemma KeyInjective(e: Event, e': Event)
    requires Lacks(e.action, ':') && Lacks(e'.action, ':')
    requires Lacks(e.title, ':') && Lacks(e'.title, ':')
    ensures Key(e) == Key(e') <==> e == e'
  {
    SameKeySameHead(e, e');
    if Key(e) == Key(e') {
      var rest, rest' := Integer(e.iid) + [':'] + e.body, Integer(e'.iid) + [':'] + e'.body;
      assert Tail(e.title, e.iid, e.body) == e.title + [':'] + rest;
      assert Tail(e'.title, e'.iid, e'.body) == e'.title + [':'] + rest';
      SeparatorUnique(e.title, rest, e'.title, rest', ':');
      SeparatorUnique(Integer(e.iid), e.body, Integer(e'.iid), e'.body, ':');
      IntegerInjective(e.iid, e'.iid);
    }
  }

  // ------------------------------------------- exactly when a key is ambiguous

  predicate TitleReads(title: string, head: string, n: Int64, tail: string) {
    title == head + ":" + Integer(n) + tail && (tail == "" || tail[0] == ':')
  }

  predicate BodyReads(body: string, head: string, n: Int64, tail: string) {
    body == head + Integer(n) + ":" + tail && (head == "" || head[|head| - 1] == ':')
  }

  /** The title holds ":n", followed by another colon or by nothing. */
  ghost predicate NumberInTitle(title: string) {
    exists head, n: Int64, tail :: TitleReads(title, head, n, tail)
  }

  /** The body holds "n:", at its start or after a colon. */
  ghost predicate NumberInBody(body: string) {
    exists head, n: Int64, tail :: BodyReads(body, head, n, tail)
  }

  lemma NumberInTitleCollides(e: Event) returns (e': Event)
    requires NumberInTitle(e.title)
    ensures e' != e && e'.action == e.action && Key(e') == Key(e)
  {
    var head, n: Int64, tail :| TitleReads(e.title, head, n, tail);
    var body := MoveOutOfTitle(head, Integer(n), tail, Integer(e.iid), e.body);
    e' := e.(title := head, iid := n, body := body);
    KeyIsNested(e);
    KeyIsNested(e');
  }

  lemma MoveOutOfTitle(head: string, m: string, tail: string, d: string, b: string) returns (body: string)
    requires tail == "" || tail[0] == ':'
    ensures Joined(head, m, body) == Joined(head + ":" + m + tail, d, b)
  {
    if tail == "" {
      body := d + ":" + b;
    } else {
      assert tail == ":" + tail[1..];
      body := tail[1..] + ":" + d + ":" + b;
    }
  }

  lemma NumberInBodyCollides(e: Event) returns (e': Event)
    requires NumberInBody(e.body)
    ensures e' != e && e'.action == e.action && Key(e') == Key(e)
  {
    var head, n: Int64, tail :| BodyReads(e.body, head, n, tail);
    var title := MoveIntoTitle(e.title, Integer(e.iid), head, Integer(n), tail);
    e' := e.(title := title, iid := n, body := tail);
    KeyIsNested(e);
    KeyIsNested(e');
  }

  lemma MoveIntoTitle(t: string, d: string, head: string, m: string, tail: string) returns (title: string)
    requires head == "" || head[|head| - 1] == ':'
    ensures Joined(title, m, tail) == Joined(t, d, head + m + ":" + tail)
    ensures |title| > |t|
  {
    if head == "" {
      title := t + ":" + d;
    } else {
      assert head == head[..|head| - 1] + ":";
      title := t + ":" + d + ":" + head[..|head| - 1];
    }
  }

  /** Two readings of one tail with titles of different lengths: the longer title holds the
      number of the shorter reading right after the shorter title. */
  lemma LongerTitle(t: string, d: string, b: string, t': string, d': string, b': string) returns (tail: string)
    requires Joined(t, d, b) == Joined(t', d', b') && Lacks(d, ':')
    requires |t| < |t'|
    ensures t' == t + ":" + d + tail && (tail == "" || tail[0] == ':')
    ensures ":" + b == tail + ":" + d' + ":" + b'
  {
    var s := Joined(t, d, b);
    assert s[..|t'|] == t';
    assert s[..|t|] == t && s[|t|] == ':';
    var x := t'[|t| + 1..];
    assert t' == t + ":" + x by {
      assert t'[..|t|] == s[..|t|] && t'[|t|] == s[|t|];
    }
    assert s[|t| + 1..] == d + (":" + b);
    assert s[|t| + 1..] == x + (":" + d' + ":" + b');
    tail := FirstPartIsPrefix(d, ":" + b, x, ":" + d' + ":" + b');
  }

  /** A colon-free text before a colon is a prefix of any other text before a colon. */
  lemma FirstPartIsPrefix(d: string, rest: string, x: string, rest': string) returns (tail: string)
    requires d + rest == x + rest' && Lacks(d, ':')
    requires rest != "" && rest[0] == ':' && rest' != "" && rest'[0] == ':'
    ensures x == d + tail && (tail == "" || tail[0] == ':')
    ensures rest == tail + rest'
  {
    var s := d + rest;
    assert s[|x|] == ':';
    assert forall k | 0 <= k < |d| :: s[k] == d[k];
    assert |x| >= |d|;
    tail := x[|d|..];
    assert x == d + tail by {
      assert x == s[..|x|] && d == s[..|d|];
    }
    assert rest == s[|d|..];
    assert s == d + (tail + rest');
  }

  lemma LongerTitleHoldsNumber(t: string, i: Int64, b: string, t': string, i': Int64, b': string)
    requires Tail(t, i, b) == Tail(t', i', b')
    requires |t| < |t'|
    ensures NumberInTitle(t') && NumberInBody(b)
  {
    IntegerLacksColon(i);
    var tail := LongerTitle(t, Integer(i), b, t', Integer(i'), b');
    var head := if tail == "" then "" else tail[1..] + ":";
    BodyAfterColon(b, tail, head, Integer(i'), b');
    assert TitleReads(t', t, i, tail);
    assert BodyReads(b, head, i', b');
  }

  lemma BodyAfterColon(b: string, tail: string, head: string, d: string, b': string)
    requires ":" + b == tail + ":" + d + ":" + b'
    requires head == if tail == "" then "" else tail[1..] + ":"
    ensures b == head + d + ":" + b'
  {
    assert b == (":" + b)[1..];
    if tail != "" {
      assert (tail + ":" + d + ":" + b')[1..] == tail[1..] + ":" + d + ":" + b';
    }
  }

  lemma SameLengthTitlesAgree(t: string, i: Int64, b: string, t': string, i': Int64, b': string)
    requires Tail(t, i, b) == Tail(t', i', b') && |t| == |t'|
    ensures t == t' && i == i' && b == b'
  {
    var s := Tail(t, i, b);
    assert t == s[..|t|] == t';
    assert s[|t| + 1..] == Integer(i) + [':'] + b == Integer(i') + [':'] + b';
    IntegerLacksColon(i);
    IntegerLacksColon(i');
    SeparatorUnique(Integer(i), b, Integer(i'), b', ':');
    IntegerInjective(i, i');
  }

  /** Exactly when an event can be mistaken for another of the same action vocabulary:
      its title or its body holds a number fenced by colons. A colon alone is harmless. */
  lemma AmbiguousExactlyWhenFencedNumber(e: Event)
    requires Lacks(e.action, ':')
    ensures (exists e': Event :: Lacks(e'.action, ':') && Key(e') == Key(e) && e' != e)
            <==> NumberInTitle(e.title) || NumberInBody(e.body)
  {
    if e': Event :| Lacks(e'.action, ':') && Key(e') == Key(e) && e' != e {
      SameKeySameHead(e, e');
      if |e.title| < |e'.title| {
        LongerTitleHoldsNumber(e.title, e.iid, e.body, e'.title, e'.iid, e'.body);
      } else if |e'.title| < |e.title| {
        LongerTitleHoldsNumber(e'.title, e'.iid, e'.body, e.title, e.iid, e.body);
      } else {
        SameLengthTitlesAgree(e.title, e.iid, e.body, e'.title, e'.iid, e'.body);
        assert false;
      }
    }
    if NumberInTitle(e.title) {
      var e' := NumberInTitleCollides(e);
      assert Key(e') == Key(e);
    } else if NumberInBody(e.body) {
      var e' := NumberInBodyCollides(e);
      assert Key(e') == Key(e);
    }
  }

  /** Two different comments with one key: 1:commented on:Fix:2:3:review. */
  lemma TwoEventsShareAKey()
    ensures var e := Event(1, "commented on", "Fix:2", 3, "review");
            var e' := Event(1, "commented on", "Fix", 2, "3:review");
            e != e' && Key(e) == Key(e')
  {
    var front := Integer(1) + ":" + "commented on" + ":";
    assert Integer(2) == "2" && Integer(3) == "3";
    assert "Fix:2" == "Fix" + ":" + "2" && "3:review" == "3" + ":" + "review";
    assert |"Fix:2"| != |"Fix"|;
    RegroupKey(front, "Fix", "2", "3", "review");
  }

  lemma RegroupKey(front: string, title: string, m: string, n: string, body: string)
    ensures front + (title + ":" + m) + ":" + n + ":" + body == front + title + ":" + m + ":" + (n + ":" + body)
  {
  }
}
