/** Replacing company-specific terms in a prompt. The regular-expression rules run before;
    what is proved holds of whatever text they leave. */
module Sanitizer {
  import opened Text

  const PLACEHOLDER := "[PROPRIETARY]"

  /** strings.ReplaceAll for a non-empty term: leftmost matches, none overlapping. */
  function ReplaceNonEmpty(s: string, term: string, replacement: string): string
    requires term != ""
    decreases |s|
  {
    if s == "" then ""
    else if term <= s then replacement + ReplaceNonEmpty(s[|term|..], term, replacement)
    else [s[0]] + ReplaceNonEmpty(s[1..], term, replacement)
  }

  /** strings.ReplaceAll for the empty term: it matches before every character and at the end. */
  function Interleave(s: string, replacement: string): string {
    if s == "" then replacement else replacement + [s[0]] + Interleave(s[1..], replacement)
  }

  function ReplaceAll(s: string, term: string, replacement: string): string {
    if term == "" then Interleave(s, replacement) else ReplaceNonEmpty(s, term, replacement)
  }

  /** The custom terms in turn. */
  function ReplaceTerms(s: string, terms: seq<string>): string {
    if terms == [] then s
    else ReplaceAll(ReplaceTerms(s, terms[..|terms| - 1]), terms[|terms| - 1], PLACEHOLDER)
  }

  class Sanitizer {
    /** The result of the built-in rules on a text. */
    const rules: string -> string
    var customTerms: seq<string>

    constructor (rules: string -> string)
      ensures this.rules == rules && customTerms == []
    {
      this.rules := rules;
      customTerms := [];
    }

    method AddCustomTerms(terms: seq<string>)
      modifies this`customTerms
      ensures customTerms == old(customTerms) + terms
    {
      customTerms := customTerms + terms;
    }

    method Sanitize(input: string) returns (output: string)
      ensures output == ReplaceTerms(rules(input), customTerms)
    {
      output := rules(input);
      for i := 0 to |customTerms|
        invariant output == ReplaceTerms(rules(input), customTerms[..i])
      {
        assert customTerms[..i + 1][..i] == customTerms[..i];
        output := ReplaceAll(output, customTerms[i], PLACEHOLDER);
      }
      assert customTerms[..|customTerms|] == customTerms;
    }
  }

  // --------------------------------------------- nothing but the terms is replaced

  /** The pieces of a text between the leftmost non-overlapping occurrences of a term. */
  function Pieces(s: string, term: string): (pieces: seq<string>)
    requires term != ""
    ensures |pieces| >= 1
    decreases |s|
  {
    if s == "" then [""]
    else if term <= s then [""] + Pieces(s[|term|..], term)
    else
      var rest := Pieces(s[1..], term);
      [[s[0]] + rest[0]] + rest[1..]
  }

  function Glue(pieces: seq<string>, between: string): string
    requires |pieces| >= 1
  {
    if |pieces| == 1 then pieces[0] else pieces[0] + between + Glue(pieces[1..], between)
  }

  lemma GluePrefixed(c: char, pieces: seq<string>, between: string)
    requires |pieces| >= 1
    ensures Glue([[c] + pieces[0]] + pieces[1..], between) == [c] + Glue(pieces, between)
  {
    var longer := [[c] + pieces[0]] + pieces[1..];
    assert longer[1..] == pieces[1..];
    if |pieces| > 1 {
      var rest := Glue(pieces[1..], between);
      assert ([c] + pieces[0]) + between + rest == [c] + (pieces[0] + between + rest);
    }
  }

  lemma {:induction false} PiecesLackTerm(s: string, term: string, k: nat)
    requires term != "" && k < |Pieces(s, term)|
    ensures !Contains(Pieces(s, term)[k], term)
    ensures k == 0 ==> Pieces(s, term)[0] <= s
    decreases |s|
  {
    if s != "" && term <= s {
      if k > 0 {
        PiecesLackTerm(s[|term|..], term, k - 1);
      }
    } else if s != "" {
      PiecesLackTerm(s[1..], term, k);
      if k == 0 {
        var piece := Pieces(s, term)[0];
        assert piece[1..] == Pieces(s[1..], term)[0];
        assert piece == [s[0]] + piece[1..] && s == [s[0]] + s[1..];
        if Contains(piece, term) {
          ContainsInFrontOrTail(piece, term);
          assert false;
        }
      }
    }
  }

  lemma {:induction false} ReplaceIsGlue(s: string, term: string, replacement: string)
    requires term != ""
    ensures ReplaceNonEmpty(s, term, replacement) == Glue(Pieces(s, term), replacement)
    decreases |s|
  {
    if s == "" {
    } else if term <= s {
      var rest := s[|term|..];
      ReplaceIsGlue(rest, term, replacement);
      assert ([""] + Pieces(rest, term))[1..] == Pieces(rest, term);
      assert "" + replacement == replacement;
    } else {
      ReplaceIsGlue(s[1..], term, replacement);
      GluePrefixed(s[0], Pieces(s[1..], term), replacement);
    }
  }

  lemma {:induction false} ReplaceByItself(s: string, term: string)
    requires term != ""
    ensures ReplaceNonEmpty(s, term, term) == s
    decreases |s|
  {
    if s == "" {
    } else if term <= s {
      ReplaceByItself(s[|term|..], term);
      assert s == term + s[|term|..];
    } else {
      ReplaceByItself(s[1..], term);
      assert s == [s[0]] + s[1..];
    }
  }

  /** What is not the term stays, in place: the result is the text with the placeholder put
      between the same pieces that the term separates. */
  lemma ReplaceKeepsTheRest(s: string, term: string, replacement: string)
    requires term != ""
    ensures s == Glue(Pieces(s, term), term)
    ensures ReplaceNonEmpty(s, term, replacement) == Glue(Pieces(s, term), replacement)
  {
    ReplaceByItself(s, term);
    ReplaceIsGlue(s, term, term);
    ReplaceIsGlue(s, term, replacement);
  }

  function Letters(s: string): (letters: seq<string>)
    ensures |letters| == |s|
  {
    seq(|s|, k requires 0 <= k < |s| => [s[k]])
  }

  lemma GlueLetters(s: string, between: string)
    requires s != ""
    ensures Glue(Letters(s), between)
         == if |s| == 1 then s else [s[0]] + between + Glue(Letters(s[1..]), between)
  {
    assert Letters(s)[1..] == Letters(s[1..]);
  }

  /** The empty term separates every letter from the next and matches at both ends. */
  lemma {:induction false} EmptyTermKeepsText(s: string, replacement: string)
    requires s != ""
    ensures ReplaceAll(s, "", replacement) == replacement + (Glue(Letters(s), replacement) + replacement)
    ensures ReplaceAll("", "", replacement) == replacement
  {
    GlueLetters(s, replacement);
    if |s| > 1 {
      EmptyTermKeepsText(s[1..], replacement);
      ShiftedLetter([s[0]], replacement, Glue(Letters(s[1..]), replacement));
    } else {
      assert s[1..] == "" && [s[0]] == s;
      assert Interleave(s[1..], replacement) == replacement;
      assert replacement + s + replacement == replacement + (s + replacement);
    }
  }

  lemma ShiftedLetter(letter: string, between: string, rest: string)
    ensures between + letter + (between + (rest + between)) == between + (letter + between + rest + between)
  {
  }

  // ----------------------------------------------- terms that meet a label's edges

  /** The term starts with the last k characters of the label. */
  predicate StartsWithEndOf(tag: string, term: string, k: nat) {
    1 <= k <= |tag| && k <= |term| && term[..k] == tag[|tag| - k..]
  }

  predicate StartMeets(tag: string, term: string) {
    exists k: nat | k <= |term| :: StartsWithEndOf(tag, term, k)
  }

  /** From position j on, the term and the label agree as far as both go. */
  predicate Agrees(tag: string, term: string, j: nat) {
    j < |term| && (term[j..] <= tag || tag <= term[j..])
  }

  /** The term agrees with the label from some place after its first character. */
  predicate EndMeets(tag: string, term: string) {
    exists j: nat | 1 <= j < |term| :: Agrees(tag, term, j)
  }

  /** No text can form the term at an edge of a placeholder. */
  predicate Apart(term: string) {
    !StartMeets(PLACEHOLDER, term) && !EndMeets(PLACEHOLDER, term)
  }

  predicate AllApart(terms: seq<string>) {
    forall i | 0 <= i < |terms| :: Apart(terms[i])
  }

  lemma StartHoldsLast(tag: string, term: string, k: nat)
    requires StartsWithEndOf(tag, term, k)
    ensures tag[|tag| - 1] in term
  {
    assert term[k - 1] == term[..k][k - 1] == tag[|tag| - 1];
  }

  lemma AgreeingHoldsFirst(tag: string, term: string, j: nat)
    requires tag != "" && Agrees(tag, term, j)
    ensures tag[0] in term
  {
    assert term[j] == term[j..][0] == tag[0];
  }

  /** A term without brackets is apart: an edge of the placeholder is a bracket. */
  lemma BracketFreeIsApart(term: string)
    requires Lacks(term, '[') && Lacks(term, ']')
    ensures Apart(term)
  {
    if k: nat :| k <= |term| && StartsWithEndOf(PLACEHOLDER, term, k) {
      StartHoldsLast(PLACEHOLDER, term, k);
    }
    if j: nat :| 1 <= j < |term| && Agrees(PLACEHOLDER, term, j) {
      AgreeingHoldsFirst(PLACEHOLDER, term, j);
    }
  }

  lemma ContainsInFrontOrTail(s: string, u: string)
    requires s != "" && Contains(s, u)
    ensures u <= s || Contains(s[1..], u)
  {
    var i :| 0 <= i <= |s| && OccursAt(s, u, i);
    if i > 0 {
      assert s[1..][i - 1..i - 1 + |u|] == s[i..i + |u|];
      assert OccursAt(s[1..], u, i - 1);
    }
  }

  /** A prefix of the term at the end of one text, the rest of it at the start of the next. */
  predicate Crosses(a: string, b: string, u: string, k: nat) {
    1 <= k < |u| && k <= |a| && u[..k] == a[|a| - k..] && u[k..] <= b
  }

  /** An occurrence in a text of two parts lies in one of them or crosses over. */
  lemma OccursAcross(a: string, b: string, u: string)
    requires Contains(a + b, u)
    ensures Contains(a, u) || Contains(b, u) || exists k: nat :: Crosses(a, b, u, k)
  {
    var s := a + b;
    var i :| 0 <= i <= |s| && OccursAt(s, u, i);
    if i + |u| <= |a| {
      OccursInFront(a, b, u, i);
    } else if |a| <= i {
      OccursInBack(a, b, u, i);
    } else {
      var k := |a| - i;
      assert u[..k] == s[i..i + |u|][..k] == a[i..];
      assert u[k..] == s[i..i + |u|][k..] == b[..|u| - k];
      assert Crosses(a, b, u, k);
    }
  }

  /** What does not start like the label's end does not cross out of the label. */
  lemma OccursBesideLabel(tag: string, rest: string, u: string)
    requires !StartMeets(tag, u) && Contains(tag + rest, u)
    ensures Contains(tag, u) || Contains(rest, u)
  {
    OccursAcross(tag, rest, u);
    if k: nat :| Crosses(tag, rest, u, k) {
      assert StartsWithEndOf(tag, u, k);
    }
  }

  /** The tail of a term in front of the result was in front of the input. */
  lemma {:induction false} TailComesFromInput(s: string, term: string, u: string, j: nat)
    requires term != "" && !EndMeets(PLACEHOLDER, u) && 1 <= j <= |u|
    requires u[j..] <= ReplaceNonEmpty(s, term, PLACEHOLDER)
    ensures u[j..] <= s
    decreases |s|
  {
    if j < |u| && s != "" {
      var r := ReplaceNonEmpty(s, term, PLACEHOLDER);
      if term <= s {
        assert PLACEHOLDER <= r;
        PrefixesAgree(u[j..], PLACEHOLDER, r);
        assert Agrees(PLACEHOLDER, u, j);
        assert false;
      } else {
        var rest := ReplaceNonEmpty(s[1..], term, PLACEHOLDER);
        assert r == [s[0]] + rest;
        assert u[j..][1..] == u[j + 1..];
        PrefixCons(u[j..], s[0], rest);
        TailComesFromInput(s[1..], term, u, j + 1);
        PrefixOfCons(u[j..], s);
      }
    }
  }

  /** Two prefixes of one text agree as far as both go. */
  lemma PrefixesAgree(a: string, b: string, r: string)
    requires a <= r && b <= r
    ensures a <= b || b <= a
  {
  }

  lemma PrefixCons(u: string, c: char, rest: string)
    requires u != "" && u <= [c] + rest
    ensures u[0] == c && u[1..] <= rest
  {
    assert ([c] + rest)[..|u|][1..] == rest[..|u| - 1];
  }

  lemma PrefixOfCons(u: string, s: string)
    requires u != "" && s != "" && u[0] == s[0] && u[1..] <= s[1..]
    ensures u <= s
  {
    assert s == [s[0]] + s[1..] && u == [u[0]] + u[1..];
  }

  lemma FrontComesFromInput(s: string, term: string, u: string)
    requires term != "" && u != "" && !EndMeets(PLACEHOLDER, u) && s != "" && !(term <= s)
    requires u <= ReplaceNonEmpty(s, term, PLACEHOLDER)
    ensures u <= s
  {
    PrefixCons(u, s[0], ReplaceNonEmpty(s[1..], term, PLACEHOLDER));
    TailComesFromInput(s[1..], term, u, 1);
    PrefixOfCons(u, s);
  }

  lemma EmptyTermOccurs(s: string)
    ensures Contains(s, "")
  {
    assert OccursAt(s, "", 0);
  }

  lemma ContainsPart(a: string, b: string, c: string, u: string)
    requires Contains(b, u)
    ensures Contains(a + b + c, u)
  {
    ContainsMiddle(a, b, c);
    ContainsTransitive(a + b + c, b, u);
  }

  /** Replacement creates no term that is apart and outside the placeholder. */
  lemma {:induction false} ReplaceCreatesNothing(s: string, term: string, u: string)
    requires term != "" && Apart(u) && !Contains(PLACEHOLDER, u)
    requires Contains(ReplaceNonEmpty(s, term, PLACEHOLDER), u)
    ensures Contains(s, u)
    decreases |s|
  {
    EmptyTermOccurs(PLACEHOLDER);
    if s == "" {
    } else if term <= s {
      OccursBesideLabel(PLACEHOLDER, ReplaceNonEmpty(s[|term|..], term, PLACEHOLDER), u);
      ReplaceCreatesNothing(s[|term|..], term, u);
      assert s == s[..|term|] + s[|term|..] + [];
      ContainsPart(s[..|term|], s[|term|..], [], u);
    } else {
      ContainsInFrontOrTail(ReplaceNonEmpty(s, term, PLACEHOLDER), u);
      if u <= ReplaceNonEmpty(s, term, PLACEHOLDER) {
        FrontComesFromInput(s, term, u);
        assert OccursAt(s, u, 0);
      } else {
        ReplaceCreatesNothing(s[1..], term, u);
        ContainsTail(s[1..], s[0], u);
        assert s == [s[0]] + s[1..];
      }
    }
  }

  // ----------------------------------------------- when one term is eliminated

  /** At the first match the text is cut in two. */
  lemma {:induction false} FirstMatch(s: string, term: string, j: nat)
    requires term != "" && OccursAt(s, term, j) && forall i | 0 <= i < j :: !OccursAt(s, term, i)
    ensures ReplaceNonEmpty(s, term, PLACEHOLDER)
         == s[..j] + PLACEHOLDER + ReplaceNonEmpty(s[j + |term|..], term, PLACEHOLDER)
    decreases |s|
  {
    if j == 0 {
      assert s[..0] + PLACEHOLDER == PLACEHOLDER;
    } else {
      assert !OccursAt(s, term, 0);
      forall i | 0 <= i < j - 1
        ensures !OccursAt(s[1..], term, i)
      {
        ShiftedOccurrence(s, term, i);
        assert !OccursAt(s, term, i + 1);
      }
      ShiftedOccurrence(s, term, j - 1);
      FirstMatch(s[1..], term, j - 1);
      assert s[1..][j - 1 + |term|..] == s[j + |term|..];
      Regroup(s, j, PLACEHOLDER, ReplaceNonEmpty(s[j + |term|..], term, PLACEHOLDER));
    }
  }

  lemma Regroup(s: string, j: nat, a: string, b: string)
    requires 1 <= j <= |s|
    ensures [s[0]] + (s[1..][..j - 1] + a + b) == s[..j] + a + b
  {
    assert [s[0]] + s[1..][..j - 1] == s[..j];
  }

  lemma ShiftedOccurrence(s: string, term: string, i: nat)
    requires s != ""
    ensures OccursAt(s[1..], term, i) <==> OccursAt(s, term, i + 1)
  {
    if i + 1 + |term| <= |s| {
      assert s[1..][i..i + |term|] == s[i + 1..i + 1 + |term|];
    }
  }

  lemma {:induction false} NothingToReplace(s: string, term: string)
    requires term != "" && !Contains(s, term)
    ensures ReplaceNonEmpty(s, term, PLACEHOLDER) == s
    decreases |s|
  {
    if s != "" {
      assert s == [s[0]] + s[1..];
      if term <= s {
        assert OccursAt(s, term, 0);
        assert false;
      }
      if Contains(s[1..], term) {
        ContainsTail(s[1..], s[0], term);
        assert false;
      }
      NothingToReplace(s[1..], term);
    }
  }

  /** What precedes position j, followed by the term itself, holds no earlier match. */
  predicate FirstAt(term: string, j: nat)
    requires j <= |term|
  {
    forall i | 0 <= i < j :: !OccursAt(term[..j] + term, term, i)
  }

  /** From j on the term agrees with the placeholder, and a text can put what precedes j
      before a match. */
  predicate FormsAt(term: string, j: nat) {
    1 <= j < |term| && Agrees(PLACEHOLDER, term, j) && FirstAt(term, j)
  }

  /** The term is part of the placeholder, or can be formed at its end or at its start. */
  predicate CanSurvive(term: string) {
    Contains(PLACEHOLDER, term) || StartMeets(PLACEHOLDER, term)
    || exists j: nat | j < |term| :: FormsAt(term, j)
  }

  lemma OccurrenceInLonger(s: string, term: string, w: string, rest: string, i: nat)
    requires s == w + term + rest && i < |w|
    ensures OccursAt(s, term, i) <==> OccursAt(w + term, term, i)
  {
    assert s[i..i + |term|] == (w + term)[i..i + |term|];
  }

  lemma ShorterLacks(s: string, term: string)
    requires |s| < |term|
    ensures !Contains(s, term)
  {
  }

  lemma FirstMatchAfter(s: string, term: string, w: string, v: string)
    requires term != "" && s == w + term + v
    requires forall i | 0 <= i < |w| :: !OccursAt(w + term, term, i)
    ensures ReplaceNonEmpty(s, term, PLACEHOLDER) == w + PLACEHOLDER + ReplaceNonEmpty(v, term, PLACEHOLDER)
  {
    forall i | 0 <= i < |w|
      ensures !OccursAt(s, term, i)
    {
      OccurrenceInLonger(s, term, w, v, i);
    }
    assert OccursAt(s, term, |w|);
    FirstMatch(s, term, |w|);
    assert s[..|w|] == w && s[|w| + |term|..] == v;
  }

  /** What the label leaves of a text that agrees with it. */
  function Remainder(tag: string, tail: string): (rest: string)
    ensures |rest| <= |tail|
  {
    if tag <= tail then tail[|tag|..] else ""
  }

  lemma AgreeingIsCovered(tag: string, tail: string)
    requires tail <= tag || tag <= tail
    ensures tail <= tag + Remainder(tag, tail)
  {
    if tag <= tail {
      assert tail == tag + Remainder(tag, tail);
    }
  }

  lemma PrefixAfter(a: string, u: string, s: string)
    requires u <= s
    ensures a + u <= a + s
  {
    assert s == u + s[|u|..];
    assert a + s == (a + u) + s[|u|..];
  }

  /** A term formed at the start of a placeholder survives. */
  lemma FormedSurvives(term: string, j: nat) returns (s: string)
    requires FormsAt(term, j)
    ensures Contains(ReplaceNonEmpty(s, term, PLACEHOLDER), term)
  {
    var w, v := term[..j], Remainder(PLACEHOLDER, term[j..]);
    s := w + term + v;
    assert |w| == j;
    FirstMatchAfter(s, term, w, v);
    ShorterLacks(v, term);
    NothingToReplace(v, term);
    AgreeingIsCovered(PLACEHOLDER, term[j..]);
    PrefixAfter(w, term[j..], PLACEHOLDER + v);
    FormedText(term, w, term[j..], v);
  }

  lemma FormedText(term: string, w: string, tail: string, v: string)
    requires term == w + tail && w + tail <= w + (PLACEHOLDER + v)
    ensures Contains(w + PLACEHOLDER + v, term)
  {
    assert w + PLACEHOLDER + v == w + (PLACEHOLDER + v);
    assert OccursAt(w + PLACEHOLDER + v, term, 0);
  }

  lemma FormedAtEnd(tag: string, term: string, k: nat, rest: string)
    requires StartsWithEndOf(tag, term, k)
    ensures Contains(tag + term[k..] + rest, term)
  {
    var front := tag[..|tag| - k];
    assert tag == front + term[..k];
    assert term == term[..k] + term[k..];
    assert tag + term[k..] + rest == front + term + rest;
    ContainsMiddle(front, term, rest);
  }

  /** A term formed at the end of a placeholder survives. */
  lemma StartSurvives(term: string, k: nat) returns (s: string)
    requires StartsWithEndOf(PLACEHOLDER, term, k)
    ensures Contains(ReplaceNonEmpty(s, term, PLACEHOLDER), term)
  {
    var v := term[k..];
    s := "" + term + v;
    FirstMatchAfter(s, term, "", v);
    ShorterLacks(v, term);
    NothingToReplace(v, term);
    FormedAtEnd(PLACEHOLDER, term, k, "");
    assert "" + PLACEHOLDER + v == PLACEHOLDER + v + "";
  }

  lemma {:induction false} ReplacementShows(s: string, term: string)
    requires term != "" && Contains(s, term)
    ensures Contains(ReplaceNonEmpty(s, term, PLACEHOLDER), PLACEHOLDER)
    decreases |s|
  {
    if term <= s {
      assert OccursAt(ReplaceNonEmpty(s, term, PLACEHOLDER), PLACEHOLDER, 0);
    } else {
      ContainsInFrontOrTail(s, term);
      ReplacementShows(s[1..], term);
      ContainsTail(ReplaceNonEmpty(s[1..], term, PLACEHOLDER), s[0], PLACEHOLDER);
    }
  }

  lemma PartSurvives(term: string)
    requires term != "" && Contains(PLACEHOLDER, term)
    ensures Contains(ReplaceNonEmpty(term, term, PLACEHOLDER), term)
  {
    assert OccursAt(term, term, 0);
    ReplacementShows(term, term);
    ContainsTransitive(ReplaceNonEmpty(term, term, PLACEHOLDER), PLACEHOLDER, term);
  }

  /** The first match of a text, if it has one. */
  lemma {:induction false} FindMatch(s: string, term: string, n: nat) returns (j: nat)
    requires n <= |s| && term != "" && forall i | 0 <= i < n :: !OccursAt(s, term, i)
    requires Contains(s, term)
    ensures OccursAt(s, term, j) && forall i | 0 <= i < j :: !OccursAt(s, term, i)
    decreases |s| - n
  {
    if OccursAt(s, term, n) {
      j := n;
    } else {
      j := FindMatch(s, term, n + 1);
    }
  }

  /** A term in front of the result that was not in front of the input is formed at the
      start of the first placeholder. */
  lemma FrontIsFormed(s: string, term: string)
    requires term != "" && term <= ReplaceNonEmpty(s, term, PLACEHOLDER) && !(term <= s)
    ensures exists j: nat | j < |term| :: FormsAt(term, j)
  {
    if !Contains(s, term) {
      NothingToReplace(s, term);
      assert false;
    } else {
      var j := FindMatch(s, term, 0);
      FirstMatch(s, term, j);
      FormedBefore(s, term, j, ReplaceNonEmpty(s[j + |term|..], term, PLACEHOLDER));
    }
  }

  lemma FormedBefore(s: string, term: string, j: nat, after: string)
    requires term != "" && OccursAt(s, term, j) && !(term <= s)
    requires forall i | 0 <= i < j :: !OccursAt(s, term, i)
    requires term <= s[..j] + PLACEHOLDER + after
    ensures j < |term| && FormsAt(term, j)
  {
    var w, rest := s[..j], s[j + |term|..];
    assert s == w + term + rest;
    assert w + PLACEHOLDER + after == w + (PLACEHOLDER + after);
    FrontOfConcat(term, w, PLACEHOLDER + after);
    assert |term| <= j ==> term <= s;
    PrefixesAgree(term[j..], PLACEHOLDER, PLACEHOLDER + after);
    forall i | 0 <= i < j
      ensures !OccursAt(term[..j] + term, term, i)
    {
      OccurrenceInLonger(s, term, w, rest, i);
      assert !OccursAt(s, term, i);
    }
  }

  lemma FrontOfConcat(u: string, a: string, b: string)
    requires u <= a + b
    ensures |u| <= |a| ==> u <= a
    ensures |a| <= |u| ==> u[..|a|] == a && u[|a|..] <= b
  {
    if |a| <= |u| {
      assert u[|a|..] == (a + b)[..|u|][|a|..] == b[..|u| - |a|];
      assert u[..|a|] == (a + b)[..|u|][..|a|];
    }
  }

  lemma {:induction false} SurvivorMeets(s: string, term: string)
    requires term != "" && Contains(ReplaceNonEmpty(s, term, PLACEHOLDER), term)
    ensures CanSurvive(term)
    decreases |s|
  {
    if s == "" {
    } else if term <= s {
      if !StartMeets(PLACEHOLDER, term) && !Contains(PLACEHOLDER, term) {
        OccursBesideLabel(PLACEHOLDER, ReplaceNonEmpty(s[|term|..], term, PLACEHOLDER), term);
        SurvivorMeets(s[|term|..], term);
      }
    } else {
      ContainsInFrontOrTail(ReplaceNonEmpty(s, term, PLACEHOLDER), term);
      if term <= ReplaceNonEmpty(s, term, PLACEHOLDER) {
        FrontIsFormed(s, term);
      } else {
        SurvivorMeets(s[1..], term);
      }
    }
  }

  /** Exactly when one term is eliminated from every text: it is no part of the
      placeholder, does not start like the placeholder's end, and no text can form it at a
      placeholder's start. This is decided by the term alone. */
  lemma EliminatedExactlyWhenItCannotSurvive(term: string)
    ensures (forall s: string :: !Contains(ReplaceAll(s, term, PLACEHOLDER), term)) <==> !CanSurvive(term)
  {
    if term == "" {
      EmptyTermOccurs(PLACEHOLDER);
      EmptyTermOccurs(ReplaceAll("", "", PLACEHOLDER));
    } else if CanSurvive(term) {
      var s: string;
      if Contains(PLACEHOLDER, term) {
        s := term;
        PartSurvives(term);
      } else if k: nat :| k <= |term| && StartsWithEndOf(PLACEHOLDER, term, k) {
        s := StartSurvives(term, k);
      } else {
        var j: nat :| j < |term| && FormsAt(term, j);
        s := FormedSurvives(term, j);
      }
      assert Contains(ReplaceAll(s, term, PLACEHOLDER), term);
    } else {
      forall s: string
        ensures !Contains(ReplaceAll(s, term, PLACEHOLDER), term)
      {
        if Contains(ReplaceAll(s, term, PLACEHOLDER), term) {
          SurvivorMeets(s, term);
        }
      }
    }
  }

  lemma BracketsBesideNoOther(term: string)
    requires term == "[["
    ensures !Contains(PLACEHOLDER, term) && !StartMeets(PLACEHOLDER, term)
  {
    if k: nat :| k <= |term| && StartsWithEndOf(PLACEHOLDER, term, k) {
      StartHoldsLast(PLACEHOLDER, term, k);
      assert false;
    }
    forall i | 0 <= i <= 11
      ensures !OccursAt(PLACEHOLDER, term, i)
    {
      assert PLACEHOLDER[i..i + 2][1] == PLACEHOLDER[i + 1] != '[';
    }
  }

  /** Meeting the placeholder's start is not enough to survive: "[[" does, and is always
      eliminated, because the text before a match would have been matched already. */
  lemma MeetingIsNotSurviving()
    ensures EndMeets(PLACEHOLDER, "[[") && !CanSurvive("[[")
  {
    var term := "[[";
    BracketsBesideNoOther(term);
    assert term[1..] == "[" && PLACEHOLDER[..1] == "[";
    assert Agrees(PLACEHOLDER, term, 1);
    var twice := term[..1] + term;
    assert twice[..2] == term;
    assert OccursAt(twice, term, 0);
    assert !FirstAt(term, 1);
  }

  /** A term with a bracket can be formed by a placeholder and the text beside it. */
  lemma BracketedTermCanSurvive()
    ensures Contains(ReplaceTerms("]x" + "x", ["]x"]), "]x")
  {
    var s := "]x" + "x";
    assert ["]x"][..0] == [];
    assert ReplaceTerms(s, []) == s;
    assert "]x" <= s && s[2..] == "x";
    assert ReplaceNonEmpty("x", "]x", PLACEHOLDER) == ['x'] + ReplaceNonEmpty("x"[1..], "]x", PLACEHOLDER);
    var r := ReplaceTerms(s, ["]x"]);
    assert r == PLACEHOLDER + "x";
    assert OccursAt(r, "]x", 12);
  }

  // ------------------------------------------------------ lists of terms

  lemma ApartOutsideCannotSurvive(term: string)
    requires Apart(term) && !Contains(PLACEHOLDER, term)
    ensures !CanSurvive(term)
  {
  }

  /** Replacement leaves none of its own term behind. */
  lemma ReplaceEliminates(s: string, term: string)
    requires term != "" && !CanSurvive(term)
    ensures !Contains(ReplaceNonEmpty(s, term, PLACEHOLDER), term)
  {
    if Contains(ReplaceNonEmpty(s, term, PLACEHOLDER), term) {
      SurvivorMeets(s, term);
    }
  }

  /** After the whole loop no term is left, and later replacements bring none back. */
  lemma {:induction false} TermsEliminated(s: string, terms: seq<string>, i: nat)
    requires AllApart(terms) && i < |terms|
    requires forall k | 0 <= k < |terms| :: !Contains(PLACEHOLDER, terms[k])
    ensures !Contains(ReplaceTerms(s, terms), terms[i])
  {
    var n := |terms| - 1;
    EmptyTermOccurs(PLACEHOLDER);
    var before := ReplaceTerms(s, terms[..n]);
    assert Apart(terms[n]) && Apart(terms[i]) && !Contains(PLACEHOLDER, terms[n]);
    if i == n {
      ApartOutsideCannotSurvive(terms[n]);
      ReplaceEliminates(before, terms[n]);
    } else {
      TermsEliminated(s, terms[..n], i);
      if Contains(ReplaceTerms(s, terms), terms[i]) {
        ReplaceCreatesNothing(before, terms[n], terms[i]);
        assert false;
      }
    }
  }

  /** Once a placeholder is in the text, some placeholder stays in it. */
  lemma {:induction false} PlaceholderStays(s: string, terms: seq<string>)
    requires Contains(s, PLACEHOLDER)
    ensures Contains(ReplaceTerms(s, terms), PLACEHOLDER)
  {
    if terms != [] {
      var n := |terms| - 1;
      var before := ReplaceTerms(s, terms[..n]);
      PlaceholderStays(s, terms[..n]);
      if terms[n] == "" {
        assert OccursAt(Interleave(before, PLACEHOLDER), PLACEHOLDER, 0);
      } else if Contains(before, terms[n]) {
        ReplacementShows(before, terms[n]);
      } else {
        NothingToReplace(before, terms[n]);
      }
    }
  }

  /** No input leaves any of the terms in the output. */
  ghost predicate Eliminates(terms: seq<string>) {
    forall s: string, i | 0 <= i < |terms| :: !Contains(ReplaceTerms(s, terms), terms[i])
  }

  /** A list of terms that are apart is eliminated from every text exactly when none of them
      is part of the placeholder. The empty term always is; so are "PRO" and "I". */
  lemma EliminatesExactlyWhenNotInPlaceholder(terms: seq<string>)
    requires AllApart(terms)
    ensures Eliminates(terms) <==> forall i | 0 <= i < |terms| :: !Contains(PLACEHOLDER, terms[i])
  {
    if forall i | 0 <= i < |terms| :: !Contains(PLACEHOLDER, terms[i]) {
      forall s: string, i | 0 <= i < |terms|
        ensures !Contains(ReplaceTerms(s, terms), terms[i])
      {
        TermsEliminated(s, terms, i);
      }
    } else {
      var i :| 0 <= i < |terms| && Contains(PLACEHOLDER, terms[i]);
      assert OccursAt(PLACEHOLDER, PLACEHOLDER, 0);
      PlaceholderStays(PLACEHOLDER, terms);
      ContainsTransitive(ReplaceTerms(PLACEHOLDER, terms), PLACEHOLDER, terms[i]);
    }
  }

  /** The text holds none of the terms. */
  predicate FreeOf(s: string, terms: seq<string>) {
    forall i | 0 <= i < |terms| :: !Contains(s, terms[i])
  }

  /** The loop reaches a text that holds none of the terms unchanged. */
  lemma {:induction false} FreeTextPasses(s: string, terms: seq<string>)
    requires FreeOf(s, terms)
    ensures ReplaceTerms(s, terms) == s
  {
    if terms != [] {
      var n := |terms| - 1;
      assert forall i | 0 <= i < n :: terms[..n][i] == terms[i];
      FreeTextPasses(s, terms[..n]);
      EmptyTermOccurs(s);
      assert !Contains(s, terms[n]);
      NothingToReplace(s, terms[n]);
    }
  }

  lemma ReplaceTermsSnoc(s: string, terms: seq<string>, term: string)
    ensures ReplaceTerms(s, terms + [term]) == ReplaceAll(ReplaceTerms(s, terms), term, PLACEHOLDER)
  {
    assert (terms + [term])[..|terms|] == terms;
  }

  /** A text that holds none of a list's terms, but from which the next term is not
      eliminated, makes the longer list fail. Nothing is asked of the terms. */
  lemma ListFailsOnFreeSurvivor(terms: seq<string>, term: string, s: string)
    requires FreeOf(s, terms) && Contains(ReplaceAll(s, term, PLACEHOLDER), term)
    ensures !Eliminates(terms + [term])
  {
    FreeTextPasses(s, terms);
    ReplaceTermsSnoc(s, terms, term);
    assert (terms + [term])[|terms|] == term;
    assert Contains(ReplaceTerms(s, terms + [term]), (terms + [term])[|terms|]);
  }

  /** The terms are apart and outside the placeholder. */
  predicate AllClear(terms: seq<string>) {
    forall i | 0 <= i < |terms| :: Apart(terms[i]) && !Contains(PLACEHOLDER, terms[i])
  }

  /** From the texts that hold none of the terms, this one is eliminated. */
  ghost predicate EliminatedFromFree(terms: seq<string>, term: string) {
    forall s: string | FreeOf(s, terms) :: !Contains(ReplaceAll(s, term, PLACEHOLDER), term)
  }

  lemma ClearTermsStayAway(s: string, terms: seq<string>, term: string, i: nat)
    requires AllClear(terms) && term != "" && i <= |terms|
    requires EliminatedFromFree(terms, term)
    ensures !Contains(ReplaceTerms(s, terms + [term]), (terms + [term])[i])
  {
    var before := ReplaceTerms(s, terms);
    forall k | 0 <= k < |terms|
      ensures !Contains(before, terms[k])
    {
      TermsEliminated(s, terms, k);
    }
    ReplaceTermsSnoc(s, terms, term);
    assert FreeOf(before, terms);
    if i < |terms| {
      if Contains(ReplaceNonEmpty(before, term, PLACEHOLDER), terms[i]) {
        ReplaceCreatesNothing(before, term, terms[i]);
        assert false;
      }
    }
  }

  /** Exactly when a list whose terms before the last are apart and outside the placeholder
      is eliminated: the last is eliminated from every text that holds none of the others. */
  lemma LastTermDecides(terms: seq<string>, term: string)
    requires AllClear(terms)
    ensures Eliminates(terms + [term]) <==> EliminatedFromFree(terms, term)
  {
    if EliminatedFromFree(terms, term) {
      if term == "" {
        FreeEmptyText(terms);
        EmptyTermOccurs(ReplaceAll("", term, PLACEHOLDER));
        assert false;
      }
      forall s: string, i | 0 <= i < |terms + [term]|
        ensures !Contains(ReplaceTerms(s, terms + [term]), (terms + [term])[i])
      {
        ClearTermsStayAway(s, terms, term, i);
      }
    } else {
      var s: string :| FreeOf(s, terms) && Contains(ReplaceAll(s, term, PLACEHOLDER), term);
      ListFailsOnFreeSurvivor(terms, term, s);
    }
  }

  lemma FreeEmptyText(terms: seq<string>)
    requires AllClear(terms)
    ensures FreeOf("", terms)
  {
    EmptyTermOccurs(PLACEHOLDER);
    forall i | 0 <= i < |terms|
      ensures !Contains("", terms[i])
    {
      assert terms[i] != "";
      ShorterLacks("", terms[i]);
    }
  }

  /** So a list may end with any term that cannot survive, whatever edge it meets. */
  lemma ListWithLastThatCannotSurvive(terms: seq<string>, term: string)
    requires AllClear(terms) && !CanSurvive(term)
    ensures Eliminates(terms + [term])
  {
    EliminatedExactlyWhenItCannotSurvive(term);
    LastTermDecides(terms, term);
  }

  /** A list that fails through its last term: "]x" is formed again in a text that does not
      hold "secret". */
  lemma ListWithSurvivorFails()
    ensures AllClear(["secret"]) && !Eliminates(["secret"] + ["]x"])
  {
    var s := "]x" + "x";
    BracketFreeIsApart("secret");
    NoSmallLetters("secret");
    BracketedTermCanSurvive();
    assert [] + ["]x"] == ["]x"];
    ReplaceTermsSnoc(s, [], "]x");
    ShorterLacks(s, "secret");
    ListFailsOnFreeSurvivor(["secret"], "]x", s);
  }

  lemma NoSmallLetters(term: string)
    requires term != "" && 'a' <= term[0] <= 'z'
    ensures !Contains(PLACEHOLDER, term)
  {
    forall i | 0 <= i <= |PLACEHOLDER|
      ensures !OccursAt(PLACEHOLDER, term, i)
    {
      if i + |term| <= |PLACEHOLDER| {
        OccurrenceStarts(PLACEHOLDER, term, i);
        assert PLACEHOLDER[i] < 'a';
      }
    }
  }

  /** A list may fail where each of its terms alone would not: "[[" is always eliminated, but
      a later term's placeholder can form it again. */
  lemma LaterTermCanFormEarlier()
    ensures Contains(ReplaceTerms("[y", ["[[", "y"]), "[[")
  {
    var terms := ["[[", "y"];
    assert terms[..1] == ["[["] && ["[["][..0] == [];
    assert ReplaceTerms("[y", []) == "[y";
    TwoBracketsNotIn("[y");
    NothingToReplace("[y", "[[");
    assert ReplaceTerms("[y", ["[["]) == "[y";
    FirstMatchAfter("[y", "y", "[", "");
    var r := ReplaceTerms("[y", terms);
    assert r == "[" + PLACEHOLDER + "";
    assert OccursAt(r, "[[", 0);
  }

  lemma TwoBracketsNotIn(s: string)
    requires |s| == 2 && s[1] != '['
    ensures !Contains(s, "[[")
  {
    assert "[["[1] == '[';
  }

  // ------------------------------------------------------------ the client in front

  const CONTEXT_LABEL := "Context:\n"
  const TASK_LABEL := "\n\nTask:\n"

  const FALLBACK_SYSTEM := "You are a senior software engineer performing code review."

  /** What the fallback of Analyze sends when the wrapped client cannot analyse itself. */
  function FallbackPrompt(context: string, prompt: string): string {
    CONTEXT_LABEL + (context + (TASK_LABEL + prompt))
  }

  /** The wrapper's two calls, reduced to the two texts they hand on. */
  class SanitizedClient {
    const sanitizer: Sanitizer
    const wrapsRegistry: bool

    constructor (sanitizer: Sanitizer, wrapsRegistry: bool)
      ensures this.sanitizer == sanitizer && this.wrapsRegistry == wrapsRegistry
    {
      this.sanitizer := sanitizer;
      this.wrapsRegistry := wrapsRegistry;
    }

    method Complete(system: string, user: string) returns (systemSent: string, userSent: string)
      ensures systemSent == ReplaceTerms(sanitizer.rules(system), sanitizer.customTerms)
      ensures userSent == ReplaceTerms(sanitizer.rules(user), sanitizer.customTerms)
    {
      systemSent := sanitizer.Sanitize(system);
      userSent := sanitizer.Sanitize(user);
    }

    method Analyze(context: string, prompt: string) returns (first: string, second: string)
      ensures var clean := ReplaceTerms(sanitizer.rules(context), sanitizer.customTerms);
              var cleanPrompt := ReplaceTerms(sanitizer.rules(prompt), sanitizer.customTerms);
              if wrapsRegistry then first == clean && second == cleanPrompt
              else first == FALLBACK_SYSTEM && second == FallbackPrompt(clean, cleanPrompt)
    {
      first := sanitizer.Sanitize(context);
      second := sanitizer.Sanitize(prompt);
      if !wrapsRegistry {
        second := FallbackPrompt(first, second);
        first := FALLBACK_SYSTEM;
      }
    }
  }

  predicate InLabel(term: string) {
    Contains(CONTEXT_LABEL, term) || Contains(TASK_LABEL, term)
  }

  /** The term meets an edge of a label that a text adjoins. */
  predicate MeetsLabel(term: string) {
    StartMeets(CONTEXT_LABEL, term) || StartMeets(TASK_LABEL, term)
    || exists j: nat | j < |term| :: Agrees(TASK_LABEL, term, j)
  }

  /** The term lies across a seam of the fallback prompt, where a label and a text adjoin. */
  predicate AcrossSeam(context: string, prompt: string, term: string) {
    exists k: nat | k <= |term| :: CrossesSeam(context, prompt, term, k)
  }

  predicate CrossesSeam(context: string, prompt: string, term: string, k: nat) {
    || Crosses(CONTEXT_LABEL, context + (TASK_LABEL + prompt), term, k)
    || Crosses(context, TASK_LABEL + prompt, term, k)
    || Crosses(TASK_LABEL, prompt, term, k)
  }

  lemma FallbackOccurrence(context: string, prompt: string, term: string)
    requires Contains(FallbackPrompt(context, prompt), term)
    requires !Contains(context, term) && !Contains(prompt, term)
    ensures InLabel(term) || AcrossSeam(context, prompt, term)
  {
    var task := TASK_LABEL + prompt;
    OccursAcross(CONTEXT_LABEL, context + task, term);
    if k: nat :| Crosses(CONTEXT_LABEL, context + task, term, k) {
      assert CrossesSeam(context, prompt, term, k);
    } else if Contains(context + task, term) {
      OccursAcross(context, task, term);
      if k: nat :| Crosses(context, task, term, k) {
        assert CrossesSeam(context, prompt, term, k);
      } else {
        OccursAcross(TASK_LABEL, prompt, term);
        if k: nat :| Crosses(TASK_LABEL, prompt, term, k) {
          assert CrossesSeam(context, prompt, term, k);
        }
      }
    }
  }

  lemma CrossingOccurs(a: string, b: string, u: string, k: nat)
    requires Crosses(a, b, u, k)
    ensures Contains(a + b, u)
  {
    assert u == u[..k] + u[k..];
    assert (a + b)[|a| - k..|a| - k + |u|] == a[|a| - k..] + b[..|u| - k];
    assert OccursAt(a + b, u, |a| - k);
  }

  lemma ContainsAfter(a: string, b: string, u: string)
    requires Contains(b, u)
    ensures Contains(a + b, u)
  {
    ContainsPart(a, b, "", u);
    assert a + b + "" == a + b;
  }

  lemma SeamShows(context: string, prompt: string, term: string)
    requires AcrossSeam(context, prompt, term)
    ensures Contains(FallbackPrompt(context, prompt), term)
  {
    var task := TASK_LABEL + prompt;
    var k: nat :| k <= |term| && CrossesSeam(context, prompt, term, k);
    if Crosses(CONTEXT_LABEL, context + task, term, k) {
      CrossingOccurs(CONTEXT_LABEL, context + task, term, k);
    } else if Crosses(context, task, term, k) {
      CrossingOccurs(context, task, term, k);
      ContainsAfter(CONTEXT_LABEL, context + task, term);
    } else {
      CrossingOccurs(TASK_LABEL, prompt, term, k);
      ContainsAfter(context, task, term);
      ContainsAfter(CONTEXT_LABEL, context + task, term);
    }
  }

  lemma CrossingOut(tag: string, rest: string, term: string, k: nat)
    requires Crosses(tag, rest, term, k)
    ensures StartMeets(tag, term)
  {
    assert StartsWithEndOf(tag, term, k);
  }

  lemma CrossingIn(front: string, tag: string, rest: string, term: string, k: nat)
    requires Crosses(front, tag + rest, term, k)
    ensures k < |term| && Agrees(tag, term, k)
  {
    PrefixesAgree(term[k..], tag, tag + rest);
  }

  /** Crossing a seam means meeting the edge of a label. */
  lemma SeamMeetsLabel(context: string, prompt: string, term: string)
    requires AcrossSeam(context, prompt, term)
    ensures MeetsLabel(term)
  {
    var k: nat :| k <= |term| && CrossesSeam(context, prompt, term, k);
    if Crosses(CONTEXT_LABEL, context + (TASK_LABEL + prompt), term, k) {
      CrossingOut(CONTEXT_LABEL, context + (TASK_LABEL + prompt), term, k);
    } else if Crosses(context, TASK_LABEL + prompt, term, k) {
      CrossingIn(context, TASK_LABEL, prompt, term, k);
    } else {
      CrossingOut(TASK_LABEL, prompt, term, k);
    }
  }

  /** Both texts lack the term, yet the fallback prompt shows it. */
  predicate ShownAnew(context: string, prompt: string, term: string) {
    !Contains(context, term) && !Contains(prompt, term) && Contains(FallbackPrompt(context, prompt), term)
  }

  lemma LabelShows(context: string, prompt: string, term: string)
    requires InLabel(term)
    ensures Contains(FallbackPrompt(context, prompt), term)
  {
    var whole := FallbackPrompt(context, prompt);
    if Contains(CONTEXT_LABEL, term) {
      assert whole == "" + CONTEXT_LABEL + (context + (TASK_LABEL + prompt));
      ContainsPart("", CONTEXT_LABEL, context + (TASK_LABEL + prompt), term);
    } else {
      assert whole == (CONTEXT_LABEL + context) + TASK_LABEL + prompt;
      ContainsPart(CONTEXT_LABEL + context, TASK_LABEL, prompt, term);
    }
  }

  lemma ContextLabelForms(term: string, k: nat)
    requires StartsWithEndOf(CONTEXT_LABEL, term, k)
    ensures ShownAnew(term[k..], "", term)
  {
    ShorterLacks(term[k..], term);
    ShorterLacks("", term);
    FormedAtEnd(CONTEXT_LABEL, term, k, TASK_LABEL + "");
    assert FallbackPrompt(term[k..], "") == CONTEXT_LABEL + term[k..] + (TASK_LABEL + "");
  }

  lemma TaskLabelForms(term: string, k: nat)
    requires StartsWithEndOf(TASK_LABEL, term, k)
    ensures ShownAnew("", term[k..], term)
  {
    ShorterLacks(term[k..], term);
    ShorterLacks("", term);
    FormedAtEnd(TASK_LABEL, term, k, "");
    assert FallbackPrompt("", term[k..]) == CONTEXT_LABEL + (TASK_LABEL + term[k..] + "") + "";
    ContainsPart(CONTEXT_LABEL, TASK_LABEL + term[k..] + "", "", term);
  }

  lemma TaskLabelEnds(term: string, j: nat) returns (prompt: string)
    requires Agrees(TASK_LABEL, term, j)
    ensures ShownAnew(term[..j], prompt, term)
  {
    prompt := Remainder(TASK_LABEL, term[j..]);
    AgreeingIsCovered(TASK_LABEL, term[j..]);
    PrefixAfter(term[..j], term[j..], TASK_LABEL + prompt);
    assert term == term[..j] + term[j..];
    ShorterLacks(term[..j], term);
    ShorterLacks(prompt, term);
    assert OccursAt(CONTEXT_LABEL + (term[..j] + (TASK_LABEL + prompt)), term, |CONTEXT_LABEL|);
  }

  /** Exactly when some pair of cleaned texts makes the fallback prompt show a term anew: it
      is part of the prompt's labels or meets an edge of theirs. */
  lemma SomeFallbackShowsExactly(term: string)
    ensures (exists context, prompt :: ShownAnew(context, prompt, term))
            <==> term != "" && (InLabel(term) || MeetsLabel(term))
  {
    if context, prompt :| ShownAnew(context, prompt, term) {
      EmptyTermOccurs(context);
      FallbackOccurrence(context, prompt, term);
      if AcrossSeam(context, prompt, term) {
        SeamMeetsLabel(context, prompt, term);
      }
    }
    if term == "" {
    } else if InLabel(term) {
      LabelShows("", "", term);
      ShorterLacks("", term);
      assert ShownAnew("", "", term);
    } else if k: nat :| k <= |term| && StartsWithEndOf(CONTEXT_LABEL, term, k) {
      ContextLabelForms(term, k);
    } else if k: nat :| k <= |term| && StartsWithEndOf(TASK_LABEL, term, k) {
      TaskLabelForms(term, k);
    } else if j: nat :| j < |term| && Agrees(TASK_LABEL, term, j) {
      var prompt := TaskLabelEnds(term, j);
    }
  }

  lemma WithoutNewlineMeetsNoLabel(term: string)
    requires Lacks(term, '\n')
    ensures !MeetsLabel(term)
  {
    if k: nat :| k <= |term| && StartsWithEndOf(CONTEXT_LABEL, term, k) {
      StartHoldsLast(CONTEXT_LABEL, term, k);
    }
    if k: nat :| k <= |term| && StartsWithEndOf(TASK_LABEL, term, k) {
      StartHoldsLast(TASK_LABEL, term, k);
    }
    if j: nat :| j < |term| && Agrees(TASK_LABEL, term, j) {
      AgreeingHoldsFirst(TASK_LABEL, term, j);
    }
  }

  /** A term that both texts lack is back in the fallback prompt exactly when it is part of
      the prompt's own labels or lies across a seam; without a newline it cannot, so that
      the texts do not matter. */
  lemma FallbackShowsExactlyLabels(context: string, prompt: string, term: string)
    requires !Contains(context, term) && !Contains(prompt, term)
    ensures Contains(FallbackPrompt(context, prompt), term) <==> InLabel(term) || AcrossSeam(context, prompt, term)
    ensures Lacks(term, '\n') ==> !AcrossSeam(context, prompt, term)
  {
    if Contains(FallbackPrompt(context, prompt), term) {
      FallbackOccurrence(context, prompt, term);
    }
    if InLabel(term) {
      LabelShows(context, prompt, term);
    } else if AcrossSeam(context, prompt, term) {
      SeamShows(context, prompt, term);
    }
    if AcrossSeam(context, prompt, term) {
      SeamMeetsLabel(context, prompt, term);
      if Lacks(term, '\n') {
        WithoutNewlineMeetsNoLabel(term);
      }
    }
  }

  /** The term "Task" shows in every fallback prompt. */
  lemma TaskIsShown(context: string, prompt: string)
    ensures Contains(FallbackPrompt(context, prompt), "Task")
  {
    assert OccursAt(TASK_LABEL, "Task", 2);
    LabelShows(context, prompt, "Task");
  }
}
