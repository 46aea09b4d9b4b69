/** Splitting a unified diff into hunks. */
module Hunks {
  import opened Text
  import opened Options

  /** `lines` are the raw lines after the header. The function name is set once, from the
      header, so it is a function of it here. */
  datatype Hunk = Hunk(header: string, lines: seq<string>)

  predicate IsHeader(line: string) {
    "@@ " <= line
  }

  predicate IsChanged(line: string) {
    "+" <= line || "-" <= line
  }

  /** Looks like a file header, as an added line starting with "++" also does. */
  predicate IsMarker(line: string) {
    "+++" <= line || "---" <= line
  }

  predicate IsDelta(line: string) {
    IsChanged(line) && !IsMarker(line)
  }

  /** What follows the second "@@" of a header, trimmed; empty when there is none. */
  function FuncName(h: Hunk): string {
    var i := if |h.header| < 2 then -1 else IndexFrom(h.header, "@@", 2);
    if i == -1 then "" else TrimSpace(h.header[i + 2..])
  }

  function FullContent(h: Hunk): seq<string> {
    [h.header] + h.lines
  }

  function Filter(lines: seq<string>, keep: string -> bool): seq<string> {
    if lines == [] then []
    else Filter(lines[..|lines| - 1], keep) + (if keep(lines[|lines| - 1]) then [lines[|lines| - 1]] else [])
  }

  function NameLine(h: Hunk): seq<string> {
    if FuncName(h) != "" then ["// " + FuncName(h)] else []
  }

  function OnlyChangedLines(h: Hunk): seq<string> {
    NameLine(h) + [h.header] + Filter(h.lines, IsDelta)
  }

  /** The lines before the next header. */
  function Body(lines: seq<string>): (body: seq<string>)
    ensures body <= lines
    ensures forall k | 0 <= k < |body| :: !IsHeader(body[k])
    ensures |body| < |lines| ==> IsHeader(lines[|body|])
  {
    if lines == [] || IsHeader(lines[0]) then [] else [lines[0]] + Body(lines[1..])
  }

  function FirstHunk(lines: seq<string>): Hunk
    requires lines != [] && IsHeader(lines[0])
  {
    Hunk(lines[0], Body(lines[1..]))
  }

  /** The hunks of a diff; what precedes the first header belongs to none. */
  function HunksOf(lines: seq<string>): seq<Hunk>
    decreases |lines|
  {
    if lines == [] then []
    else if IsHeader(lines[0]) then [FirstHunk(lines)] + HunksOf(lines[1 + |Body(lines[1..])|..])
    else HunksOf(lines[1..])
  }

  /** The input from its first header on. */
  function FromFirstHeader(lines: seq<string>): seq<string> {
    lines[|Body(lines)|..]
  }

  function Flatten(hunks: seq<Hunk>): seq<string> {
    if hunks == [] then [] else FullContent(hunks[0]) + Flatten(hunks[1..])
  }

  predicate WellFormed(h: Hunk) {
    && IsHeader(h.header)
    && forall k | 0 <= k < |h.lines| :: !IsHeader(h.lines[k])
  }

  predicate AllWellFormed(hunks: seq<Hunk>) {
    forall i | 0 <= i < |hunks| :: WellFormed(hunks[i])
  }

  /** Which lines open a hunk, spelt out. */
  lemma HeaderStarts(line: string)
    ensures IsHeader(line) <==> |line| >= 3 && line[0] == '@' && line[1] == '@' && line[2] == ' '
  {
  }

  /** In a header "@@ range @@ tail" the function name is the trimmed tail; without a second
      marker there is none. */
  lemma FuncNameIsTrimmedTail(range: string, tail: string)
    requires Lacks(range, '@')
    ensures FuncName(Hunk("@@ " + range + "@@" + tail, [])) == TrimSpace(tail)
    ensures FuncName(Hunk("@@ " + range, [])) == ""
  {
    var marked := "@@ " + range + "@@" + tail;
    var i := IndexFrom(marked, "@@", 2);
    NoMarkerBefore(marked, 2, 3 + |range|);
    assert OccursAt(marked, "@@", 3 + |range|);
    assert i == 3 + |range|;
    assert marked[i + 2..] == tail;
    var plain := "@@ " + range;
    NoMarkerBefore(plain, 2, |plain|);
  }

  lemma NoMarkerBefore(s: string, lo: nat, hi: nat)
    requires hi <= |s| && forall k | lo <= k < hi :: s[k] != '@'
    ensures forall j | lo <= j < hi :: !OccursAt(s, "@@", j)
    ensures hi == |s| ==> !OccursAt(s, "@@", hi)
  {
    forall j | lo <= j < hi
      ensures !OccursAt(s, "@@", j)
    {
      if j + 2 <= |s| {
        OccurrenceStarts(s, "@@", j);
      }
    }
  }

  // ------------------------------------------------------------------ parsing

  /** What the rest of the input adds while `current` is open. */
  function Continue(current: Option<Hunk>, rest: seq<string>): seq<Hunk> {
    match current
    case None => HunksOf(rest)
    case Some(h) => [h.(lines := h.lines + Body(rest))] + HunksOf(rest[|Body(rest)|..])
  }

  function Closed(current: Option<Hunk>): seq<Hunk> {
    match current case None => [] case Some(h) => [h]
  }

  function AfterLine(current: Option<Hunk>, line: string): Option<Hunk> {
    if IsHeader(line) then Some(Hunk(line, []))
    else match current case None => None case Some(h) => Some(h.(lines := h.lines + [line]))
  }

  lemma ContinueAtHeader(current: Option<Hunk>, line: string, rest: seq<string>)
    requires IsHeader(line)
    ensures Continue(current, [line] + rest) == Closed(current) + Continue(AfterLine(current, line), rest)
  {
    var all := [line] + rest;
    assert all[1..] == rest && all[0..] == all;
    assert Body(all) == [];
    assert all[1 + |Body(rest)|..] == rest[|Body(rest)|..];
    assert HunksOf(all) == [Hunk(line, Body(rest))] + HunksOf(rest[|Body(rest)|..]);
    assert [] + Body(rest) == Body(rest);
    if current.Some? {
      assert current.value.lines + [] == current.value.lines;
    }
  }

  lemma ContinueInBody(current: Option<Hunk>, line: string, rest: seq<string>)
    requires !IsHeader(line)
    ensures Continue(current, [line] + rest) == Continue(AfterLine(current, line), rest)
  {
    var all := [line] + rest;
    assert all[1..] == rest;
    assert Body(all) == [line] + Body(rest);
    assert all[|Body(all)|..] == rest[|Body(rest)|..];
    if current.Some? {
      assert current.value.lines + Body(all) == current.value.lines + [line] + Body(rest);
    }
  }

  /** The parser's variables after the given lines: the closed hunks and the open one. */
  datatype Scan = Scan(hunks: seq<Hunk>, current: Option<Hunk>)

  function ScanLine(s: Scan, line: string): Scan {
    Scan(if IsHeader(line) then s.hunks + Closed(s.current) else s.hunks, AfterLine(s.current, line))
  }

  function ScanLines(lines: seq<string>): Scan {
    if lines == [] then Scan([], None) else ScanLine(ScanLines(lines[..|lines| - 1]), lines[|lines| - 1])
  }

  lemma StepIsOnTrack(whole: seq<Hunk>, s: Scan, line: string, rest: seq<string>)
    requires whole == s.hunks + Continue(s.current, [line] + rest)
    ensures whole == ScanLine(s, line).hunks + Continue(ScanLine(s, line).current, rest)
  {
    if IsHeader(line) {
      ContinueAtHeader(s.current, line, rest);
    } else {
      ContinueInBody(s.current, line, rest);
    }
  }

  /** At every point the hunks so far and what the rest adds make up the whole. */
  lemma {:induction false} ScanIsOnTrack(lines: seq<string>, i: nat)
    requires i <= |lines|
    ensures HunksOf(lines) == ScanLines(lines[..i]).hunks + Continue(ScanLines(lines[..i]).current, lines[i..])
  {
    if i == 0 {
      assert lines[0..] == lines && lines[..0] == [];
    } else {
      ScanIsOnTrack(lines, i - 1);
      assert lines[..i][..i - 1] == lines[..i - 1];
      assert lines[i - 1..] == [lines[i - 1]] + lines[i..];
      StepIsOnTrack(HunksOf(lines), ScanLines(lines[..i - 1]), lines[i - 1], lines[i..]);
    }
  }

  lemma ScanFinds(lines: seq<string>)
    ensures ScanLines(lines).hunks + Closed(ScanLines(lines).current) == HunksOf(lines)
  {
    ScanIsOnTrack(lines, |lines|);
    assert lines[..|lines|] == lines;
    NothingContinues(ScanLines(lines).current, lines[|lines|..]);
  }

  /** One pass over the lines with at most one hunk open. */
  method ParseHunks(lines: seq<string>) returns (hunks: seq<Hunk>)
    ensures hunks == HunksOf(lines)
  {
    hunks := [];
    var current: Option<Hunk> := None;
    for i := 0 to |lines|
      invariant Scan(hunks, current) == ScanLines(lines[..i])
    {
      var line := lines[i];
      assert lines[..i + 1][..i] == lines[..i];
      if IsHeader(line) {
        if current.Some? {
          hunks := hunks + [current.value];
        }
        current := Some(Hunk(line, []));
      } else if current.Some? {
        current := Some(Hunk(current.value.header, current.value.lines + [line]));
      }
    }
    assert lines[..|lines|] == lines;
    ScanFinds(lines);
    if current.Some? {
      hunks := hunks + [current.value];
    }
  }

  lemma NothingContinues(current: Option<Hunk>, rest: seq<string>)
    requires rest == []
    ensures Continue(current, rest) == Closed(current)
  {
    if current.Some? {
      assert current.value.lines + [] == current.value.lines;
    }
  }

  // ------------------------------------------------------- partition and inverse

  lemma BodySplits(lines: seq<string>)
    ensures lines == Body(lines) + lines[|Body(lines)|..]
    ensures Body(lines[|Body(lines)|..]) == []
  {
  }

  /** The first hunk and what is left after it. */
  lemma FirstHunkSplits(lines: seq<string>)
    requires lines != [] && IsHeader(lines[0])
    ensures var rest := lines[1 + |Body(lines[1..])|..];
            lines == FullContent(FirstHunk(lines)) + rest && FromFirstHeader(rest) == rest
  {
    var tail := lines[1..];
    BodySplits(tail);
    var rest := tail[|Body(tail)|..];
    assert lines == [lines[0]] + tail;
    assert lines[1 + |Body(tail)|..] == rest;
  }

  lemma SkippedLine(lines: seq<string>)
    requires lines != [] && !IsHeader(lines[0])
    ensures FromFirstHeader(lines) == FromFirstHeader(lines[1..])
  {
    assert Body(lines) == [lines[0]] + Body(lines[1..]);
  }

  lemma FlattenCons(h: Hunk, hunks: seq<Hunk>)
    requires WellFormed(h) && AllWellFormed(hunks)
    ensures Flatten([h] + hunks) == FullContent(h) + Flatten(hunks)
    ensures AllWellFormed([h] + hunks)
  {
    assert ([h] + hunks)[1..] == hunks;
  }

  /** The hunks partition the input from its first header on, and each is well formed. */
  lemma {:induction false} HunksPartition(lines: seq<string>)
    ensures Flatten(HunksOf(lines)) == FromFirstHeader(lines)
    ensures AllWellFormed(HunksOf(lines))
    decreases |lines|
  {
    if lines == [] {
    } else if IsHeader(lines[0]) {
      var rest := lines[1 + |Body(lines[1..])|..];
      FirstHunkSplits(lines);
      HunksPartition(rest);
      FlattenCons(FirstHunk(lines), HunksOf(rest));
      assert Body(lines) == [];
    } else {
      SkippedLine(lines);
      HunksPartition(lines[1..]);
    }
  }

  lemma {:induction false} BodyStopsAtHeader(body: seq<string>, rest: seq<string>)
    requires forall k | 0 <= k < |body| :: !IsHeader(body[k])
    requires rest == [] || IsHeader(rest[0])
    ensures Body(body + rest) == body
  {
    if body == [] {
      assert body + rest == rest;
    } else {
      BodyStopsAtHeader(body[1..], rest);
      assert (body + rest)[1..] == body[1..] + rest;
    }
  }

  lemma ConsAppend(header: string, body: seq<string>, rest: seq<string>)
    ensures var all := [header] + body + rest;
            all[1..] == body + rest && all[1 + |body|..] == rest
  {
  }

  lemma FirstHunkParses(h: Hunk, rest: seq<string>)
    requires WellFormed(h)
    requires rest == [] || IsHeader(rest[0])
    ensures HunksOf(FullContent(h) + rest) == [h] + HunksOf(rest)
  {
    ConsAppend(h.header, h.lines, rest);
    BodyStopsAtHeader(h.lines, rest);
  }

  /** Printing well-formed hunks and parsing them again gives the same hunks. */
  lemma {:induction false} ParseInvertsFlatten(hunks: seq<Hunk>)
    requires AllWellFormed(hunks)
    ensures HunksOf(Flatten(hunks)) == hunks
  {
    if hunks == [] {
    } else {
      var h := hunks[0];
      var rest := Flatten(hunks[1..]);
      ParseInvertsFlatten(hunks[1..]);
      assert WellFormed(h);
      assert hunks[1..] != [] ==> WellFormed(hunks[1]);
      assert rest == [] || IsHeader(rest[0]);
      FirstHunkParses(h, rest);
      assert hunks == [h] + hunks[1..];
    }
  }

  /** So parsing what ParseHunks produced, printed back, changes nothing. */
  lemma ParseIsStable(lines: seq<string>)
    ensures HunksOf(FromFirstHeader(lines)) == HunksOf(lines)
  {
    HunksPartition(lines);
    ParseInvertsFlatten(HunksOf(lines));
  }
}
