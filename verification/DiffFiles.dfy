/** Printing file diffs as one unified diff and reading the added lines back, file by file. */
module DiffFiles {
  import opened Text

  datatype FileDiff = FileDiff(oldPath: string, newPath: string, diff: string)

  function OldLine(path: string): string { "--- a/" + path }
  function NewLine(path: string): string { "+++ b/" + path }

  /** One file of GetDiffUnified's output. */
  function PrintOne(d: FileDiff): string {
    OldLine(d.oldPath) + ['\n'] + (NewLine(d.newPath) + ['\n'] + (d.diff + ['\n']))
  }

  function Print(diffs: seq<FileDiff>): string {
    if diffs == [] then "" else Print(diffs[..|diffs| - 1]) + PrintOne(diffs[|diffs| - 1])
  }

  predicate IsFileLine(line: string) {
    "+++ b/" <= line
  }

  predicate IsAdded(line: string) {
    "+" <= line && !("+++" <= line)
  }

  predicate IsRemoved(line: string) {
    "-" <= line && !("---" <= line)
  }

  /** The printed text, spelt out: every file adds two header lines and its body, each ended
      by a newline. */
  lemma PrintedNext(diffs: seq<FileDiff>, d: FileDiff)
    ensures Print([]) == ""
    ensures Print(diffs + [d])
         == Print(diffs) + ("--- a/" + d.oldPath + "\n+++ b/" + d.newPath + "\n" + d.diff + "\n")
  {
    assert (diffs + [d])[..|diffs|] == diffs;
    PrintedFile(d);
  }

  lemma PrintedFile(d: FileDiff)
    ensures PrintOne(d) == "--- a/" + d.oldPath + "\n+++ b/" + d.newPath + "\n" + d.diff + "\n"
  {
  }

  /** Which lines count, spelt out: those with a sign not followed by two more of its kind. */
  lemma SignDecides(line: string)
    ensures IsAdded(line) <==> |line| >= 1 && line[0] == '+' && !(|line| >= 3 && line[1] == '+' && line[2] == '+')
    ensures IsRemoved(line) <==> |line| >= 1 && line[0] == '-' && !(|line| >= 3 && line[1] == '-' && line[2] == '-')
  {
  }

  // ------------------------------------------------------------------ parsing

  /** The parser's variables: the map so far, the open file and its added text. */
  datatype Scan = Scan(files: map<string, string>, current: string, buffer: string)

  function Flush(s: Scan): map<string, string> {
    if s.current != "" && s.buffer != "" then s.files[s.current := s.buffer] else s.files
  }

  function ScanLine(s: Scan, line: string): Scan {
    if IsFileLine(line) then
      Scan(Flush(s), line[6..], if s.current != "" && s.buffer != "" then "" else s.buffer)
    else if s.current != "" && IsAdded(line) then
      s.(buffer := s.buffer + line[1..] + ['\n'])
    else s
  }

  function ScanLines(s: Scan, lines: seq<string>): Scan {
    if lines == [] then s
    else ScanLine(ScanLines(s, lines[..|lines| - 1]), lines[|lines| - 1])
  }

  const START := Scan(map[], "", "")

  function ParsedFiles(diff: string): map<string, string> {
    Flush(ScanLines(START, Split(diff, '\n')))
  }

  method ParseDiffFiles(diff: string) returns (files: map<string, string>)
    ensures files == ParsedFiles(diff)
  {
    files := map[];
    var currentFile := "";
    var buffer := "";
    var lines := Split(diff, '\n');
    for i := 0 to |lines|
      invariant Scan(files, currentFile, buffer) == ScanLines(START, lines[..i])
    {
      assert lines[..i + 1][..i] == lines[..i];
      var line := lines[i];
      if IsFileLine(line) {
        if currentFile != "" && buffer != "" {
          files := files[currentFile := buffer];
          buffer := "";
        }
        currentFile := line[6..];
      } else if currentFile != "" && IsAdded(line) {
        buffer := buffer + line[1..] + ['\n'];
      }
    }
    assert lines[..|lines|] == lines;
    if currentFile != "" && buffer != "" {
      files := files[currentFile := buffer];
    }
  }

  // -------------------------------------------------------------- the print side

  /** The added lines of a body, stripped of their sign and joined again. */
  function AddedText(lines: seq<string>): string {
    if lines == [] then ""
    else
      var line := lines[|lines| - 1];
      AddedText(lines[..|lines| - 1]) + (if IsAdded(line) then line[1..] + ['\n'] else "")
  }

  function Additions(d: FileDiff): string {
    AddedText(Split(d.diff, '\n'))
  }

  function Overlaid(files: map<string, string>, d: FileDiff): map<string, string> {
    if d.newPath != "" && Additions(d) != "" then files[d.newPath := Additions(d)] else files
  }

  /** What a reader of the printed diffs expects: every file with additions and a name,
      a later diff of the same path replacing an earlier one. */
  function Overlay(diffs: seq<FileDiff>): map<string, string> {
    if diffs == [] then map[] else Overlaid(Overlay(diffs[..|diffs| - 1]), diffs[|diffs| - 1])
  }

  ghost predicate Printable(d: FileDiff) {
    && Lacks(d.oldPath, '\n') && Lacks(d.newPath, '\n')
    && forall k | 0 <= k < |Split(d.diff, '\n')| :: !IsFileLine(Split(d.diff, '\n')[k])
  }

  ghost predicate AllPrintable(diffs: seq<FileDiff>) {
    forall i | 0 <= i < |diffs| :: Printable(diffs[i])
  }

  lemma MarkerLines(path: string)
    ensures !IsFileLine(OldLine(path)) && !IsAdded(OldLine(path)) && !IsRemoved(OldLine(path))
    ensures IsFileLine(NewLine(path)) && NewLine(path)[6..] == path
    ensures !IsAdded(NewLine(path)) && !IsRemoved(NewLine(path))
    ensures !IsAdded("") && !IsRemoved("") && !IsFileLine("")
  {
    assert OldLine(path)[0] == '-' && OldLine(path)[..3] == "---";
    assert NewLine(path)[0] == '+' && NewLine(path)[..3] == "+++" && NewLine(path)[..6] == "+++ b/";
  }

  /** The lines of one printed file. */
  function Block(d: FileDiff): seq<string> {
    [OldLine(d.oldPath), NewLine(d.newPath)] + Split(d.diff, '\n')
  }

  function Blocks(diffs: seq<FileDiff>): seq<string> {
    if diffs == [] then [] else Blocks(diffs[..|diffs| - 1]) + Block(diffs[|diffs| - 1])
  }

  lemma SplitPrintOne(d: FileDiff)
    requires Lacks(d.oldPath, '\n') && Lacks(d.newPath, '\n')
    ensures Split(PrintOne(d), '\n') == Block(d) + [""]
  {
    var body := d.diff + ['\n'];
    assert body == d.diff + ['\n'] + "";
    SplitAtSeparator(d.diff, "", '\n');
    SplitLine(NewLine(d.newPath), body, '\n');
    SplitLine(OldLine(d.oldPath), NewLine(d.newPath) + ['\n'] + body, '\n');
    PutTogether(OldLine(d.oldPath), NewLine(d.newPath), Split(d.diff, '\n'), [""]);
  }

  lemma PutTogether(a: string, b: string, c: seq<string>, d: seq<string>)
    ensures [a] + ([b] + (c + d)) == [a, b] + c + d
  {
  }

  lemma PrintEndsWithNewline(diffs: seq<FileDiff>)
    ensures diffs != [] ==> Print(diffs) != "" && Print(diffs)[|Print(diffs)| - 1] == '\n'
  {
    if diffs != [] {
      var one := PrintOne(diffs[|diffs| - 1]);
      assert one[|one| - 1] == '\n';
    }
  }

  lemma SplitAfterFront(front: string, b: string, lines: seq<string>)
    requires Split(front + ['\n'], '\n') == lines + [""]
    ensures Split(front + ['\n'] + b, '\n') == lines + Split(b, '\n')
  {
    assert front + ['\n'] == front + ['\n'] + "";
    SplitAtSeparator(front, "", '\n');
    assert lines == (lines + [""])[..|lines|] == Split(front, '\n');
    SplitAtSeparator(front, b, '\n');
  }

  /** Appending after a final newline, or to nothing, appends the lines. */
  lemma SplitAfterNewline(a: string, b: string, lines: seq<string>)
    requires a == "" || a[|a| - 1] == '\n'
    requires Split(a, '\n') == lines + [""]
    ensures Split(a + b, '\n') == lines + Split(b, '\n')
  {
    if a == "" {
      assert |lines| == 0;
      assert a + b == b;
    } else {
      assert a == a[..|a| - 1] + ['\n'];
      SplitAfterFront(a[..|a| - 1], b, lines);
    }
  }

  lemma BlocksSnoc(before: seq<string>, block: seq<string>)
    ensures before + (block + [""]) == (before + block) + [""]
  {
  }

  lemma {:induction false} SplitPrint(diffs: seq<FileDiff>)
    requires AllPrintable(diffs)
    ensures Split(Print(diffs), '\n') == Blocks(diffs) + [""]
  {
    if diffs != [] {
      var n := |diffs| - 1;
      assert Printable(diffs[n]);
      SplitPrint(diffs[..n]);
      SplitPrintOne(diffs[n]);
      PrintEndsWithNewline(diffs[..n]);
      SplitAfterNewline(Print(diffs[..n]), PrintOne(diffs[n]), Blocks(diffs[..n]));
      BlocksSnoc(Blocks(diffs[..n]), Block(diffs[n]));
    }
  }

  // -------------------------------------------------------------- the round trip

  lemma {:induction false} ScanConcat(s: Scan, a: seq<string>, b: seq<string>)
    ensures ScanLines(s, a + b) == ScanLines(ScanLines(s, a), b)
  {
    if b == [] {
      assert a + b == a;
    } else {
      var n := |b| - 1;
      ScanConcat(s, a, b[..n]);
      assert (a + b)[..|a| + n] == a + b[..n];
    }
  }

  lemma AppendInTwoSteps(a: string, b: string, line: string)
    ensures (a + b) + line + ['\n'] == a + (b + (line + ['\n']))
  {
  }

  lemma {:induction false} ScanBody(s: Scan, lines: seq<string>)
    requires forall k | 0 <= k < |lines| :: !IsFileLine(lines[k])
    ensures ScanLines(s, lines) == s.(buffer := if s.current == "" then s.buffer else s.buffer + AddedText(lines))
  {
    if lines == [] {
      assert s.buffer + "" == s.buffer;
    } else {
      var n := |lines| - 1;
      ScanBody(s, lines[..n]);
      if IsAdded(lines[n]) {
        AppendInTwoSteps(s.buffer, AddedText(lines[..n]), lines[n][1..]);
      } else {
        assert AddedText(lines[..n]) + "" == AddedText(lines[..n]);
      }
    }
  }

  lemma ScanBlock(s: Scan, d: FileDiff)
    requires Printable(d)
    requires s.current == "" ==> s.buffer == ""
    ensures ScanLines(s, Block(d)) == Scan(Flush(s), d.newPath, if d.newPath == "" then "" else Additions(d))
  {
    MarkerLines(d.oldPath);
    MarkerLines(d.newPath);
    var front := [OldLine(d.oldPath), NewLine(d.newPath)];
    assert front[..1] == [OldLine(d.oldPath)] && front[..1][..0] == [];
    ScanConcat(s, front, Split(d.diff, '\n'));
    var headed := Scan(Flush(s), d.newPath, "");
    assert ScanLines(s, front[..1]) == s;
    assert ScanLines(s, front) == headed;
    ScanBody(headed, Split(d.diff, '\n'));
    assert "" + Additions(d) == Additions(d);
  }

  /** The parser would finish with these files. */
  predicate Yields(s: Scan, files: map<string, string>) {
    Flush(s) == files && (s.current == "" ==> s.buffer == "")
  }

  lemma ScanBlockYields(s: Scan, d: FileDiff, files: map<string, string>, s': Scan)
    requires Printable(d) && Yields(s, files) && s' == ScanLines(s, Block(d))
    ensures Yields(s', Overlaid(files, d))
  {
    ScanBlock(s, d);
  }

  lemma {:induction false} ScanBlocks(diffs: seq<FileDiff>)
    requires AllPrintable(diffs)
    ensures Yields(ScanLines(START, Blocks(diffs)), Overlay(diffs))
  {
    if diffs == [] {
    } else {
      var n := |diffs| - 1;
      var front, block := Blocks(diffs[..n]), Block(diffs[n]);
      assert Printable(diffs[n]);
      ScanBlocks(diffs[..n]);
      ScanConcat(START, front, block);
      assert Blocks(diffs) == front + block;
      ScanBlockYields(ScanLines(START, front), diffs[n], Overlay(diffs[..n]), ScanLines(START, front + block));
    }
  }

  /** Print/parse round trip: reading printed diffs back gives each named file its
      additions, the last diff of a path winning. */
  lemma {:induction false} PrintParseRoundTrip(diffs: seq<FileDiff>)
    requires AllPrintable(diffs)
    ensures ParsedFiles(Print(diffs)) == Overlay(diffs)
  {
    SplitPrint(diffs);
    ScanBlocks(diffs);
    ScanConcat(START, Blocks(diffs), [""]);
    MarkerLines("");
    assert [""][..0] == [];
  }

  // --------------------------------------------------------------- conservation

  function CountIf(lines: seq<string>, p: string -> bool): nat {
    if lines == [] then 0
    else CountIf(lines[..|lines| - 1], p) + (if p(lines[|lines| - 1]) then 1 else 0)
  }

  /** The stub analyser's counters. */
  method Analyse(diff: string) returns (added: nat, removed: nat)
    ensures added == CountIf(Split(diff, '\n'), IsAdded)
    ensures removed == CountIf(Split(diff, '\n'), IsRemoved)
  {
    var lines := Split(diff, '\n');
    added, removed := 0, 0;
    for i := 0 to |lines|
      invariant added == CountIf(lines[..i], IsAdded)
      invariant removed == CountIf(lines[..i], IsRemoved)
    {
      assert lines[..i + 1][..i] == lines[..i];
      if IsAdded(lines[i]) {
        added := added + 1;
        assert lines[i][0] == '+';
      } else if IsRemoved(lines[i]) {
        removed := removed + 1;
      }
    }
    assert lines[..|lines|] == lines;
  }

  function Newlines(s: string): nat {
    if s == "" then 0 else Newlines(s[..|s| - 1]) + (if s[|s| - 1] == '\n' then 1 else 0)
  }

  /** How many lines a map of file texts holds. */
  ghost function LinesIn(files: map<string, string>): nat {
    if files == map[] then 0
    else
      var path :| path in files;
      Newlines(files[path]) + LinesIn(files - {path})
  }

  lemma {:induction false} LinesInRemove(files: map<string, string>, path: string)
    requires path in files
    ensures LinesIn(files) == Newlines(files[path]) + LinesIn(files - {path})
    decreases |files|
  {
    var picked :| picked in files && LinesIn(files) == Newlines(files[picked]) + LinesIn(files - {picked});
    if picked != path {
      LinesInRemove(files - {picked}, path);
      LinesInRemove(files - {path}, picked);
      assert files - {picked} - {path} == files - {path} - {picked};
    }
  }

  lemma LinesInUpdate(files: map<string, string>, path: string, text: string)
    ensures LinesIn(files[path := text]) + (if path in files then Newlines(files[path]) else 0)
         == LinesIn(files) + Newlines(text)
  {
    var updated := files[path := text];
    LinesInRemove(updated, path);
    assert updated - {path} == files - {path};
    if path in files {
      LinesInRemove(files, path);
    } else {
      assert files - {path} == files;
    }
  }

  lemma {:induction false} NewlinesConcat(a: string, b: string)
    ensures Newlines(a + b) == Newlines(a) + Newlines(b)
  {
    if b == "" {
      assert a + b == a;
    } else {
      NewlinesConcat(a, b[..|b| - 1]);
      assert (a + b)[..|a + b| - 1] == a + b[..|b| - 1];
    }
  }

  lemma {:induction false} NoNewlines(s: string)
    requires Lacks(s, '\n')
    ensures Newlines(s) == 0
  {
    if s != "" {
      NoNewlines(s[..|s| - 1]);
    }
  }

  lemma {:induction false} AddedTextLines(lines: seq<string>)
    requires AllLack(lines, '\n')
    ensures Newlines(AddedText(lines)) == CountIf(lines, IsAdded)
    ensures AddedText(lines) == "" <==> CountIf(lines, IsAdded) == 0
  {
    if lines != [] {
      var n := |lines| - 1;
      AddedTextLines(lines[..n]);
      if IsAdded(lines[n]) {
        var line := lines[n][1..];
        NoNewlines(line);
        NewlinesConcat(line, ['\n']);
        NewlinesConcat(AddedText(lines[..n]), line + ['\n']);
        assert ['\n'][..0] == "";
      } else {
        assert AddedText(lines[..n]) + "" == AddedText(lines[..n]);
      }
    }
  }

  lemma {:induction false} CountIfConcat(a: seq<string>, b: seq<string>, p: string -> bool)
    ensures CountIf(a + b, p) == CountIf(a, p) + CountIf(b, p)
  {
    if b == [] {
      assert a + b == a;
    } else {
      CountIfConcat(a, b[..|b| - 1], p);
      assert (a + b)[..|a + b| - 1] == a + b[..|b| - 1];
    }
  }

  function AddedIn(d: FileDiff): nat {
    CountIf(Split(d.diff, '\n'), IsAdded)
  }

  function AddedInAll(diffs: seq<FileDiff>): nat {
    if diffs == [] then 0 else AddedInAll(diffs[..|diffs| - 1]) + AddedIn(diffs[|diffs| - 1])
  }

  lemma AdditionsCount(d: FileDiff)
    ensures Newlines(Additions(d)) == AddedIn(d)
    ensures Additions(d) == "" <==> AddedIn(d) == 0
  {
    SplitPartsLackSeparator(d.diff, '\n');
    AddedTextLines(Split(d.diff, '\n'));
  }

  lemma CountBlock(d: FileDiff)
    ensures CountIf(Block(d), IsAdded) == AddedIn(d)
  {
    var front := [OldLine(d.oldPath), NewLine(d.newPath)];
    CountIfConcat(front, Split(d.diff, '\n'), IsAdded);
    MarkerLines(d.oldPath);
    MarkerLines(d.newPath);
    assert front[..1] == [OldLine(d.oldPath)] && front[..1][..0] == [];
    assert CountIf(front[..1], IsAdded) == 0;
  }

  /** The stub's `added` counter over printed diffs counts the additions of the bodies. */
  lemma {:induction false} CountBlocks(diffs: seq<FileDiff>)
    ensures CountIf(Blocks(diffs), IsAdded) == AddedInAll(diffs)
  {
    if diffs != [] {
      var n := |diffs| - 1;
      CountBlocks(diffs[..n]);
      CountBlock(diffs[n]);
      CountIfConcat(Blocks(diffs[..n]), Block(diffs[n]), IsAdded);
    }
  }

  lemma CountPrinted(diffs: seq<FileDiff>)
    requires AllPrintable(diffs)
    ensures CountIf(Split(Print(diffs), '\n'), IsAdded) == AddedInAll(diffs)
  {
    SplitPrint(diffs);
    CountBlocks(diffs);
    CountIfConcat(Blocks(diffs), [""], IsAdded);
    MarkerLines("");
    assert [""][..0] == [];
  }

  /** Some diff with additions has no new path, or a later one with additions shares it. */
  predicate Clash(diffs: seq<FileDiff>) {
    exists i | 0 <= i < |diffs| :: AddedIn(diffs[i]) > 0 && Shadowed(diffs, i)
  }

  predicate Shadowed(diffs: seq<FileDiff>, i: nat)
    requires i < |diffs|
  {
    diffs[i].newPath == "" ||
    exists j | i < j < |diffs| :: diffs[j].newPath == diffs[i].newPath && AddedIn(diffs[j]) > 0
  }

  lemma {:induction false} OverlayKeys(diffs: seq<FileDiff>, path: string)
    ensures path in Overlay(diffs) <==>
            path != "" && exists i | 0 <= i < |diffs| :: diffs[i].newPath == path && AddedIn(diffs[i]) > 0
    ensures path in Overlay(diffs) ==> Newlines(Overlay(diffs)[path]) > 0
  {
    if diffs != [] {
      var n := |diffs| - 1;
      OverlayKeys(diffs[..n], path);
      AdditionsCount(diffs[n]);
      if i :| 0 <= i < n && diffs[..n][i].newPath == path && AddedIn(diffs[..n][i]) > 0 {
        assert diffs[i].newPath == path;
      }
      if i :| 0 <= i <= n && diffs[i].newPath == path && AddedIn(diffs[i]) > 0 {
        assert i < n ==> diffs[..n][i] == diffs[i];
      }
    }
  }

  lemma ShadowedEarlier(diffs: seq<FileDiff>, i: nat)
    requires i < |diffs| - 1
    ensures var n := |diffs| - 1;
            Shadowed(diffs, i)
            <==> Shadowed(diffs[..n], i) || (diffs[n].newPath == diffs[i].newPath && AddedIn(diffs[n]) > 0)
  {
    var n := |diffs| - 1;
    assert diffs[..n][i] == diffs[i];
    if diffs[i].newPath != "" {
      if j :| i < j < |diffs| && diffs[j].newPath == diffs[i].newPath && AddedIn(diffs[j]) > 0 {
        assert j < n ==> diffs[..n][j] == diffs[j];
      }
      if j :| i < j < n && diffs[..n][j].newPath == diffs[i].newPath && AddedIn(diffs[..n][j]) > 0 {
        assert diffs[j].newPath == diffs[i].newPath;
      }
    }
  }

  /** The last diff adds a clash exactly when it shadows an earlier one or has no path. */
  lemma ClashSnoc(diffs: seq<FileDiff>)
    requires diffs != []
    ensures var n := |diffs| - 1;
            var d := diffs[n];
            Clash(diffs)
            <==> Clash(diffs[..n]) || (AddedIn(d) > 0 && (d.newPath == "" || d.newPath in Overlay(diffs[..n])))
  {
    var n := |diffs| - 1;
    var d := diffs[n];
    var before := diffs[..n];
    OverlayKeys(before, d.newPath);
    if i :| 0 <= i <= n && AddedIn(diffs[i]) > 0 && Shadowed(diffs, i) {
      if i < n {
        assert before[i] == diffs[i];
        ShadowedEarlier(diffs, i);
      }
    }
    if i :| 0 <= i < n && AddedIn(before[i]) > 0 && Shadowed(before, i) {
      ShadowedEarlier(diffs, i);
      assert AddedIn(diffs[i]) > 0;
    }
    if AddedIn(d) > 0 && d.newPath == "" {
      assert Shadowed(diffs, n);
    } else if AddedIn(d) > 0 && d.newPath in Overlay(before) {
      var i :| 0 <= i < n && before[i].newPath == d.newPath && AddedIn(before[i]) > 0;
      ShadowedEarlier(diffs, i);
      assert AddedIn(diffs[i]) > 0;
    }
  }

  lemma {:induction false} OverlayLines(diffs: seq<FileDiff>)
    ensures LinesIn(Overlay(diffs)) <= AddedInAll(diffs)
    ensures LinesIn(Overlay(diffs)) == AddedInAll(diffs) <==> !Clash(diffs)
  {
    if diffs != [] {
      var n := |diffs| - 1;
      var d := diffs[n];
      var earlier := Overlay(diffs[..n]);
      OverlayLines(diffs[..n]);
      AdditionsCount(d);
      ClashSnoc(diffs);
      OverlayKeys(diffs[..n], d.newPath);
      LinesInUpdate(earlier, d.newPath, Additions(d));
    }
  }

  /** Conservation: the parsed files hold as many lines as the analyser counts as added,
      exactly when no diff with additions lacks a path or is shadowed by a later one. */
  lemma {:induction false} LinesConservedExactlyWhenNoClash(diffs: seq<FileDiff>)
    requires AllPrintable(diffs)
    ensures LinesIn(ParsedFiles(Print(diffs))) == CountIf(Split(Print(diffs), '\n'), IsAdded) <==> !Clash(diffs)
  {
    PrintParseRoundTrip(diffs);
    CountPrinted(diffs);
    OverlayLines(diffs);
  }

  /** Two diffs of one path: both additions are counted, only the later one is read back. */
  lemma ShadowedLineIsLost()
    ensures var diffs := [FileDiff("a", "a", "+x"), FileDiff("a", "a", "+y")];
            && AllPrintable(diffs) && Clash(diffs)
            && CountIf(Split(Print(diffs), '\n'), IsAdded) == 2
            && ParsedFiles(Print(diffs)) == map["a" := "y\n"]
  {
    var d, e := FileDiff("a", "a", "+x"), FileDiff("a", "a", "+y");
    OneAddedLine("+x");
    OneAddedLine("+y");
    assert Additions(d) == "x\n" && Additions(e) == "y\n";
    assert [d, e][..1] == [d] && [d][..0] == [];
    assert AddedInAll([d]) == 1 && AddedInAll([d, e]) == 2;
    assert Shadowed([d, e], 0);
    assert Overlay([d]) == map["a" := "x\n"];
    assert Overlay([d, e]) == map["a" := "y\n"];
    PrintParseRoundTrip([d, e]);
    CountPrinted([d, e]);
  }

  lemma OneAddedLine(line: string)
    requires IsAdded(line) && |line| == 2 && line[1] != '\n'
    ensures Split(line, '\n') == [line] && AddedText([line]) == [line[1]] + ['\n'] && CountIf([line], IsAdded) == 1
  {
    assert line[0] == '+';
    SplitOne(line, '\n');
    assert [line][..0] == [];
    assert line[1..] == [line[1]];
  }

  lemma {:induction false} OverlayHasDistinctPaths(diffs: seq<FileDiff>, i: nat)
    requires i < |diffs| && diffs[i].newPath != ""
    requires forall j, k | 0 <= j < k < |diffs| :: diffs[j].newPath != diffs[k].newPath
    ensures diffs[i].newPath in Overlay(diffs) <==> AddedIn(diffs[i]) > 0
    ensures AddedIn(diffs[i]) > 0 ==> Overlay(diffs)[diffs[i].newPath] == Additions(diffs[i])
  {
    var n := |diffs| - 1;
    AdditionsCount(diffs[n]);
    if i < n {
      OverlayHasDistinctPaths(diffs[..n], i);
    } else {
      OverlayKeys(diffs[..n], diffs[n].newPath);
    }
  }

  /** With distinct non-empty paths every file with additions is found under its own path
      with exactly its added lines. */
  lemma DistinctPathsRoundTrip(diffs: seq<FileDiff>, i: nat)
    requires AllPrintable(diffs)
    requires i < |diffs| && diffs[i].newPath != ""
    requires forall j, k | 0 <= j < k < |diffs| :: diffs[j].newPath != diffs[k].newPath
    ensures var files := ParsedFiles(Print(diffs));
            && (diffs[i].newPath in files <==> AddedIn(diffs[i]) > 0)
            && (AddedIn(diffs[i]) > 0 ==> files[diffs[i].newPath] == Additions(diffs[i]))
  {
    PrintParseRoundTrip(diffs);
    OverlayHasDistinctPaths(diffs, i);
  }
}
