/** Shrinking a large diff for the prompt: hunks that touch security-sensitive code are
    kept whole, of the others only the changed lines stay. The facts about the output hold
    for every way `risky` of telling sensitive hunks; the code's own is IsRisky. */
module Compression {
  import opened Hunks
  import opened Text

  function LowerChar(c: char): char {
    if 'A' <= c <= 'Z' then (c as int + 32) as char else c
  }

  function ToLower(s: string): string {
    seq(|s|, k requires 0 <= k < |s| => LowerChar(s[k]))
  }

  const RISK_KEYWORDS := [
    "encrypt", "decrypt", "cipher", "key", "hash", "signing",
    "select", "insert", "update", "delete", "execute", "prepare",
    "password", "token", "permission", "role", "admin", "access",
    "truncate", "drop", "delete where", "cascade",
    "exec", "system", "shell", "command"]

  /** Some keyword occurs in the hunk, in any case. The source visits the keywords in an
      arbitrary order, which cannot matter here. */
  predicate IsRisky(h: Hunk) {
    var content := ToLower(Join(FullContent(h), '\n'));
    exists i | 0 <= i < |RISK_KEYWORDS| :: Contains(content, RISK_KEYWORDS[i])
  }

  function Compressed(h: Hunk, risky: Hunk -> bool): seq<string> {
    if risky(h) then FullContent(h) else OnlyChangedLines(h)
  }

  /** The lines that `f` makes of each hunk, joined together. */
  function FlatMap(hunks: seq<Hunk>, f: Hunk -> seq<string>): seq<string> {
    if hunks == [] then [] else FlatMap(hunks[..|hunks| - 1], f) + f(hunks[|hunks| - 1])
  }

  function Compressor(risky: Hunk -> bool): Hunk -> seq<string> {
    h => Compressed(h, risky)
  }

  function OutputLines(hunks: seq<Hunk>, risky: Hunk -> bool): seq<string> {
    FlatMap(hunks, Compressor(risky))
  }

  const NOTICE := "\n... [Diff Truncated due to size limits] ..."

  /** The hard cut. Sizes are bytes, four to a token. */
  function Cut(text: string, maxTokens: nat): string {
    if |text| / 4 > maxTokens then text[..maxTokens * 4] + NOTICE else text
  }

  /** The compressed text before the cut. */
  function Whole(diff: string, risky: Hunk -> bool): string {
    Join(OutputLines(HunksOf(Split(diff, '\n')), risky), '\n')
  }

  lemma OutputUpTo(hunks: seq<Hunk>, i: nat, risky: Hunk -> bool)
    requires i < |hunks|
    ensures OutputLines(hunks[..i + 1], risky) == OutputLines(hunks[..i], risky)
              + (if risky(hunks[i]) then FullContent(hunks[i]) else OnlyChangedLines(hunks[i]))
  {
    assert hunks[..i + 1][..i] == hunks[..i];
  }

  // --------------------------------------------------- what makes a hunk sensitive

  /** The same letter, or a its capital. */
  predicate SameLetter(a: char, b: char) {
    a == b || ('A' <= a <= 'Z' && b as int == a as int + 32)
  }

  /** The word stands in the line at position i, in any mix of case. */
  predicate ReadsAt(line: string, word: string, i: nat) {
    i + |word| <= |line| && forall k | 0 <= k < |word| :: SameLetter(line[i + k], word[k])
  }

  predicate Reads(line: string, word: string) {
    exists i: nat | i <= |line| :: ReadsAt(line, word, i)
  }

  predicate LineIsSensitive(line: string) {
    exists word | word in [
                    "encrypt", "decrypt", "cipher", "key", "hash", "signing",
                    "select", "insert", "update", "delete", "execute", "prepare",
                    "password", "token", "permission", "role", "admin", "access",
                    "truncate", "drop", "delete where", "cascade",
                    "exec", "system", "shell", "command"] :: Reads(line, word)
  }

  /** The header or some line of the hunk holds one of the words. */
  predicate HunkIsSensitive(h: Hunk) {
    LineIsSensitive(h.header) || exists k | 0 <= k < |h.lines| :: LineIsSensitive(h.lines[k])
  }

  /** A sensitive hunk whole; of any other the name line, the header and the changed lines
      that do not start with three signs. */
  function Shrunk(h: Hunk): seq<string> {
    if HunkIsSensitive(h) then [h.header] + h.lines
    else
      (if FuncName(h) != "" then ["// " + FuncName(h)] else []) + [h.header]
      + Filter(h.lines, line => |line| >= 1 && (line[0] == '+' || line[0] == '-')
                                && !(|line| >= 3 && line[0] == line[1] == line[2]))
  }

  predicate PlainWord(word: string) {
    word != "" && forall k | 0 <= k < |word| :: word[k] == ' ' || 'a' <= word[k] <= 'z'
  }

  lemma WordsArePlain()
    ensures forall i | 0 <= i < |RISK_KEYWORDS| :: PlainWord(RISK_KEYWORDS[i])
  {
  }

  /** Searching a text in lower case finds the word in any mix of case. */
  lemma LowerFinds(line: string, word: string)
    requires PlainWord(word)
    ensures Contains(ToLower(line), word) <==> Reads(line, word)
  {
    var lower := ToLower(line);
    if i :| 0 <= i <= |lower| && OccursAt(lower, word, i) {
      forall k | 0 <= k < |word|
        ensures SameLetter(line[i + k], word[k])
      {
        assert lower[i..i + |word|][k] == lower[i + k] == LowerChar(line[i + k]);
      }
      assert ReadsAt(line, word, i);
    }
    if i: nat :| i <= |line| && ReadsAt(line, word, i) {
      forall k | 0 <= k < |word|
        ensures lower[i + k] == word[k]
      {
        assert SameLetter(line[i + k], word[k]) && lower[i + k] == LowerChar(line[i + k]);
      }
      assert lower[i..i + |word|] == word;
      assert OccursAt(lower, word, i);
    }
  }

  lemma ToLowerConcat(a: string, b: string)
    ensures ToLower(a + ['\n'] + b) == ToLower(a) + ['\n'] + ToLower(b)
  {
  }

  lemma OccursBesideNewline(a: string, b: string, u: string)
    requires Lacks(u, '\n') && u != ""
    ensures Contains(a + ['\n'] + b, u) <==> Contains(a, u) || Contains(b, u)
  {
    var s := a + ['\n'] + b;
    if i :| 0 <= i <= |s| && OccursAt(s, u, i) {
      assert forall p | i <= p < i + |u| :: s[p] == s[i..i + |u|][p - i] == u[p - i];
      assert s[|a|] == '\n';
      assert !(i <= |a| < i + |u|);
      if i + |u| <= |a| {
        assert s == a + (['\n'] + b);
        OccursInFront(a, ['\n'] + b, u, i);
      } else {
        OccursInBack(a + ['\n'], b, u, i);
      }
    }
    if i :| 0 <= i <= |a| && OccursAt(a, u, i) {
      assert s[i..i + |u|] == a[i..i + |u|];
      assert OccursAt(s, u, i);
    }
    if i :| 0 <= i <= |b| && OccursAt(b, u, i) {
      assert s[|a| + 1 + i..|a| + 1 + i + |u|] == b[i..i + |u|];
      assert OccursAt(s, u, |a| + 1 + i);
    }
  }

  /** A word without a newline occurs in joined lines exactly when it occurs in one of them. */
  lemma {:induction false} LowerJoinFinds(lines: seq<string>, word: string)
    requires PlainWord(word)
    ensures Contains(ToLower(Join(lines, '\n')), word) <==> exists k | 0 <= k < |lines| :: Reads(lines[k], word)
  {
    if lines == [] {
      assert ToLower("") == "";
    } else if |lines| == 1 {
      LowerFinds(lines[0], word);
    } else {
      var rest := Join(lines[1..], '\n');
      LowerJoinFinds(lines[1..], word);
      ToLowerConcat(lines[0], rest);
      OccursBesideNewline(ToLower(lines[0]), ToLower(rest), word);
      LowerFinds(lines[0], word);
      assert forall k | 1 <= k < |lines| :: lines[k] == lines[1..][k - 1];
      assert forall k | 0 <= k < |lines| - 1 :: lines[1..][k] == lines[k + 1];
    }
  }

  lemma WordsAreTheKeywords(line: string)
    ensures LineIsSensitive(line) <==> exists i | 0 <= i < |RISK_KEYWORDS| :: Reads(line, RISK_KEYWORDS[i])
  {
  }

  /** A hunk is judged sensitive exactly when its header or one of its lines holds a word. */
  lemma RiskyExactlyWhenSensitive(h: Hunk)
    ensures IsRisky(h) <==> HunkIsSensitive(h)
  {
    var all := FullContent(h);
    WordsArePlain();
    forall i | 0 <= i < |RISK_KEYWORDS|
      ensures Contains(ToLower(Join(all, '\n')), RISK_KEYWORDS[i])
              <==> exists k | 0 <= k < |all| :: Reads(all[k], RISK_KEYWORDS[i])
    {
      LowerJoinFinds(all, RISK_KEYWORDS[i]);
    }
    SensitiveLines(h);
  }

  lemma SensitiveLines(h: Hunk)
    ensures HunkIsSensitive(h)
            <==> exists i, k | 0 <= i < |RISK_KEYWORDS| && 0 <= k < |FullContent(h)| ::
                   Reads(FullContent(h)[k], RISK_KEYWORDS[i])
  {
    var all := FullContent(h);
    assert all[0] == h.header && forall k | 0 <= k < |h.lines| :: all[k + 1] == h.lines[k];
    forall k | 0 <= k < |all|
      ensures LineIsSensitive(all[k]) <==> exists i | 0 <= i < |RISK_KEYWORDS| :: Reads(all[k], RISK_KEYWORDS[i])
    {
      WordsAreTheKeywords(all[k]);
    }
    assert HunkIsSensitive(h) <==> exists k | 0 <= k < |all| :: LineIsSensitive(all[k]);
  }

  lemma {:induction false} FilterByEqual(lines: seq<string>, p: string -> bool, q: string -> bool)
    requires forall l :: p(l) <==> q(l)
    ensures Filter(lines, p) == Filter(lines, q)
  {
    if lines != [] {
      FilterByEqual(lines[..|lines| - 1], p, q);
    }
  }

  lemma ShrunkIsCompressed(h: Hunk)
    ensures Compressed(h, IsRisky) == Shrunk(h)
  {
    RiskyExactlyWhenSensitive(h);
    var plain := (line: string) => |line| >= 1 && (line[0] == '+' || line[0] == '-')
                                   && !(|line| >= 3 && line[0] == line[1] == line[2]);
    forall l: string
      ensures IsDelta(l) <==> plain(l)
    {
      DeltaBySigns(l);
    }
    FilterByEqual(h.lines, IsDelta, plain);
  }

  lemma DeltaBySigns(line: string)
    ensures IsDelta(line) <==> |line| >= 1 && (line[0] == '+' || line[0] == '-')
                               && !(|line| >= 3 && line[0] == line[1] == line[2])
  {
  }

  lemma {:induction false} ShrunkAll(hunks: seq<Hunk>)
    ensures OutputLines(hunks, IsRisky) == FlatMap(hunks, Shrunk)
  {
    if hunks != [] {
      ShrunkAll(hunks[..|hunks| - 1]);
      ShrunkIsCompressed(hunks[|hunks| - 1]);
    }
  }

  /** The output lines of the hunks, one hunk after the other. */
  method CompressHunks(hunks: seq<Hunk>) returns (output: seq<string>)
    ensures output == OutputLines(hunks, IsRisky)
    ensures output == FlatMap(hunks, Shrunk)
  {
    ShrunkAll(hunks);
    output := [];
    for i := 0 to |hunks|
      invariant output == OutputLines(hunks[..i], IsRisky)
    {
      OutputUpTo(hunks, i, IsRisky);
      if IsRisky(hunks[i]) {
        output := output + FullContent(hunks[i]);
      } else {
        output := output + OnlyChangedLines(hunks[i]);
      }
    }
    assert hunks[..|hunks|] == hunks;
  }

  method SmartDiffPreprocessing(diff: string, maxTokens: nat) returns (result: string)
    ensures result == Cut(Whole(diff, IsRisky), maxTokens)
    ensures result == Cut(Join(FlatMap(HunksOf(Split(diff, '\n')), Shrunk), '\n'), maxTokens)
    ensures |result| <= 4 * maxTokens + 44
  {
    ShrunkAll(HunksOf(Split(diff, '\n')));
    SizeBounded(Whole(diff, IsRisky), maxTokens);
    var hunks := ParseHunks(Split(diff, '\n'));
    var output := CompressHunks(hunks);
    result := Join(output, '\n');
    if |result| / 4 > maxTokens {
      var maxChars := maxTokens * 4;
      if |result| > maxChars {
        return result[..maxChars] + NOTICE;
      }
    }
  }

  // ---------------------------------------------------------------- filtering

  lemma {:induction false} FilterConcat(a: seq<string>, b: seq<string>, keep: string -> bool)
    ensures Filter(a + b, keep) == Filter(a, keep) + Filter(b, keep)
  {
    if b == [] {
      assert a + b == a;
    } else {
      FilterConcat(a, b[..|b| - 1], keep);
      assert (a + b)[..|a + b| - 1] == a + b[..|b| - 1];
    }
  }

  lemma {:induction false} FilterTwice(lines: seq<string>, first: string -> bool, second: string -> bool)
    requires forall l :: first(l) ==> second(l)
    ensures Filter(Filter(lines, first), second) == Filter(lines, first)
  {
    if lines != [] {
      var n := |lines| - 1;
      FilterTwice(lines[..n], first, second);
      if first(lines[n]) {
        FilterConcat(Filter(lines[..n], first), [lines[n]], second);
      } else {
        assert Filter(lines, first) == Filter(lines[..n], first) + [] == Filter(lines[..n], first);
      }
    }
  }

  lemma {:induction false} FilterDropsAll(lines: seq<string>, keep: string -> bool)
    requires forall k | 0 <= k < |lines| :: !keep(lines[k])
    ensures Filter(lines, keep) == []
  {
    if lines != [] {
      FilterDropsAll(lines[..|lines| - 1], keep);
    }
  }

  /** A hunk header or a delta line. */
  predicate IsStructure(line: string) {
    IsHeader(line) || IsDelta(line)
  }

  /** The kinds of lines whose survival is in question: all delta lines are among them, and
      nothing but headers and changed lines is. */
  ghost predicate Relevant(keep: string -> bool) {
    && (forall l :: IsDelta(l) ==> keep(l))
    && (forall l :: keep(l) ==> IsHeader(l) || IsChanged(l))
  }

  function KeptHeader(h: Hunk, keep: string -> bool): seq<string> {
    if keep(h.header) then [h.header] else []
  }

  lemma FilterOne(line: string, keep: string -> bool)
    ensures Filter([line], keep) == if keep(line) then [line] else []
  {
    assert [line][..0] == [];
  }

  lemma FilterFull(h: Hunk, keep: string -> bool)
    ensures Filter(FullContent(h), keep) == KeptHeader(h, keep) + Filter(h.lines, keep)
  {
    FilterConcat([h.header], h.lines, keep);
    FilterOne(h.header, keep);
  }

  lemma NameLineIsIrrelevant(h: Hunk, keep: string -> bool)
    requires Relevant(keep)
    ensures Filter(NameLine(h), keep) == []
  {
    if NameLine(h) != [] {
      assert NameLine(h)[0][0] == '/';
      assert !IsHeader(NameLine(h)[0]) && !IsChanged(NameLine(h)[0]);
    }
    FilterDropsAll(NameLine(h), keep);
  }

  lemma FilterFront(h: Hunk, keep: string -> bool)
    requires Relevant(keep)
    ensures Filter(NameLine(h) + [h.header], keep) == KeptHeader(h, keep)
  {
    FilterConcat(NameLine(h), [h.header], keep);
    NameLineIsIrrelevant(h, keep);
    FilterOne(h.header, keep);
  }

  lemma FilterOnlyChanged(h: Hunk, keep: string -> bool)
    requires Relevant(keep)
    ensures Filter(OnlyChangedLines(h), keep) == KeptHeader(h, keep) + Filter(h.lines, IsDelta)
  {
    FilterConcat(NameLine(h) + [h.header], Filter(h.lines, IsDelta), keep);
    FilterFront(h, keep);
    FilterTwice(h.lines, IsDelta, keep);
  }

  lemma OutputSnoc(hunks: seq<Hunk>, risky: Hunk -> bool, keep: string -> bool)
    requires hunks != [] && Relevant(keep)
    ensures var n := |hunks| - 1;
            var h := hunks[n];
            Filter(OutputLines(hunks, risky), keep) == Filter(OutputLines(hunks[..n], risky), keep)
              + (KeptHeader(h, keep) + (if risky(h) then Filter(h.lines, keep) else Filter(h.lines, IsDelta)))
  {
    var n := |hunks| - 1;
    FilterConcat(OutputLines(hunks[..n], risky), Compressed(hunks[n], risky), keep);
    if risky(hunks[n]) {
      FilterFull(hunks[n], keep);
    } else {
      FilterOnlyChanged(hunks[n], keep);
    }
  }

  lemma InputSnoc(hunks: seq<Hunk>, keep: string -> bool)
    requires hunks != []
    ensures var n := |hunks| - 1;
            Filter(Flatten(hunks), keep)
              == Filter(Flatten(hunks[..n]), keep) + (KeptHeader(hunks[n], keep) + Filter(hunks[n].lines, keep))
  {
    var n := |hunks| - 1;
    FlattenSnoc(hunks);
    FilterConcat(Flatten(hunks[..n]), FullContent(hunks[n]), keep);
    FilterFull(hunks[n], keep);
  }

  lemma InnerHunks(hunks: seq<Hunk>)
    requires |hunks| > 1
    ensures hunks[1..][..|hunks| - 2] == hunks[..|hunks| - 1][1..]
  {
    var a, b := hunks[1..][..|hunks| - 2], hunks[..|hunks| - 1][1..];
    forall k | 0 <= k < |hunks| - 2
      ensures a[k] == b[k]
    {
      assert a[k] == hunks[1..][k] == hunks[k + 1];
      assert b[k] == hunks[..|hunks| - 1][k + 1] == hunks[k + 1];
    }
  }

  lemma Associate(a: seq<string>, b: seq<string>, c: seq<string>)
    ensures a + (b + c) == (a + b) + c
  {
  }

  lemma {:induction false} FlattenSnoc(hunks: seq<Hunk>)
    requires hunks != []
    ensures Flatten(hunks) == Flatten(hunks[..|hunks| - 1]) + FullContent(hunks[|hunks| - 1])
  {
    var n := |hunks| - 1;
    if n == 0 {
      assert hunks[..0] == [] && hunks[1..] == [];
    } else {
      var front, rest := hunks[..n], hunks[1..];
      FlattenSnoc(rest);
      InnerHunks(hunks);
      assert rest[..n - 1] == front[1..] && rest[n - 1] == hunks[n] && front[0] == hunks[0];
      Associate(FullContent(hunks[0]), Flatten(front[1..]), FullContent(hunks[n]));
    }
  }

  // ------------------------------------------------------- the delta is preserved

  lemma {:induction false} BodyStructureIsDelta(lines: seq<string>)
    requires forall k | 0 <= k < |lines| :: !IsHeader(lines[k])
    ensures Filter(lines, IsStructure) == Filter(lines, IsDelta)
  {
    if lines != [] {
      BodyStructureIsDelta(lines[..|lines| - 1]);
    }
  }

  lemma StructureIsRelevant()
    ensures Relevant(IsStructure) && Relevant(IsChanged)
  {
  }

  lemma {:induction false} StructureOfOutput(hunks: seq<Hunk>, risky: Hunk -> bool)
    requires AllWellFormed(hunks)
    ensures Filter(OutputLines(hunks, risky), IsStructure) == Filter(Flatten(hunks), IsStructure)
  {
    if hunks != [] {
      var n := |hunks| - 1;
      StructureOfOutput(hunks[..n], risky);
      StructureIsRelevant();
      OutputSnoc(hunks, risky, IsStructure);
      InputSnoc(hunks, IsStructure);
      assert WellFormed(hunks[n]);
      BodyStructureIsDelta(hunks[n].lines);
    }
  }

  lemma {:induction false} FilterKeepsLacking(lines: seq<string>, keep: string -> bool, c: char)
    requires AllLack(lines, c)
    ensures AllLack(Filter(lines, keep), c)
  {
    if lines != [] {
      FilterKeepsLacking(lines[..|lines| - 1], keep, c);
    }
  }

  lemma NameLineLacks(h: Hunk, c: char)
    requires Lacks(h.header, c) && c !in "// "
    ensures AllLack(NameLine(h), c)
  {
    if |h.header| >= 2 {
      var i := IndexFrom(h.header, "@@", 2);
      if i != -1 {
        TrimSpaceLacks(h.header[i + 2..], c);
      }
    }
    assert Lacks("// " + FuncName(h), c);
  }

  lemma AllLackConcat(a: seq<string>, b: seq<string>, c: char)
    ensures AllLack(a + b, c) <==> AllLack(a, c) && AllLack(b, c)
  {
    assert forall k | 0 <= k < |a| :: a[k] == (a + b)[k];
    assert forall k | 0 <= k < |b| :: b[k] == (a + b)[|a| + k];
  }

  lemma CompressedLacks(h: Hunk, risky: Hunk -> bool, c: char)
    requires AllLack(FullContent(h), c) && c !in "// "
    ensures AllLack(Compressed(h, risky), c)
  {
    if !risky(h) {
      AllLackConcat([h.header], h.lines, c);
      assert Lacks([h.header][0], c);
      NameLineLacks(h, c);
      FilterKeepsLacking(h.lines, IsDelta, c);
      AllLackConcat(NameLine(h), [h.header], c);
      AllLackConcat(NameLine(h) + [h.header], Filter(h.lines, IsDelta), c);
    }
  }

  lemma {:induction false} OutputLacksNewline(hunks: seq<Hunk>, risky: Hunk -> bool)
    requires AllLack(Flatten(hunks), '\n')
    ensures AllLack(OutputLines(hunks, risky), '\n')
  {
    if hunks != [] {
      var n := |hunks| - 1;
      FlattenSnoc(hunks);
      AllLackConcat(Flatten(hunks[..n]), FullContent(hunks[n]), '\n');
      OutputLacksNewline(hunks[..n], risky);
      CompressedLacks(hunks[n], risky, '\n');
      AllLackConcat(OutputLines(hunks[..n], risky), Compressed(hunks[n], risky), '\n');
    }
  }

  lemma WholeSplitsBack(diff: string, risky: Hunk -> bool)
    ensures var lines := Split(diff, '\n');
            AllWellFormed(HunksOf(lines))
            && (OutputLines(HunksOf(lines), risky) == [] ==> Split(Whole(diff, risky), '\n') == [""])
            && (OutputLines(HunksOf(lines), risky) != [] ==>
                  Split(Whole(diff, risky), '\n') == OutputLines(HunksOf(lines), risky))
  {
    var lines := Split(diff, '\n');
    HunksPartition(lines);
    SplitPartsLackSeparator(diff, '\n');
    var hunks := HunksOf(lines);
    assert AllLack(Flatten(hunks), '\n');
    OutputLacksNewline(hunks, risky);
    if OutputLines(hunks, risky) != [] {
      SplitJoin(OutputLines(hunks, risky), '\n');
    }
  }

  lemma FilterWhole(diff: string, risky: Hunk -> bool, keep: string -> bool)
    requires !keep("")
    ensures AllWellFormed(HunksOf(Split(diff, '\n')))
    ensures Filter(Split(Whole(diff, risky), '\n'), keep)
         == Filter(OutputLines(HunksOf(Split(diff, '\n')), risky), keep)
  {
    WholeSplitsBack(diff, risky);
    assert [""][..0] == [];
  }

  lemma WholeKeepsDelta(diff: string, risky: Hunk -> bool)
    ensures Filter(Split(Whole(diff, risky), '\n'), IsStructure)
         == Filter(FromFirstHeader(Split(diff, '\n')), IsStructure)
  {
    HunksPartition(Split(diff, '\n'));
    FilterWhole(diff, risky, IsStructure);
    StructureOfOutput(HunksOf(Split(diff, '\n')), risky);
  }

  /** Compression keeps the delta: unless cut, the output has the hunk headers and the
      changed lines of the input from its first hunk on, in the same order, so that every
      change is still under its own header. */
  lemma {:induction false} DeltaPreserved(diff: string, risky: Hunk -> bool, maxTokens: nat)
    ensures |Whole(diff, risky)| / 4 <= maxTokens ==>
              Filter(Split(Cut(Whole(diff, risky), maxTokens), '\n'), IsStructure)
                == Filter(FromFirstHeader(Split(diff, '\n')), IsStructure)
  {
    WholeKeepsDelta(diff, risky);
  }

  // ------------------------------------------------------------ what a cut leaves

  /** The lines agree, but the last of the first list may be cut short. */
  predicate CutShort(parts: seq<string>, all: seq<string>) {
    && 1 <= |parts| <= |all|
    && parts[..|parts| - 1] == all[..|parts| - 1]
    && parts[|parts| - 1] <= all[|parts| - 1]
  }

  /** The lines of a front part are lines of the text, the last one perhaps cut short. */
  lemma {:induction false} SplitOfFront(front: string, rest: string, sep: char)
    ensures CutShort(Split(front, sep), Split(front + rest, sep))
  {
    if front == "" {
      assert front + rest == rest;
    } else {
      assert (front + rest)[1..] == front[1..] + rest;
      SplitOfFront(front[1..], rest, sep);
      ConsSplit(front[0], Split(front[1..], sep), Split(front[1..] + rest, sep), sep);
    }
  }

  /** One more character in front of both. */
  lemma ConsSplit(c: char, parts: seq<string>, all: seq<string>, sep: char)
    requires CutShort(parts, all)
    ensures CutShort(if c == sep then [""] + parts else [[c] + parts[0]] + parts[1..],
                     if c == sep then [""] + all else [[c] + all[0]] + all[1..])
  {
    assert |parts| > 1 ==> parts[0] == parts[..|parts| - 1][0] == all[0];
    forall k | 0 <= k < |parts| - 1
      ensures parts[k] == all[k]
    {
      assert parts[k] == parts[..|parts| - 1][k] == all[..|parts| - 1][k];
    }
  }

  lemma CutShortFront(parts: seq<string>, all: seq<string>)
    requires CutShort(parts, all)
    ensures parts[..|parts| - 1] <= all
  {
  }

  /** The whole lines of a text up to position n. */
  function LinesBefore(text: string, n: nat): seq<string>
    requires n <= |text|
  {
    var parts := Split(text[..n], '\n');
    parts[..|parts| - 1]
  }

  lemma FilterOfFront(front: seq<string>, all: seq<string>, keep: string -> bool)
    requires front <= all
    ensures Filter(front, keep) <= Filter(all, keep)
  {
    assert all == front + all[|front|..];
    FilterConcat(front, all[|front|..], keep);
  }

  /** The line that a cut at position n leaves unfinished. */
  function LineAt(text: string, n: nat): string
    requires n <= |text|
  {
    var parts := Split(text[..n], '\n');
    parts[|parts| - 1]
  }

  const NOTICE_LINE := NOTICE[1..]

  lemma SplitBeforeLine(front: string, line: string)
    requires Lacks(line, '\n')
    ensures var parts := Split(front, '\n');
            Split(front + ['\n'] + line, '\n') == parts[..|parts| - 1] + [parts[|parts| - 1]] + [line]
  {
    SplitAtSeparator(front, line, '\n');
    SplitOne(line, '\n');
    LastApart(Split(front, '\n'));
  }

  lemma LastApart(parts: seq<string>)
    requires parts != []
    ensures parts == parts[..|parts| - 1] + [parts[|parts| - 1]]
  {
  }

  lemma NoticeIsOneLine()
    ensures Lacks(NOTICE_LINE, '\n') && NOTICE == ['\n'] + NOTICE_LINE
  {
    assert forall k | 0 <= k < |NOTICE_LINE| :: NOTICE_LINE[k] == NOTICE[k + 1] != '\n';
  }

  lemma CutIs(text: string, maxTokens: nat)
    requires |text| / 4 > maxTokens
    ensures 4 * maxTokens <= |text|
    ensures Cut(text, maxTokens) == text[..4 * maxTokens] + ['\n'] + NOTICE_LINE
  {
    NoticeIsOneLine();
    AppendPair(text[..4 * maxTokens], '\n', NOTICE_LINE);
  }

  lemma AppendPair(a: string, c: char, b: string)
    ensures a + ([c] + b) == a + [c] + b
  {
  }

  lemma FrontLines(text: string, n: nat)
    requires n <= |text|
    ensures LinesBefore(text, n) <= Split(text, '\n')
  {
    assert text == text[..n] + text[n..];
    SplitOfFront(text[..n], text[n..], '\n');
    CutShortFront(Split(text[..n], '\n'), Split(text, '\n'));
  }

  /** A cut text splits into the whole lines before the cut, the line that was cut, and the
      notice. */
  lemma CutSplits(text: string, maxTokens: nat)
    requires |text| / 4 > maxTokens
    ensures 4 * maxTokens <= |text|
    ensures Split(Cut(text, maxTokens), '\n')
         == LinesBefore(text, 4 * maxTokens) + [LineAt(text, 4 * maxTokens)] + [NOTICE_LINE]
  {
    CutIs(text, maxTokens);
    NoticeIsOneLine();
    SplitBeforeLine(text[..4 * maxTokens], NOTICE_LINE);
  }

  /** When the text is cut, the headers and changed lines of its whole lines are still the
      first ones of the input; then come one line cut short and the notice. */
  lemma CutKeepsFirstChanges(diff: string, risky: Hunk -> bool, maxTokens: nat)
    requires |Whole(diff, risky)| / 4 > maxTokens
    ensures var text, n := Whole(diff, risky), 4 * maxTokens;
            && n <= |text|
            && Split(Cut(text, maxTokens), '\n') == LinesBefore(text, n) + [LineAt(text, n)] + [NOTICE_LINE]
            && Filter(LinesBefore(text, n), IsStructure) <= Filter(FromFirstHeader(Split(diff, '\n')), IsStructure)
  {
    CutSplits(Whole(diff, risky), maxTokens);
    FrontLines(Whole(diff, risky), 4 * maxTokens);
    FilterOfFront(LinesBefore(Whole(diff, risky), 4 * maxTokens), Split(Whole(diff, risky), '\n'), IsStructure);
    WholeKeepsDelta(diff, risky);
  }

  // ------------------------------- changed lines that look like file headers are lost

  predicate HasMarker(lines: seq<string>) {
    exists k | 0 <= k < |lines| :: IsMarker(lines[k])
  }

  /** A hunk that is not kept whole has a changed line starting with "+++" or "---". */
  predicate LosesLines(hunks: seq<Hunk>, risky: Hunk -> bool) {
    exists i | 0 <= i < |hunks| :: !risky(hunks[i]) && HasMarker(hunks[i].lines)
  }

  lemma {:induction false} MarkersAreWhatFilteringDrops(lines: seq<string>)
    ensures |Filter(lines, IsDelta)| <= |Filter(lines, IsChanged)|
    ensures HasMarker(lines) ==> |Filter(lines, IsDelta)| < |Filter(lines, IsChanged)|
    ensures !HasMarker(lines) ==> Filter(lines, IsDelta) == Filter(lines, IsChanged)
  {
    if lines != [] {
      var n := |lines| - 1;
      MarkersAreWhatFilteringDrops(lines[..n]);
      if HasMarker(lines[..n]) {
        var k :| 0 <= k < n && IsMarker(lines[..n][k]);
        assert IsMarker(lines[k]);
      } else {
        assert forall k | 0 <= k < n :: lines[k] == lines[..n][k];
        assert HasMarker(lines) <==> IsMarker(lines[n]);
      }
    }
  }

  lemma {:induction false} ChangedInOutput(hunks: seq<Hunk>, risky: Hunk -> bool)
    ensures |Filter(OutputLines(hunks, risky), IsChanged)| <= |Filter(Flatten(hunks), IsChanged)|
    ensures LosesLines(hunks, risky) ==>
              |Filter(OutputLines(hunks, risky), IsChanged)| < |Filter(Flatten(hunks), IsChanged)|
    ensures !LosesLines(hunks, risky) ==>
              Filter(OutputLines(hunks, risky), IsChanged) == Filter(Flatten(hunks), IsChanged)
  {
    if hunks != [] {
      var n := |hunks| - 1;
      ChangedInOutput(hunks[..n], risky);
      StructureIsRelevant();
      OutputSnoc(hunks, risky, IsChanged);
      InputSnoc(hunks, IsChanged);
      MarkersAreWhatFilteringDrops(hunks[n].lines);
      LosesLinesSnoc(hunks, risky);
    }
  }

  lemma LosesLinesSnoc(hunks: seq<Hunk>, risky: Hunk -> bool)
    requires hunks != []
    ensures var n := |hunks| - 1;
            LosesLines(hunks, risky)
            <==> LosesLines(hunks[..n], risky) || (!risky(hunks[n]) && HasMarker(hunks[n].lines))
  {
    var n := |hunks| - 1;
    if LosesLines(hunks[..n], risky) {
      var i :| 0 <= i < n && !risky(hunks[..n][i]) && HasMarker(hunks[..n][i].lines);
      assert !risky(hunks[i]) && HasMarker(hunks[i].lines);
    }
    if i :| 0 <= i < n && !risky(hunks[i]) && HasMarker(hunks[i].lines) {
      assert hunks[..n][i] == hunks[i];
    }
  }

  /** Exactly when every changed line survives: no hunk outside the sensitive ones changes
      a line that then starts with "+++" or "---", such as an added "++i". */
  lemma AllChangesPreservedExactlyWhenNoMarker(diff: string, risky: Hunk -> bool)
    ensures Filter(Split(Whole(diff, risky), '\n'), IsChanged) == Filter(FromFirstHeader(Split(diff, '\n')), IsChanged)
            <==> !LosesLines(HunksOf(Split(diff, '\n')), risky)
  {
    HunksPartition(Split(diff, '\n'));
    FilterWhole(diff, risky, IsChanged);
    ChangedInOutput(HunksOf(Split(diff, '\n')), risky);
  }

  lemma OneHunk(header: string, line: string)
    requires IsHeader(header) && !IsHeader(line) && Lacks(header, '\n') && Lacks(line, '\n')
    ensures HunksOf(Split(header + ['\n'] + line, '\n')) == [Hunk(header, [line])]
  {
    SplitLine(header, line, '\n');
    SplitOne(line, '\n');
    var lines := [header] + [line];
    assert lines[1..] == [line] && [line][1..] == [];
    assert Body([line]) == [line];
    assert lines[2..] == [];
  }

  /** A text holds every character of what occurs in it. */
  lemma OccurrenceBringsChars(s: string, t: string, k: nat)
    requires Contains(s, t) && k < |t|
    ensures t[k] in s
  {
    var i :| 0 <= i <= |s| && OccursAt(s, t, i);
    assert s[i + k] == s[i..i + |t|][k];
  }

  /** Where each keyword has a letter other than i. */
  function LetterAt(i: nat): nat {
    if i == 2 || i == 5 then 0 else 1
  }

  lemma KeywordsHaveOtherLetters(i: nat)
    requires i < |RISK_KEYWORDS|
    ensures LetterAt(i) < |RISK_KEYWORDS[i]|
    ensures var c := RISK_KEYWORDS[i][LetterAt(i)]; 'a' <= c <= 'z' && c != 'i'
  {
  }

  /** A hunk that adds the statement "++i" and nothing else is not sensitive, and its only
      changed line is lost. */
  lemma IncrementIsLost()
    ensures var diff := "@@ -0,0 +1 @@" + ['\n'] + "+++i";
            && LosesLines(HunksOf(Split(diff, '\n')), IsRisky)
            && Filter(Split(Whole(diff, IsRisky), '\n'), IsChanged)
                 != Filter(FromFirstHeader(Split(diff, '\n')), IsChanged)
  {
    var header, line := "@@ -0,0 +1 @@", "+++i";
    var h := Hunk(header, [line]);
    assert header[..3] == "@@ " && line[0] == '+';
    OneHunk(header, line);
    IncrementIsNotRisky(h);
    assert IsMarker(h.lines[0]);
    assert [h][0] == h;
    AllChangesPreservedExactlyWhenNoMarker(header + ['\n'] + line, IsRisky);
  }

  lemma JoinTwo(a: string, b: string)
    ensures Join([a] + [b], '\n') == a + ['\n'] + b
  {
    assert ([a] + [b])[1..] == [b];
  }

  lemma IncrementIsNotRisky(h: Hunk)
    requires h == Hunk("@@ -0,0 +1 @@", ["+++i"])
    ensures !IsRisky(h)
  {
    var text := Join(FullContent(h), '\n');
    JoinTwo(h.header, h.lines[0]);
    var content := ToLower(text);
    assert forall k | 0 <= k < |content| :: content[k] == LowerChar(text[k]);
    assert forall k | 0 <= k < |text| :: text[k] < 'A' || text[k] == 'i';
    if i :| 0 <= i < |RISK_KEYWORDS| && Contains(content, RISK_KEYWORDS[i]) {
      KeywordsHaveOtherLetters(i);
      OccurrenceBringsChars(content, RISK_KEYWORDS[i], LetterAt(i));
      assert false;
    }
  }

  // --------------------------------------------------------- verbatim and bounded

  lemma {:induction false} FlatMapConcat(front: seq<Hunk>, back: seq<Hunk>, f: Hunk -> seq<string>)
    ensures FlatMap(front + back, f) == FlatMap(front, f) + FlatMap(back, f)
  {
    if back == [] {
      assert front + back == front;
    } else {
      var n := |back| - 1;
      FlatMapConcat(front, back[..n], f);
      assert (front + back)[..|front| + n] == front + back[..n];
      var a, b, c := FlatMap(front, f), FlatMap(back[..n], f), f(back[n]);
      assert (a + b) + c == a + (b + c);
    }
  }

  lemma FlatMapThree(front: seq<Hunk>, h: Hunk, back: seq<Hunk>, f: Hunk -> seq<string>)
    ensures FlatMap(front + [h] + back, f) == FlatMap(front, f) + f(h) + FlatMap(back, f)
  {
    FlatMapConcat(front + [h], back, f);
    assert (front + [h])[..|front|] == front;
  }

  /** A sensitive hunk comes through whole, between the outputs of what is around it. */
  lemma RiskyVerbatim(hunks: seq<Hunk>, risky: Hunk -> bool, i: nat)
    requires i < |hunks| && risky(hunks[i])
    ensures OutputLines(hunks, risky)
         == OutputLines(hunks[..i], risky) + FullContent(hunks[i]) + OutputLines(hunks[i + 1..], risky)
  {
    assert hunks == hunks[..i] + [hunks[i]] + hunks[i + 1..];
    FlatMapThree(hunks[..i], hunks[i], hunks[i + 1..], Compressor(risky));
  }

  /** The output never exceeds the budget by more than the notice. */
  lemma SizeBounded(text: string, maxTokens: nat)
    ensures |Cut(text, maxTokens)| <= 4 * maxTokens + 44
    ensures |text| / 4 <= maxTokens ==> Cut(text, maxTokens) == text
    ensures |text| / 4 > maxTokens ==>
              && |Cut(text, maxTokens)| == 4 * maxTokens + 44
              && Cut(text, maxTokens)[..4 * maxTokens] == text[..4 * maxTokens]
              && Cut(text, maxTokens)[4 * maxTokens..] == "\n... [Diff Truncated due to size limits] ..."
  {
    assert |NOTICE| == 44;
  }

  const MAX_DIFF_TOKENS := 8000

  /** The diff text that the context builder puts into its prompt. */
  method PromptDiff(diff: string) returns (text: string)
    ensures |diff| / 4 <= 8000 ==> text == diff
    ensures |diff| / 4 > 8000 ==> text == Cut(Whole(diff, IsRisky), 8000)
    ensures |text| <= 32_044
  {
    text := diff;
    if |diff| / 4 > MAX_DIFF_TOKENS {
      text := SmartDiffPreprocessing(diff, MAX_DIFF_TOKENS);
    }
  }
}
