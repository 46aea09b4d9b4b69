/** From a diff to the list of libraries it uses. The language extractors are a parameter:
    for each file they give substrings of the file's added text. */
module Libraries {
  import opened Text
  import opened DiffFiles

  /** The first occurrences, in order. */
  function FirstOccurrences(s: seq<string>): seq<string> {
    if s == [] then []
    else
      var n := |s| - 1;
      if s[n] in s[..n] then FirstOccurrences(s[..n]) else FirstOccurrences(s[..n]) + [s[n]]
  }

  /** Nothing is missing and nothing is repeated. */
  lemma {:induction false} FirstOccurrencesAreASet(s: seq<string>)
    ensures forall x :: x in FirstOccurrences(s) <==> x in s
    ensures NoRepeats(FirstOccurrences(s))
  {
    if s != [] {
      var n := |s| - 1;
      FirstOccurrencesAreASet(s[..n]);
      assert s == s[..n] + [s[n]];
    }
  }

  lemma FirstOccurrencesSnoc(s: seq<string>, x: string)
    ensures FirstOccurrences(s + [x])
         == if x in s then FirstOccurrences(s) else FirstOccurrences(s) + [x]
  {
    assert (s + [x])[..|s|] == s;
  }

  // ------------------------------------------------------------ in-place dedupe

  /** The trimmed strings that are not empty, in order. */
  function Trimmed(ss: seq<string>): seq<string> {
    if ss == [] then []
    else
      var t := TrimSpace(ss[|ss| - 1]);
      Trimmed(ss[..|ss| - 1]) + (if t == "" then [] else [t])
  }

  lemma TrimmedSnoc(ss: seq<string>, i: nat, t: string)
    requires i < |ss| && t == TrimSpace(ss[i])
    ensures Trimmed(ss[..i + 1]) == if t == "" then Trimmed(ss[..i]) else Trimmed(ss[..i]) + [t]
  {
    assert ss[..i + 1][..i] == ss[..i];
    assert Trimmed(ss[..i]) + [] == Trimmed(ss[..i]);
  }

  function Deduped(ss: seq<string>): seq<string> {
    FirstOccurrences(Trimmed(ss))
  }

  lemma DedupedSnoc(ss: seq<string>, i: nat, t: string)
    requires i < |ss| && t == TrimSpace(ss[i])
    ensures Deduped(ss[..i + 1])
         == if t == "" || t in Deduped(ss[..i]) then Deduped(ss[..i]) else Deduped(ss[..i]) + [t]
  {
    TrimmedSnoc(ss, i, t);
    FirstOccurrencesSnoc(Trimmed(ss[..i]), t);
    FirstOccurrencesAreASet(Trimmed(ss[..i]));
  }

  function Elements(s: seq<string>): set<string> {
    if s == [] then {} else Elements(s[..|s| - 1]) + {s[|s| - 1]}
  }

  lemma ElementsSnoc(s: seq<string>, x: string)
    ensures Elements(s + [x]) == Elements(s) + {x}
  {
    assert (s + [x])[..|s|] == s;
  }

  lemma {:induction false} ElementsAreMembers(s: seq<string>, x: string)
    ensures x in Elements(s) <==> x in s
  {
    if s != [] {
      ElementsAreMembers(s[..|s| - 1], x);
      assert s == s[..|s| - 1] + [s[|s| - 1]];
    }
  }

  /** The loop's invariant: the array holds the result for the elements below i, followed by
      what it held before from position |out| on. */
  ghost predicate DedupedUpTo(now: seq<string>, was: seq<string>, i: nat, out: seq<string>, seen: set<string>) {
    && |out| <= i <= |was| && now == out + was[|out|..]
    && out == Deduped(was[..i]) && seen == Elements(out)
  }

  lemma ReadsOriginal(now: seq<string>, was: seq<string>, i: nat, out: seq<string>, seen: set<string>)
    requires DedupedUpTo(now, was, i, out, seen) && i < |was|
    ensures i < |now| && now[i] == was[i]
  {
  }

  lemma DedupeSkips(now: seq<string>, was: seq<string>, i: nat, s: string, out: seq<string>, seen: set<string>)
    requires DedupedUpTo(now, was, i, out, seen) && i < |was|
    requires s == TrimSpace(was[i]) && (s == "" || s in seen)
    ensures DedupedUpTo(now, was, i + 1, out, seen)
  {
    DedupedSnoc(was, i, s);
    ElementsAreMembers(out, s);
  }

  lemma OverwriteNext(out: seq<string>, was: seq<string>, s: string)
    requires |out| < |was|
    ensures (out + was[|out|..])[|out| := s] == (out + [s]) + was[|out| + 1..]
  {
  }

  lemma ResultGrows(was: seq<string>, i: nat, s: string, out: seq<string>, seen: set<string>)
    requires i < |was| && s == TrimSpace(was[i]) && s != "" && s !in seen
    requires out == Deduped(was[..i]) && seen == Elements(out)
    ensures Deduped(was[..i + 1]) == out + [s] && Elements(out + [s]) == seen + {s}
  {
    DedupedSnoc(was, i, s);
    ElementsAreMembers(out, s);
    ElementsSnoc(out, s);
  }

  lemma DedupeKeeps(now: seq<string>, was: seq<string>, i: nat, s: string, out: seq<string>, seen: set<string>)
    requires DedupedUpTo(now, was, i, out, seen) && i < |was|
    requires s == TrimSpace(was[i]) && s != "" && s !in seen
    ensures |out| < |now| && DedupedUpTo(now[|out| := s], was, i + 1, out + [s], seen + {s})
  {
    ResultGrows(was, i, s, out, seen);
    OverwriteNext(out, was, s);
  }

  /** Writes the result over the front of the array it is reading and leaves the rest as it
      was. The write position never passes the read position, so no element is lost before
      it is read. */
  method Dedupe(ss: array<string>) returns (n: nat)
    modifies ss
    ensures n == |Deduped(old(ss[..]))| <= ss.Length
    ensures ss[..] == Deduped(old(ss[..])) + old(ss[..])[n..]
  {
    n := 0;
    ghost var was := ss[..];
    ghost var out: seq<string> := [];
    var seen: set<string> := {};
    for i := 0 to ss.Length
      invariant n == |out|
      invariant DedupedUpTo(ss[..], was, i, out, seen)
    {
      ghost var now := ss[..];
      ReadsOriginal(now, was, i, out, seen);
      var s := TrimSpace(ss[i]);
      if s == "" || s in seen {
        DedupeSkips(now, was, i, s, out, seen);
      } else {
        DedupeKeeps(now, was, i, s, out, seen);
        ss[n] := s;
        assert ss[..] == now[n := s];
        out := out + [s];
        seen := seen + {s};
        n := n + 1;
      }
    }
    assert was[..ss.Length] == was;
  }

  // ------------------------------------------------------------- the library list

  /** A module path cut to its first three segments. */
  function TruncateImportPath(imp: string): string {
    var parts := Split(imp, '/');
    if |parts| <= 3 then imp else Join(parts[..3], '/')
  }

  /** What follows the last slash. */
  function LeafName(lib: string): string {
    if lib == "" || lib[|lib| - 1] == '/' then "" else LeafName(lib[..|lib| - 1]) + [lib[|lib| - 1]]
  }

  function Truncated(imports: seq<string>): seq<string> {
    if imports == [] then []
    else Truncated(imports[..|imports| - 1]) + [TruncateImportPath(imports[|imports| - 1])]
  }

  function Flat(infos: seq<seq<string>>): seq<string> {
    if infos == [] then [] else Flat(infos[..|infos| - 1]) + infos[|infos| - 1]
  }

  lemma {:induction false} TruncatedConcat(a: seq<string>, b: seq<string>)
    ensures Truncated(a + b) == Truncated(a) + Truncated(b)
  {
    if b == [] {
      assert a + b == a;
    } else {
      var n := |b| - 1;
      TruncatedConcat(a, b[..n]);
      assert (a + b)[..|a| + n] == a + b[..n];
    }
  }

  /** Flattens the per-file lists, truncating and skipping what was seen. */
  method FlattenLibraries(infos: seq<seq<string>>) returns (flat: seq<string>)
    ensures flat == FirstOccurrences(Truncated(Flat(infos)))
  {
    flat := [];
    ghost var done: seq<string> := [];
    var seen: set<string> := {};
    for i := 0 to |infos|
      invariant done == Truncated(Flat(infos[..i]))
      invariant seen == Elements(done)
      invariant flat == FirstOccurrences(done)
    {
      ghost var before := done;
      for k := 0 to |infos[i]|
        invariant done == before + Truncated(infos[i][..k])
        invariant seen == Elements(done)
        invariant flat == FirstOccurrences(done)
      {
        var base := TruncateImportPath(infos[i][k]);
        TruncatedSnoc(before, infos[i], k);
        FirstOccurrencesSnoc(done, base);
        ElementsAreMembers(done, base);
        ElementsSnoc(done, base);
        if base !in seen {
          flat := flat + [base];
        }
        seen := seen + {base};
        done := done + [base];
      }
      FlatSnoc(infos, i);
    }
    assert infos[..|infos|] == infos;
  }

  lemma TruncatedSnoc(before: seq<string>, imports: seq<string>, k: nat)
    requires k < |imports|
    ensures before + Truncated(imports[..k + 1]) == before + Truncated(imports[..k]) + [TruncateImportPath(imports[k])]
    ensures before + Truncated(imports[..0]) == before
  {
    assert imports[..k + 1][..k] == imports[..k];
  }

  lemma FlatSnoc(infos: seq<seq<string>>, i: nat)
    requires i < |infos|
    ensures Truncated(Flat(infos[..i + 1])) == Truncated(Flat(infos[..i])) + Truncated(infos[i][..|infos[i]|])
  {
    assert infos[i][..|infos[i]|] == infos[i];
    assert infos[..i + 1][..i] == infos[..i];
    TruncatedConcat(Flat(infos[..i]), infos[i]);
  }

  predicate Mentions(diff: string, lib: string) {
    Contains(diff, lib) || Contains(diff, LeafName(lib))
  }

  function Mentioned(libs: seq<string>, diff: string): seq<string> {
    if libs == [] then []
    else
      var lib := libs[|libs| - 1];
      Mentioned(libs[..|libs| - 1], diff) + (if Mentions(diff, lib) then [lib] else [])
  }

  method IntersectWithDiff(libs: seq<string>, diff: string) returns (out: seq<string>)
    ensures out == Mentioned(libs, diff)
  {
    out := [];
    for i := 0 to |libs|
      invariant out == Mentioned(libs[..i], diff)
    {
      assert libs[..i + 1][..i] == libs[..i];
      if Contains(diff, libs[i]) || Contains(diff, LeafName(libs[i])) {
        out := out + [libs[i]];
      }
    }
    assert libs[..|libs|] == libs;
  }

  /** The libraries of the files, visited in the order `order`. */
  function LibrariesInOrder(files: map<string, string>, order: seq<string>,
                            libraries: (string, string) -> seq<string>): seq<seq<string>>
    requires forall path | path in order :: path in files
  {
    seq(|order|, k requires 0 <= k < |order| => libraries(order[k], files[order[k]]))
  }

  /** One of the orders in which a Go loop may visit the files. */
  ghost predicate IsVisit(files: map<string, string>, order: seq<string>) {
    forall path :: path in order <==> path in files
  }

  ghost function FlatLibs(diff: string, order: seq<string>, libraries: (string, string) -> seq<string>): seq<string>
    requires IsVisit(ParsedFiles(diff), order)
  {
    FirstOccurrences(Truncated(Flat(LibrariesInOrder(ParsedFiles(diff), order, libraries))))
  }

  /** The active libraries of a diff, for any visit of its files. */
  method ActiveLibraries(diff: string, order: seq<string>, libraries: (string, string) -> seq<string>)
    returns (active: seq<string>)
    requires IsVisit(ParsedFiles(diff), order)
    ensures active == Mentioned(FlatLibs(diff, order, libraries), diff)
  {
    var files := ParseDiffFiles(diff);
    var flat := FlattenLibraries(LibrariesInOrder(files, order, libraries));
    active := IntersectWithDiff(flat, diff);
  }

  // ------------------------------------------------ substrings of added text

  /** Every newline-free part of the text is a part of the diff. */
  ghost predicate FromDiff(text: string, diff: string) {
    && (text != "" ==> text[|text| - 1] == '\n')
    && forall t: string | Lacks(t, '\n') && Contains(text, t) :: Contains(diff, t)
  }

  /** A newline-free occurrence lies on one side of a newline. */
  lemma OccursOnOneSide(a: string, b: string, t: string)
    requires a != "" ==> a[|a| - 1] == '\n'
    requires Lacks(t, '\n') && Contains(a + b + ['\n'], t)
    ensures Contains(a, t) || Contains(b, t)
  {
    var s := a + b + ['\n'];
    var i :| 0 <= i <= |s| && OccursAt(s, t, i);
    assert forall p | i <= p < i + |t| :: s[p] == s[i..i + |t|][p - i] == t[p - i];
    if t == "" {
      assert OccursAt(a, t, 0);
    } else if i + |t| <= |a| {
      assert s == a + (b + ['\n']);
      OccursInFront(a, b + ['\n'], t, i);
    } else {
      assert s[|a| + |b|] == '\n';
      assert a != "" ==> s[|a| - 1] == '\n';
      assert |a| <= i && i + |t| <= |a| + |b|;
      assert s == a + (b + ['\n']);
      OccursInBack(a, b + ['\n'], t, i);
      OccursInFront(b, ['\n'], t, i - |a|);
    }
  }

  lemma AppendLineFromDiff(text: string, line: string, diff: string)
    requires FromDiff(text, diff) && Contains(diff, line) && line != ""
    ensures FromDiff(text + line[1..] + ['\n'], diff)
  {
    forall t: string | Lacks(t, '\n') && Contains(text + line[1..] + ['\n'], t)
      ensures Contains(diff, t)
    {
      OccursOnOneSide(text, line[1..], t);
      if !Contains(text, t) {
        assert line == [line[0]] + line[1..] + [];
        ContainsMiddle([line[0]], line[1..], []);
        ContainsTransitive(line, line[1..], t);
        ContainsTransitive(diff, line, t);
      }
    }
  }

  ghost predicate AllFromDiff(s: Scan, diff: string) {
    FromDiff(s.buffer, diff) && forall path | path in s.files :: FromDiff(s.files[path], diff)
  }

  lemma NothingIsFromDiff(diff: string)
    ensures FromDiff("", diff)
  {
    forall t: string | Contains("", t)
      ensures Contains(diff, t)
    {
      assert OccursAt(diff, "", 0);
    }
  }

  lemma {:induction false} ScanStaysInDiff(diff: string, n: nat)
    requires n <= |Split(diff, '\n')|
    ensures AllFromDiff(ScanLines(START, Split(diff, '\n')[..n]), diff)
  {
    var lines := Split(diff, '\n');
    NothingIsFromDiff(diff);
    if n > 0 {
      ScanStaysInDiff(diff, n - 1);
      assert lines[..n][..n - 1] == lines[..n - 1];
      var s := ScanLines(START, lines[..n - 1]);
      var line := lines[n - 1];
      SplitPartOccurs(diff, '\n', n - 1);
      if line != "" {
        AppendLineFromDiff(s.buffer, line, diff);
      }
    }
  }

  /** Every newline-free part of a parsed file's text occurs in the diff. */
  lemma ParsedTextIsFromDiff(diff: string, path: string)
    requires path in ParsedFiles(diff)
    ensures FromDiff(ParsedFiles(diff)[path], diff)
  {
    var lines := Split(diff, '\n');
    ScanStaysInDiff(diff, |lines|);
    assert lines[..|lines|] == lines;
  }

  // ------------------------------------------------------- truncation and leaves

  lemma {:induction false} JoinConcat(a: seq<string>, b: seq<string>, sep: char)
    requires a != [] && b != []
    ensures Join(a + b, sep) == Join(a, sep) + [sep] + Join(b, sep)
  {
    if |a| == 1 {
      assert (a + b)[1..] == b;
    } else {
      JoinConcat(a[1..], b, sep);
      assert (a + b)[1..] == a[1..] + b;
    }
  }

  /** Truncation takes a prefix. */
  lemma TruncatedIsPrefix(imp: string)
    ensures TruncateImportPath(imp) <= imp
  {
    var parts := Split(imp, '/');
    JoinSplit(imp, '/');
    if |parts| > 3 {
      JoinConcat(parts[..3], parts[3..], '/');
      assert parts[..3] + parts[3..] == parts;
    }
  }

  /** At most three segments are left, and truncating again changes nothing. */
  lemma TruncatedHasThreeSegments(imp: string)
    ensures |Split(TruncateImportPath(imp), '/')| <= 3
    ensures TruncateImportPath(TruncateImportPath(imp)) == TruncateImportPath(imp)
  {
    var parts := Split(imp, '/');
    if |parts| > 3 {
      SplitPartsLackSeparator(imp, '/');
      assert forall k | 0 <= k < 3 :: Lacks(parts[..3][k], '/');
      SplitJoin(parts[..3], '/');
    }
  }

  /** A path of more than three segments is cut after the third, a shorter one is kept. */
  lemma TruncatedToThree(a: string, b: string, c: string, rest: string)
    requires Lacks(a, '/') && Lacks(b, '/') && Lacks(c, '/')
    ensures TruncateImportPath(a + ['/'] + (b + ['/'] + (c + ['/'] + rest))) == a + ['/'] + (b + ['/'] + c)
    ensures TruncateImportPath(a + ['/'] + (b + ['/'] + c)) == a + ['/'] + (b + ['/'] + c)
    ensures TruncateImportPath(a + ['/'] + b) == a + ['/'] + b && TruncateImportPath(a) == a
  {
    SplitLine(a, b + ['/'] + (c + ['/'] + rest), '/');
    SplitLine(b, c + ['/'] + rest, '/');
    SplitLine(c, rest, '/');
    SplitLine(a, b + ['/'] + c, '/');
    SplitLine(b, c, '/');
    SplitLine(a, b, '/');
    SplitOne(a, '/');
    SplitOne(b, '/');
    SplitOne(c, '/');
    FirstThree(a, b, c, Split(rest, '/'));
  }

  lemma FirstThree(a: string, b: string, c: string, more: seq<string>)
    ensures ([a] + ([b] + ([c] + more)))[..3] == [a, b, c]
    ensures Join([a, b, c], '/') == a + ['/'] + (b + ['/'] + c)
  {
    assert [a, b, c][1..] == [b, c] && [b, c][1..] == [c];
    assert Join([b, c], '/') == b + ['/'] + c;
  }

  lemma {:induction false} LeafIsSuffix(lib: string)
    ensures |LeafName(lib)| <= |lib| && LeafName(lib) == lib[|lib| - |LeafName(lib)|..]
  {
    if lib != "" && lib[|lib| - 1] != '/' {
      LeafIsSuffix(lib[..|lib| - 1]);
    }
  }

  lemma LibContainsLeaf(lib: string)
    ensures Contains(lib, LeafName(lib))
  {
    LeafIsSuffix(lib);
    var n := |lib| - |LeafName(lib)|;
    assert OccursAt(lib, LeafName(lib), n);
  }

  /** Matching the full path adds nothing to matching the leaf name. */
  lemma MentionsExactlyByLeaf(diff: string, lib: string)
    ensures Mentions(diff, lib) <==> Contains(diff, LeafName(lib))
  {
    LibContainsLeaf(lib);
    if Contains(diff, lib) {
      ContainsTransitive(diff, lib, LeafName(lib));
    }
  }

  // ------------------------------------------------------------ nothing is lost

  /** The extractors give substrings of what they are given. */
  ghost predicate GivesSubstrings(libraries: (string, string) -> seq<string>) {
    forall path, text, lib | lib in libraries(path, text) :: Contains(text, lib)
  }

  lemma {:induction false} TruncatedOrigin(imports: seq<string>, base: string) returns (imp: string)
    requires base in Truncated(imports)
    ensures imp in imports && base == TruncateImportPath(imp)
  {
    var n := |imports| - 1;
    if base == TruncateImportPath(imports[n]) {
      imp := imports[n];
    } else {
      imp := TruncatedOrigin(imports[..n], base);
    }
  }

  lemma {:induction false} FlatOrigin(infos: seq<seq<string>>, lib: string) returns (i: nat)
    requires lib in Flat(infos)
    ensures i < |infos| && lib in infos[i]
  {
    var n := |infos| - 1;
    if lib in infos[n] {
      i := n;
    } else {
      i := FlatOrigin(infos[..n], lib);
    }
  }

  lemma FlatLibIsMentioned(diff: string, order: seq<string>, libraries: (string, string) -> seq<string>, base: string)
    requires IsVisit(ParsedFiles(diff), order) && GivesSubstrings(libraries)
    requires base in FlatLibs(diff, order, libraries) && Lacks(LeafName(base), '\n')
    ensures Mentions(diff, base)
  {
    var files := ParsedFiles(diff);
    var infos := LibrariesInOrder(files, order, libraries);
    FirstOccurrencesAreASet(Truncated(Flat(infos)));
    var imp := TruncatedOrigin(Flat(infos), base);
    var i := FlatOrigin(infos, imp);
    var text := files[order[i]];
    assert imp in libraries(order[i], text);
    TruncatedIsPrefix(imp);
    assert imp == [] + base + imp[|base|..];
    ContainsMiddle([], base, imp[|base|..]);
    LibContainsLeaf(base);
    ContainsTransitive(imp, base, LeafName(base));
    ContainsTransitive(text, imp, LeafName(base));
    ParsedTextIsFromDiff(diff, order[i]);
    MentionsExactlyByLeaf(diff, base);
  }

  lemma {:induction false} MentionedAll(libs: seq<string>, diff: string)
    ensures Mentioned(libs, diff) == libs <==> forall lib | lib in libs :: Mentions(diff, lib)
    ensures |Mentioned(libs, diff)| <= |libs|
    ensures forall lib :: lib in Mentioned(libs, diff) <==> lib in libs && Mentions(diff, lib)
  {
    if libs != [] {
      var n := |libs| - 1;
      MentionedAll(libs[..n], diff);
      assert libs == libs[..n] + [libs[n]];
      if !Mentions(diff, libs[n]) {
        assert |Mentioned(libs, diff)| < |libs|;
      }
    }
  }

  /** No library is lost: if the leaf names hold no newline, the intersection with the diff
      keeps the whole list. */
  lemma NoLibraryLost(diff: string, order: seq<string>, libraries: (string, string) -> seq<string>)
    requires IsVisit(ParsedFiles(diff), order) && GivesSubstrings(libraries)
    requires forall lib | lib in FlatLibs(diff, order, libraries) :: Lacks(LeafName(lib), '\n')
    ensures Mentioned(FlatLibs(diff, order, libraries), diff) == FlatLibs(diff, order, libraries)
  {
    forall lib | lib in FlatLibs(diff, order, libraries)
      ensures Mentions(diff, lib)
    {
      FlatLibIsMentioned(diff, order, libraries, lib);
    }
    MentionedAll(FlatLibs(diff, order, libraries), diff);
  }

  /** In general a library is lost exactly when its leaf name does not occur in the diff. */
  lemma LostExactlyWhenLeafMissing(diff: string, libs: seq<string>, lib: string)
    requires lib in libs
    ensures lib !in Mentioned(libs, diff) <==> !Contains(diff, LeafName(lib))
  {
    MentionedAll(libs, diff);
    MentionsExactlyByLeaf(diff, lib);
  }

  /** What stands between the first two double quotes of a Go file, as the pattern for
      import blocks finds it. The pattern excludes quotes only, so it runs over line ends. */
  function BetweenQuotes(path: string, text: string): seq<string> {
    var i := IndexFrom(text, "\"", 0);
    var j := if i == -1 then -1 else IndexFrom(text, "\"", i + 1);
    if ".go" <= Suffix(path, 3) && j > i + 1 then [text[i + 1..j]] else []
  }

  /** The last n characters, or all. */
  function Suffix(s: string, n: nat): string {
    if n <= |s| then s[|s| - n..] else s
  }

  lemma BetweenQuotesGivesSubstrings()
    ensures GivesSubstrings(BetweenQuotes)
  {
    forall path, text, lib | lib in BetweenQuotes(path, text)
      ensures Contains(text, lib)
    {
      assert OccursAt(text, lib, IndexFrom(text, "\"", 0) + 1);
    }
  }

  lemma NoQuoteBefore(s: string, lo: nat, hi: nat)
    requires hi <= |s| && forall k | lo <= k < hi :: s[k] != '"'
    ensures forall k | lo <= k < hi :: !OccursAt(s, "\"", k)
  {
    forall k | lo <= k < hi
      ensures !OccursAt(s, "\"", k)
    {
      OccurrenceStarts(s, "\"", k);
    }
  }

  lemma QuoteAt(s: string, from: nat, j: nat)
    requires from <= j < |s| && s[j] == '"' && forall k | from <= k < j :: s[k] != '"'
    ensures IndexFrom(s, "\"", from) == j
  {
    assert OccursAt(s, "\"", j);
    NoQuoteBefore(s, from, j);
  }

  lemma QuotedParts(s: string, front: string, lib: string, rest: string)
    requires s == front + ['"'] + (lib + ['"'] + rest) && Lacks(front, '"') && Lacks(lib, '"')
    ensures var i, j := |front|, |front| + 1 + |lib|;
            && j < |s| && s[i] == '"' && s[j] == '"' && s[i + 1..j] == lib
            && (forall k | 0 <= k < i :: s[k] != '"') && (forall k | i < k < j :: s[k] != '"')
  {
    assert forall k | 0 <= k < |front| :: s[k] == front[k];
    assert forall k | |front| < k < |front| + 1 + |lib| :: s[k] == lib[k - |front| - 1];
  }

  lemma QuotedIsFound(path: string, front: string, lib: string, rest: string)
    requires Lacks(front, '"') && Lacks(lib, '"') && lib != ""
    requires ".go" <= Suffix(path, 3)
    ensures BetweenQuotes(path, front + ['"'] + (lib + ['"'] + rest)) == [lib]
  {
    var s := front + ['"'] + (lib + ['"'] + rest);
    QuotedParts(s, front, lib, rest);
    QuoteAt(s, 0, |front|);
    QuoteAt(s, |front| + 1, |front| + 1 + |lib|);
  }

  function AddedLines(lines: seq<string>): (added: seq<string>)
    ensures |added| == |lines|
  {
    seq(|lines|, k requires 0 <= k < |lines| => ['+'] + lines[k])
  }

  function Terminated(lines: seq<string>): string {
    if lines == [] then "" else Terminated(lines[..|lines| - 1]) + lines[|lines| - 1] + ['\n']
  }

  /** The diff of one file that adds the given lines. */
  function NewFileDiff(path: string, lines: seq<string>): string {
    Join([NewLine(path)] + AddedLines(lines), '\n')
  }

  lemma PlainAddition(line: string)
    requires !("++" <= line)
    ensures IsAdded(['+'] + line) && !IsFileLine(['+'] + line) && (['+'] + line)[1..] == line
  {
    var l := ['+'] + line;
    assert |l| >= 3 ==> l[..3][1..] == line[..2];
    assert "+++"[1..] == "++";
    assert "+++ b/"[..3] == "+++";
  }

  lemma {:induction false} AddedLinesScan(path: string, lines: seq<string>)
    requires path != "" && forall k | 0 <= k < |lines| :: !("++" <= lines[k])
    ensures ScanLines(Scan(map[], path, ""), AddedLines(lines)) == Scan(map[], path, Terminated(lines))
  {
    if lines != [] {
      var n := |lines| - 1;
      AddedLinesScan(path, lines[..n]);
      assert AddedLines(lines)[..n] == AddedLines(lines[..n]);
      PlainAddition(lines[n]);
    }
  }

  lemma NewFileIsParsed(path: string, lines: seq<string>)
    requires path != "" && lines != [] && Lacks(path, '\n') && AllLack(lines, '\n')
    requires forall k | 0 <= k < |lines| :: !("++" <= lines[k])
    ensures ParsedFiles(NewFileDiff(path, lines)) == map[path := Terminated(lines)]
  {
    SplitNewFileDiff(path, lines);
    ScanConcat(START, [NewLine(path)], AddedLines(lines));
    ScanFileLine(path);
    AddedLinesScan(path, lines);
    assert Terminated(lines) != "";
  }

  lemma SplitNewFileDiff(path: string, lines: seq<string>)
    requires Lacks(path, '\n') && AllLack(lines, '\n')
    ensures Split(NewFileDiff(path, lines), '\n') == [NewLine(path)] + AddedLines(lines)
  {
    var all := [NewLine(path)] + AddedLines(lines);
    forall k | 0 <= k < |all|
      ensures Lacks(all[k], '\n')
    {
      assert k > 0 ==> all[k] == ['+'] + lines[k - 1];
    }
    SplitJoin(all, '\n');
  }

  lemma ScanFileLine(path: string)
    ensures ScanLines(START, [NewLine(path)]) == Scan(map[], path, "")
  {
    MarkerLines(path);
    assert [NewLine(path)][..0] == [];
  }

  /** Lines that all begin with a plus sign, joined: a plus sign follows every newline. */
  lemma {:induction false} JoinMarksLines(lines: seq<string>, p: nat)
    requires AllLack(lines, '\n') && forall k | 0 <= k < |lines| :: lines[k] != "" && lines[k][0] == '+'
    requires p < |Join(lines, '\n')| && Join(lines, '\n')[p] == '\n'
    ensures p + 1 < |Join(lines, '\n')| && Join(lines, '\n')[p + 1] == '+'
  {
    var n := |lines[0]|;
    assert Lacks(lines[0], '\n');
    if |lines| > 1 {
      var rest := Join(lines[1..], '\n');
      assert Join(lines, '\n') == lines[0] + ['\n'] + rest;
      assert lines[1] != "" && lines[1][0] == '+';
      if p == n {
        assert rest != "" && rest[0] == lines[1][0];
      } else {
        JoinMarksLines(lines[1..], p - n - 1);
      }
    }
  }

  lemma NewlineNotInDiff(path: string, lines: seq<string>, t: string, k: nat)
    requires Lacks(path, '\n') && AllLack(lines, '\n')
    requires k + 1 < |t| && t[k] == '\n' && t[k + 1] != '+'
    ensures !Contains(NewFileDiff(path, lines), t)
  {
    var diff, all := NewFileDiff(path, lines), [NewLine(path)] + AddedLines(lines);
    MarkerLines(path);
    forall i | 0 <= i <= |diff|
      ensures !OccursAt(diff, t, i)
    {
      if OccursAt(diff, t, i) {
        assert diff[i + k] == diff[i..i + |t|][k] && diff[i + k + 1] == diff[i..i + |t|][k + 1];
        JoinMarksLines(all, i + k);
      }
    }
  }

  lemma {:induction false} LeafAfterSlash(front: string, leaf: string)
    requires Lacks(leaf, '/')
    ensures LeafName(front + ['/'] + leaf) == leaf
  {
    var lib := front + ['/'] + leaf;
    if leaf != "" {
      var n := |leaf| - 1;
      LeafAfterSlash(front, leaf[..n]);
      assert lib[..|lib| - 1] == front + ['/'] + leaf[..n];
    }
  }

  lemma LibsOfOneFile(diff: string, path: string, text: string, lib: string)
    requires ParsedFiles(diff) == map[path := text] && TruncateImportPath(lib) == lib
    requires BetweenQuotes(path, text) == [lib]
    ensures IsVisit(ParsedFiles(diff), [path]) && FlatLibs(diff, [path], BetweenQuotes) == [lib]
  {
    var infos := LibrariesInOrder(ParsedFiles(diff), [path], BetweenQuotes);
    assert |infos| == 1 && infos[0] == BetweenQuotes(path, text);
    assert infos == [[lib]];
    OneLibrary(lib);
  }

  lemma OneLibrary(lib: string)
    requires TruncateImportPath(lib) == lib
    ensures FirstOccurrences(Truncated(Flat([[lib]]))) == [lib]
  {
    assert [[lib]][..0] == [] && [lib][..0] == [];
    assert Flat([[lib]]) == [lib];
  }

  lemma NotMentioned(diff: string, lib: string)
    requires !Mentions(diff, lib)
    ensures Mentioned([lib], diff) == []
  {
    assert [lib][..0] == [];
  }

  lemma TerminatedFour(a: string, b: string, c: string, d: string)
    ensures Terminated([a, b, c, d]) == a + ['\n'] + b + ['\n'] + c + ['\n'] + d + ['\n']
  {
    assert [a, b, c, d][..3] == [a, b, c] && [a, b, c][..2] == [a, b] && [a, b][..1] == [a] && [a][..0] == [];
    assert Terminated([a]) == a + ['\n'];
    assert Terminated([a, b]) == a + ['\n'] + b + ['\n'];
  }

  /** An import path whose quotes stand on different lines. */
  const SPLIT_IMPORT := ["import (", "\"x.y/a", "b\"", ")"]

  lemma SplitImportText()
    ensures Terminated(SPLIT_IMPORT)
         == ("import (" + ['\n']) + ['"'] + ("x.y/a" + ['\n'] + "b" + ['"'] + (['\n'] + ")" + ['\n']))
  {
    TerminatedFour("import (", "\"x.y/a", "b\"", ")");
    assert "\"x.y/a" == ['"'] + "x.y/a" && "b\"" == "b" + ['"'];
  }

  lemma SplitImportIsFound(text: string)
    requires text == ("import (" + ['\n']) + ['"'] + ("x.y/a" + ['\n'] + "b" + ['"'] + (['\n'] + ")" + ['\n']))
    ensures BetweenQuotes("f.go", text) == ["x.y/a" + ['\n'] + "b"]
  {
    assert Suffix("f.go", 3) == ".go";
    QuotedIsFound("f.go", "import (" + ['\n'], "x.y/a" + ['\n'] + "b", ['\n'] + ")" + ['\n']);
  }

  lemma SplitLibrary(lib: string)
    requires lib == "x.y/a" + ['\n'] + "b"
    ensures TruncateImportPath(lib) == lib && LeafName(lib) == "a" + ['\n'] + "b"
  {
    var leaf := "a" + ['\n'] + "b";
    assert lib == "x.y" + ['/'] + leaf;
    LeafAfterSlash("x.y", leaf);
    SplitLine("x.y", leaf, '/');
    SplitOne(leaf, '/');
  }

  /** A library with a newline in its leaf, taken from a file whose diff only adds lines, is
      lost unless a plus sign follows the newline. */
  lemma LostInNewFile(path: string, lines: seq<string>, lib: string, k: nat)
    requires path != "" && lines != [] && Lacks(path, '\n') && AllLack(lines, '\n')
    requires forall i | 0 <= i < |lines| :: !("++" <= lines[i])
    requires BetweenQuotes(path, Terminated(lines)) == [lib] && TruncateImportPath(lib) == lib
    requires k + 1 < |LeafName(lib)| && LeafName(lib)[k] == '\n' && LeafName(lib)[k + 1] != '+'
    ensures var diff := NewFileDiff(path, lines);
            && IsVisit(ParsedFiles(diff), [path])
            && FlatLibs(diff, [path], BetweenQuotes) == [lib] && Mentioned([lib], diff) == []
  {
    var diff := NewFileDiff(path, lines);
    NewFileIsParsed(path, lines);
    LibsOfOneFile(diff, path, Terminated(lines), lib);
    NewlineNotInDiff(path, lines, LeafName(lib), k);
    MentionsExactlyByLeaf(diff, lib);
    NotMentioned(diff, lib);
  }

  /** A Go file that adds an import path broken over two lines. The pattern takes it for a
      library, with a newline in its leaf; the diff, where each line has its sign, does not
      mention it. */
  lemma LibraryWithNewlineIsLost()
    ensures var diff := NewFileDiff("f.go", SPLIT_IMPORT);
            var lib := "x.y/a" + ['\n'] + "b";
            && GivesSubstrings(BetweenQuotes) && IsVisit(ParsedFiles(diff), ["f.go"])
            && FlatLibs(diff, ["f.go"], BetweenQuotes) == [lib] && Mentioned([lib], diff) == []
  {
    var lib := "x.y/a" + ['\n'] + "b";
    BetweenQuotesGivesSubstrings();
    PlainImportLines();
    SplitImportText();
    SplitImportIsFound(Terminated(SPLIT_IMPORT));
    SplitLibrary(lib);
    LostInNewFile("f.go", SPLIT_IMPORT, lib, 1);
  }

  lemma PlainImportLines()
    ensures AllLack(SPLIT_IMPORT, '\n') && Lacks("f.go", '\n')
    ensures forall k | 0 <= k < |SPLIT_IMPORT| :: !("++" <= SPLIT_IMPORT[k])
  {
    forall k | 0 <= k < |SPLIT_IMPORT|
      ensures !("++" <= SPLIT_IMPORT[k])
    {
      assert SPLIT_IMPORT[k][0] != '+';
    }
  }

  // ------------------------------------------------------------ order does not matter

  lemma {:induction false} TruncatedElements(imports: seq<string>, base: string)
    ensures base in Truncated(imports) <==> exists imp | imp in imports :: base == TruncateImportPath(imp)
  {
    if imports != [] {
      var n := |imports| - 1;
      TruncatedElements(imports[..n], base);
      assert imports == imports[..n] + [imports[n]];
    }
  }

  lemma {:induction false} FlatElements(infos: seq<seq<string>>, lib: string)
    ensures lib in Flat(infos) <==> exists i | 0 <= i < |infos| :: lib in infos[i]
  {
    if infos != [] {
      var n := |infos| - 1;
      FlatElements(infos[..n], lib);
      if i :| 0 <= i < n && lib in infos[..n][i] {
        assert lib in infos[i];
      }
      if i :| 0 <= i <= n && lib in infos[i] {
        assert i < n ==> lib in infos[..n][i];
      }
    }
  }

  lemma InOneOrderInOther(files: map<string, string>, order: seq<string>, order': seq<string>,
                          libraries: (string, string) -> seq<string>, lib: string)
    requires IsVisit(files, order) && IsVisit(files, order')
    requires lib in Flat(LibrariesInOrder(files, order, libraries))
    ensures lib in Flat(LibrariesInOrder(files, order', libraries))
  {
    var infos, infos' := LibrariesInOrder(files, order, libraries), LibrariesInOrder(files, order', libraries);
    var i := FlatOrigin(infos, lib);
    assert order[i] in order';
    var j :| 0 <= j < |order'| && order'[j] == order[i];
    assert lib in infos'[j];
    FlatElements(infos', lib);
  }

  lemma BaseInOtherOrder(diff: string, order: seq<string>, order': seq<string>,
                         libraries: (string, string) -> seq<string>, base: string)
    requires IsVisit(ParsedFiles(diff), order) && IsVisit(ParsedFiles(diff), order')
    requires base in FlatLibs(diff, order, libraries)
    ensures base in FlatLibs(diff, order', libraries)
  {
    var files := ParsedFiles(diff);
    FirstOccurrencesAreASet(Truncated(Flat(LibrariesInOrder(files, order, libraries))));
    FirstOccurrencesAreASet(Truncated(Flat(LibrariesInOrder(files, order', libraries))));
    var imp := TruncatedOrigin(Flat(LibrariesInOrder(files, order, libraries)), base);
    InOneOrderInOther(files, order, order', libraries, imp);
    TruncatedElements(Flat(LibrariesInOrder(files, order', libraries)), base);
  }

  lemma {:induction false} NoDuplicates(a: seq<string>, x: string)
    requires NoRepeats(a)
    ensures multiset(a)[x] == if x in a then 1 else 0
  {
    if a != [] {
      var n := |a| - 1;
      NoDuplicates(a[..n], x);
      assert a == a[..n] + [a[n]];
    }
  }

  /** The list is the same up to order whichever way the files are visited. */
  lemma VisitOrderDoesNotMatter(diff: string, order: seq<string>, order': seq<string>,
                                libraries: (string, string) -> seq<string>)
    requires IsVisit(ParsedFiles(diff), order) && IsVisit(ParsedFiles(diff), order')
    ensures multiset(FlatLibs(diff, order, libraries)) == multiset(FlatLibs(diff, order', libraries))
  {
    var a, b := FlatLibs(diff, order, libraries), FlatLibs(diff, order', libraries);
    var files := ParsedFiles(diff);
    FirstOccurrencesAreASet(Truncated(Flat(LibrariesInOrder(files, order, libraries))));
    FirstOccurrencesAreASet(Truncated(Flat(LibrariesInOrder(files, order', libraries))));
    forall x: string
      ensures multiset(a)[x] == multiset(b)[x]
    {
      if x in a {
        BaseInOtherOrder(diff, order, order', libraries, x);
      }
      if x in b {
        BaseInOtherOrder(diff, order', order, libraries, x);
      }
      NoDuplicates(a, x);
      NoDuplicates(b, x);
    }
  }
}
