/** The equivalence check the compatibility tests end with: an expected CSV file and an
    output CSV file are compared line by line, in order, after stripping from each output
    line everything up to and including its first tab; optionally both files are first
    sorted by `String.compareTo` into `.sorted` siblings. */
module Equivalence {
  import opened Wrappers
  import opened JavaText
  import opened Files

  /** `lineOut.substring(lineOut.indexOf("\t") + 1)`: the text after the first tab, or the
      whole line when it has none. */
  function AfterFirstTab(s: string): string
  {
    s[IndexOf(s, '\t') + 1..]
  }

  /** The stripped line is what follows the first tab: the line is the tab-free text
      before it, the tab and the stripped line; a line without a tab is unchanged. */
  lemma AfterFirstTabSplits(s: string)
    ensures '\t' !in s ==> AfterFirstTab(s) == s
    ensures '\t' in s ==> exists p :: '\t' !in p && s == p + "\t" + AfterFirstTab(s)
  {
    var k := IndexOf(s, '\t');
    if k >= 0 {
      assert s == s[..k] + "\t" + s[k + 1..];
    }
  }

  /** How a comparison ends: it passes, or a JUnit assertion fails with the message
      "line n" for the 1-based line `n` (the lines differ, the expected file has a line
      the output lacks, or the reverse), or a file cannot be opened. */
  datatype Verdict =
    | Pass
    | LineDiffers(line: nat, expected: string, actual: string)
    | ExpectedLonger(line: nat)
    | OutputLonger(line: nat)
    | NotFound(path: FilePath)

  /** The lockstep comparison of the lines left after `done` lines matched. */
  function LockstepFrom(e: seq<string>, o: seq<string>, done: nat): Verdict
    decreases |e|
  {
    if |e| == 0 then (if |o| == 0 then Pass else OutputLonger(done))
    else if |o| == 0 then ExpectedLonger(done)
    else if e[0] != AfterFirstTab(o[0]) then LineDiffers(done + 1, e[0], AfterFirstTab(o[0]))
    else LockstepFrom(e[1..], o[1..], done + 1)
  }

  /** The lockstep comparison of the expected lines `e` with the output lines `o`. */
  function Lockstep(e: seq<string>, o: seq<string>): Verdict
  {
    LockstepFrom(e, o, 0)
  }

  /** The output lines with everything through their first tab removed. */
  function Stripped(o: seq<string>): (r: seq<string>)
    ensures |r| == |o|
  {
    if |o| == 0 then [] else [AfterFirstTab(o[0])] + Stripped(o[1..])
  }

  lemma {:induction false} StrippedAt(o: seq<string>, i: nat)
    requires i < |o|
    ensures Stripped(o)[i] == AfterFirstTab(o[i])
  {
    if i > 0 {
      StrippedAt(o[1..], i - 1);
    }
  }

  /** The loop `while ((lineIn = expected.readLine()) != null && (lineOut = out.readLine()) != null)`
      with its `assertEquals` and the two `assertNull`s after it. */
  method VerifyLines(e: seq<string>, o: seq<string>) returns (v: Verdict)
    ensures v == Lockstep(e, o)
  {
    var lineNumber := 0;
    while lineNumber < |e| && lineNumber < |o|
      invariant lineNumber <= |e| && lineNumber <= |o|
      invariant Lockstep(e, o) == LockstepFrom(e[lineNumber..], o[lineNumber..], lineNumber)
    {
      var lineIn := e[lineNumber];
      var lineOut := o[lineNumber];
      assert e[lineNumber..][1..] == e[lineNumber + 1..];
      assert o[lineNumber..][1..] == o[lineNumber + 1..];
      lineNumber := lineNumber + 1;
      lineOut := AfterFirstTab(lineOut);
      if lineIn != lineOut {
        return LineDiffers(lineNumber, lineIn, lineOut);
      }
    }
    if lineNumber < |e| {
      return ExpectedLonger(lineNumber);
    }
    if lineNumber < |o| {
      return OutputLonger(lineNumber);
    }
    return Pass;
  }

  /** The ordered comparison passes exactly when both files have the same number of lines
      and every expected line equals the tab-stripped output line at the same position. */
  lemma {:induction false} LockstepPass(e: seq<string>, o: seq<string>)
    ensures Lockstep(e, o) == Pass <==> e == Stripped(o)
  {
    LockstepFromPass(e, o, 0);
  }

  lemma {:induction false} LockstepFromPass(e: seq<string>, o: seq<string>, done: nat)
    ensures LockstepFrom(e, o, done) == Pass <==> e == Stripped(o)
    decreases |e|
  {
    if |e| > 0 && |o| > 0 {
      LockstepFromPass(e[1..], o[1..], done + 1);
      assert e == [e[0]] + e[1..];
    }
  }

  /** A failing ordered comparison reports the first line at which the files part: the
      lines before it matched, and the report names that line (1-based) with its expected
      and its stripped output text, or, when one file ends first, the shorter one's length. */
  lemma {:induction false} LockstepFailure(e: seq<string>, o: seq<string>)
    ensures match Lockstep(e, o)
      case Pass => true
      case LineDiffers(n, x, y) =>
        1 <= n <= |e| && n <= |o| && e[..n - 1] == Stripped(o)[..n - 1]
        && x == e[n - 1] && y == Stripped(o)[n - 1] && x != y
      case ExpectedLonger(n) => n == |o| < |e| && e[..n] == Stripped(o)
      case OutputLonger(n) => n == |e| < |o| && e == Stripped(o)[..n]
      case NotFound(_) => false
  {
    LockstepFromFailure(e, o, 0);
  }

  lemma LockstepFromFailure(e: seq<string>, o: seq<string>, done: nat)
    ensures match LockstepFrom(e, o, done)
      case Pass => true
      case LineDiffers(n, x, y) =>
        done + 1 <= n <= done + |e| && n <= done + |o| && e[..n - done - 1] == Stripped(o)[..n - done - 1]
        && x == e[n - done - 1] && y == Stripped(o)[n - done - 1] && x != y
      case ExpectedLonger(n) => n == done + |o| && |o| < |e| && e[..|o|] == Stripped(o)
      case OutputLonger(n) => n == done + |e| && |e| < |o| && e == Stripped(o)[..|e|]
      case NotFound(_) => false
  {
    match LockstepFrom(e, o, done)
    case LineDiffers(n, x, y) => LockstepFromDiffers(e, o, done);
    case ExpectedLonger(n) => LockstepFromExpectedLonger(e, o, done);
    case OutputLonger(n) => LockstepFromOutputLonger(e, o, done);
    case _ => LockstepFromFound(e, o, done);
  }

  lemma {:induction false} LockstepFromFound(e: seq<string>, o: seq<string>, done: nat)
    ensures !LockstepFrom(e, o, done).NotFound?
    decreases |e|
  {
    if |e| > 0 && |o| > 0 && e[0] == AfterFirstTab(o[0]) {
      LockstepFromFound(e[1..], o[1..], done + 1);
    }
  }

  lemma {:induction false} LockstepFromDiffers(e: seq<string>, o: seq<string>, done: nat)
    requires LockstepFrom(e, o, done).LineDiffers?
    ensures var v := LockstepFrom(e, o, done); var m := v.line - done - 1;
      && 0 <= m < |e| && m < |o| && e[..m] == Stripped(o)[..m]
      && v.expected == e[m] && v.actual == Stripped(o)[m] && v.expected != v.actual
    decreases |e|
  {
    var s := Stripped(o);
    if e[0] == AfterFirstTab(o[0]) {
      LockstepFromDiffers(e[1..], o[1..], done + 1);
      var m := LockstepFrom(e, o, done).line - done - 1;
      assert s[1..] == Stripped(o[1..]);
      ConsPrefix(e, m);
      ConsPrefix(s, m);
    }
  }

  lemma {:induction false} LockstepFromExpectedLonger(e: seq<string>, o: seq<string>, done: nat)
    requires LockstepFrom(e, o, done).ExpectedLonger?
    ensures LockstepFrom(e, o, done).line == done + |o| && |o| < |e| && e[..|o|] == Stripped(o)
    decreases |e|
  {
    if |o| > 0 {
      LockstepFromExpectedLonger(e[1..], o[1..], done + 1);
      var s := Stripped(o);
      assert s[1..] == Stripped(o[1..]);
      ConsPrefix(e, |o|);
      assert s == [s[0]] + s[1..];
    }
  }

  lemma {:induction false} LockstepFromOutputLonger(e: seq<string>, o: seq<string>, done: nat)
    requires LockstepFrom(e, o, done).OutputLonger?
    ensures LockstepFrom(e, o, done).line == done + |e| && |e| < |o| && e == Stripped(o)[..|e|]
    decreases |e|
  {
    if |e| > 0 {
      LockstepFromOutputLonger(e[1..], o[1..], done + 1);
      var s := Stripped(o);
      assert s[1..] == Stripped(o[1..]);
      ConsPrefix(s, |e|);
      assert e == [e[0]] + e[1..];
    }
  }

  /** A non-empty prefix is the first element followed by a prefix of the rest. */
  lemma ConsPrefix(x: seq<string>, m: nat)
    requires 1 <= m <= |x|
    ensures x[..m] == [x[0]] + x[1..][..m - 1]
  {
  }

  // ----- sorting by String.compareTo -----

  /** Ascending in `String.compareTo` order. */
  predicate Sorted(s: seq<string>) {
    forall i, j :: 0 <= i < j < |s| ==> AtMost(s[i], s[j])
  }

  /** `x` inserted before the first element it does not follow. */
  function Insert(x: string, s: seq<string>): (r: seq<string>)
    requires Sorted(s)
    ensures Sorted(r) && multiset(r) == multiset(s) + multiset{x}
  {
    if |s| == 0 then [x]
    else if AtMost(x, s[0]) then
      SortedFirstIsLeast(s, x);
      SortedCons(x, s);
      [x] + s
    else
      var rest := Insert(x, s[1..]);
      AtMostTotal(x, s[0]);
      assert forall j :: 0 <= j < |s[1..]| ==> s[1..][j] == s[j + 1];
      LowerBoundKept(s[0], s[1..], x, rest);
      SortedCons(s[0], rest);
      assert s == [s[0]] + s[1..];
      [s[0]] + rest
  }

  /** Whatever is at most the first line of a sorted list is at most all of its lines. */
  lemma SortedFirstIsLeast(s: seq<string>, y: string)
    requires Sorted(s) && |s| > 0 && AtMost(y, s[0])
    ensures forall j :: 0 <= j < |s| ==> AtMost(y, s[j])
  {
    forall j | 0 < j < |s|
      ensures AtMost(y, s[j])
    {
      AtMostTransitive(y, s[0], s[j]);
    }
  }

  /** A line at most every line of a sorted list can go in front of it. */
  lemma SortedCons(y: string, s: seq<string>)
    requires Sorted(s) && forall j :: 0 <= j < |s| ==> AtMost(y, s[j])
    ensures Sorted([y] + s)
  {
    var r := [y] + s;
    forall i, j | 0 <= i < j < |r|
      ensures AtMost(r[i], r[j])
    {
      if i == 0 {
        assert r[j] == s[j - 1];
      } else {
        assert r[i] == s[i - 1] && r[j] == s[j - 1];
      }
    }
  }

  /** A lower bound of `t` and of `x` bounds every line of a list holding `t`'s lines and `x`. */
  lemma LowerBoundKept(y: string, t: seq<string>, x: string, r: seq<string>)
    requires forall j :: 0 <= j < |t| ==> AtMost(y, t[j])
    requires AtMost(y, x) && multiset(r) == multiset(t) + multiset{x}
    ensures forall j :: 0 <= j < |r| ==> AtMost(y, r[j])
  {
    forall j | 0 <= j < |r|
      ensures AtMost(y, r[j])
    {
      assert r[j] in multiset(r);
      if r[j] != x {
        assert r[j] in multiset(t);
        var k :| 0 <= k < |t| && t[k] == r[j];
      }
    }
  }

  /** The lines sorted: the order `Collections.sort` produces by `compareTo`. */
  function SortLines(s: seq<string>): (r: seq<string>)
    ensures Sorted(r) && multiset(r) == multiset(s)
  {
    if |s| == 0 then []
    else
      assert s == [s[0]] + s[1..];
      Insert(s[0], SortLines(s[1..]))
  }

  /** There is only one sorted permutation of a list of lines, whichever sort made it:
      `compareTo` is a total order in which only equal strings compare equal. */
  lemma {:induction false} SortedUnique(a: seq<string>, b: seq<string>)
    requires Sorted(a) && Sorted(b) && multiset(a) == multiset(b)
    ensures a == b
  {
    if |a| == 0 {
      assert |multiset(b)| == 0;
    } else {
      SortedHeads(a, b);
      TailMultiset(a);
      TailMultiset(b);
      SortedUnique(a[1..], b[1..]);
      assert a == [a[0]] + a[1..] && b == [b[0]] + b[1..];
    }
  }

  /** Two sorted permutations of the same non-empty lines start with the same line. */
  lemma SortedHeads(a: seq<string>, b: seq<string>)
    requires Sorted(a) && Sorted(b) && multiset(a) == multiset(b) && |a| > 0
    ensures |b| > 0 && a[0] == b[0]
  {
    assert a[0] in multiset(b);
    assert b[0] in multiset(a);
    var j :| 0 <= j < |b| && b[j] == a[0];
    var i :| 0 <= i < |a| && a[i] == b[0];
    assert AtMost(b[0], a[0]) by {
      if j == 0 {
        CompareToZero(b[0], a[0]);
      }
    }
    assert AtMost(a[0], b[0]) by {
      if i == 0 {
        CompareToZero(a[0], b[0]);
      }
    }
    AtMostTotal(a[0], b[0]);
  }

  /** Dropping the first line drops one occurrence of it. */
  lemma TailMultiset(a: seq<string>)
    requires |a| > 0
    ensures multiset(a[1..]) == multiset(a) - multiset{a[0]}
  {
    assert a == [a[0]] + a[1..];
  }

  /** Sorting before the ordered comparison makes it order-insensitive: when no output line
      holds a tab, the sorted lines match exactly when both files hold the same lines the
      same number of times. */
  lemma SortedLockstep(e: seq<string>, o: seq<string>)
    requires forall i :: 0 <= i < |o| ==> '\t' !in o[i]
    ensures Lockstep(SortLines(e), SortLines(o)) == Pass <==> multiset(e) == multiset(o)
  {
    var se, so := SortLines(e), SortLines(o);
    forall i | 0 <= i < |so|
      ensures '\t' !in so[i]
    {
      assert so[i] in multiset(o);
    }
    StrippedTabFree(so);
    LockstepPass(se, so);
    if multiset(e) == multiset(o) {
      SortedUnique(se, so);
    }
  }

  /** Lines without a tab are not changed by the stripping. */
  lemma {:induction false} StrippedTabFree(o: seq<string>)
    requires forall i :: 0 <= i < |o| ==> '\t' !in o[i]
    ensures Stripped(o) == o
  {
    if |o| > 0 {
      AfterFirstTabSplits(o[0]);
      StrippedTabFree(o[1..]);
      assert o == [o[0]] + o[1..];
    }
  }

  // ----- on the file system -----

  /** The sibling a sort writes: `new File(f.getAbsolutePath().concat(".sorted"))`. */
  function SortedPath(f: FilePath): (r: FilePath)
    ensures r.dir == f.dir && r != f
  {
    WithSuffix(f, ".sorted")
  }

  /** The ordered `verify(expected, output)`: the expected file is opened first. */
  function VerifyFiles(files: map<FilePath, Content>, e: FilePath, o: FilePath): Verdict
    requires Readable(files, e) && Readable(files, o)
  {
    if e !in files then NotFound(e)
    else if o !in files then NotFound(o)
    else Lockstep(LinesOf(files, e), LinesOf(files, o))
  }

  /** What a sort leaves in the file system: the input's lines, sorted, printed to the
      `.sorted` sibling. */
  function SortInto(files: map<FilePath, Content>, f: FilePath): (r: map<FilePath, Content>)
    requires f in files && files[f].Text?
    ensures r.Keys == files.Keys + {SortedPath(f)}
  {
    files[SortedPath(f) := Text(PrintLines(SortLines(LinesOf(files, f))))]
  }

  /** The file system after a check and the check's verdict. */
  datatype CheckOutcome = CheckOutcome(files: map<FilePath, Content>, verdict: Verdict)

  /** The order-insensitive `verify(expected, output, false)`: sort the expected file,
      then the output file, then compare the two sorted files in order. */
  function VerifyUnorderedFiles(files: map<FilePath, Content>, e: FilePath, o: FilePath): CheckOutcome
    requires Readable(files, e) && Readable(files, o)
  {
    if e !in files then CheckOutcome(files, NotFound(e))
    else
      var f1 := SortInto(files, e);
      assert Readable(f1, o);
      if o !in f1 then CheckOutcome(f1, NotFound(o))
      else
        var f2 := SortInto(f1, o);
        CheckOutcome(f2, VerifyFiles(f2, SortedPath(e), SortedPath(o)))
  }

  /** `verify(expected, output)`: open the expected file, then the output file, and run
      the lockstep loop over their lines. */
  method Verify(fs: FileSystem, e: FilePath, o: FilePath) returns (v: Verdict)
    requires Readable(fs.files, e) && Readable(fs.files, o)
    ensures v == VerifyFiles(fs.files, e, o)
  {
    if e !in fs.files {
      return NotFound(e);
    }
    if o !in fs.files {
      return NotFound(o);
    }
    v := VerifyLines(LinesOf(fs.files, e), LinesOf(fs.files, o));
  }

  /** `sortFile(inFile)` with `Collections.sort`: read every line into a list, sort it,
      and print the list to the `.sorted` sibling. */
  method SortFile(fs: FileSystem, inFile: FilePath) returns (sorted: Option<FilePath>)
    requires Readable(fs.files, inFile)
    modifies fs
    ensures inFile !in old(fs.files) ==> sorted.None? && fs.files == old(fs.files)
    ensures inFile in old(fs.files) ==> sorted == Some(SortedPath(inFile)) && fs.files == SortInto(old(fs.files), inFile)
  {
    if inFile !in fs.files {
      return None;
    }
    ghost var before := fs.files;
    var lineList := LinesOf(fs.files, inFile);
    ghost var text := PrintLines(SortLines(lineList));
    assert SortInto(before, inFile) == before[SortedPath(inFile) := Text(text)];
    var out := new TextWriter.Open(fs, SortedPath(inFile));
    lineList := SortLines(lineList);
    PrintEach(out, lineList);
    assert out.text == text;
    assert fs.files == before[out.path := Text("")];
    out.Close(fs);
    StoreTwice(before, out.path, Text(""), Text(text));
    return Some(out.path);
  }

  /** `for (String outputLine : lineList) out.println(outputLine);` */
  method PrintEach(out: TextWriter, lines: seq<string>)
    modifies out
    ensures out.text == old(out.text) + PrintLines(lines)
  {
    var i := 0;
    while i < |lines|
      invariant i <= |lines|
      invariant out.text == old(out.text) + PrintLines(lines[..i])
    {
      PrintLinesSnoc(lines[..i], lines[i]);
      assert lines[..i + 1] == lines[..i] + [lines[i]];
      out.Write(lines[i] + "\n");
      i := i + 1;
    }
    assert lines[..i] == lines;
  }

  /** Reading a sorted file back gives the sorted lines. */
  lemma ReadSortedFile(files: map<FilePath, Content>, f: FilePath)
    requires f in files && files[f].Text?
    ensures LinesOf(SortInto(files, f), SortedPath(f)) == SortLines(LinesOf(files, f))
  {
    var lines := LinesOf(files, f);
    var sorted := SortLines(lines);
    forall i | 0 <= i < |sorted|
      ensures IsLine(sorted[i])
    {
      assert sorted[i] in multiset(lines);
    }
    ReadPrintedLines(sorted);
  }

  /** The order-insensitive check passes exactly when both files hold the same multiset of
      lines, provided they exist, no output line holds a tab, and the output file is not
      the expected file's `.sorted` sibling (which the first sort overwrites). */
  lemma UnorderedPass(files: map<FilePath, Content>, e: FilePath, o: FilePath)
    requires e in files && files[e].Text? && o in files && files[o].Text?
    requires o != SortedPath(e)
    requires forall i :: 0 <= i < |LinesOf(files, o)| ==> '\t' !in LinesOf(files, o)[i]
    ensures VerifyUnorderedFiles(files, e, o).verdict == Pass <==> multiset(LinesOf(files, e)) == multiset(LinesOf(files, o))
  {
    var f1 := SortInto(files, e);
    assert f1[o] == files[o];
    var f2 := SortInto(f1, o);
    var le, lo := LinesOf(files, e), LinesOf(files, o);
    assert LinesOf(f1, o) == lo;
    ReadSortedFile(files, e);
    ReadSortedFile(f1, o);
    assert LinesOf(f2, SortedPath(o)) == SortLines(lo);
    if SortedPath(o) != SortedPath(e) {
      assert f2[SortedPath(e)] == f1[SortedPath(e)];
      assert LinesOf(f2, SortedPath(e)) == SortLines(le);
    } else {
      assert o.name == (o.name + ".sorted")[..|o.name|] == (e.name + ".sorted")[..|e.name|] == e.name;
    }
    SortedLockstep(le, lo);
  }
}
