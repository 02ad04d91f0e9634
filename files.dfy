/** The file system as the compatibility tests see it: a map from paths to contents, the
    line reading of `BufferedReader.readLine`, the line writing of `PrintWriter.println`,
    and a text writer standing for `BufferedWriter(FileWriter)`. */
module Files {
  import opened RecordConsumer

  /** A `java.io.File` built as `new File(dir, name)`; `getName()` is `name` and
      `getParentFile()` is `dir`. */
  datatype FilePath = FilePath(dir: string, name: string)

  /** What a file holds: text, or a columnar file given by the record-consumer calls its
      Parquet writer received, whether dictionary encoding was requested, and whether the
      writer was closed (an unclosed columnar file is incomplete). */
  datatype Content =
    | Text(chars: string)
    | Columnar(events: seq<Event>, dictionary: bool, closed: bool)

  /** `new File(f.getAbsolutePath().concat(suffix))`: the same directory, a longer name. */
  function WithSuffix(f: FilePath, suffix: string): FilePath
  {
    FilePath(f.dir, f.name + suffix)
  }

  class FileSystem {
    var files: map<FilePath, Content>

    constructor (initial: map<FilePath, Content>)
      ensures files == initial
    {
      files := initial;
    }

    /** `File.delete()`: the file is gone afterwards, whether or not it was there. */
    method Delete(p: FilePath)
      modifies this
      ensures files == old(files) - {p}
    {
      files := files - {p};
    }

    /** Creating or overwriting one file. */
    method Store(p: FilePath, c: Content)
      modifies this
      ensures files == old(files)[p := c]
    {
      files := files[p := c];
    }
  }

  /** The test-file helpers' `new File(dir, name)`, deleted first when `deleteIfExists`
      is set; the parent directories they create are not modelled. */
  method PrepareFile(fs: FileSystem, dir: string, name: string, deleteIfExists: bool) returns (f: FilePath)
    modifies fs
    ensures f == FilePath(dir, name)
    ensures fs.files == if deleteIfExists then old(fs.files) - {f} else old(fs.files)
  {
    f := FilePath(dir, name);
    if deleteIfExists {
      fs.Delete(f);
    }
  }

  /** A second store to the same path replaces the first. */
  lemma StoreTwice(m: map<FilePath, Content>, p: FilePath, a: Content, b: Content)
    ensures m[p := a][p := b] == m[p := b]
  {
  }

  /** Deleting a file and then creating it is creating it over the old one. */
  lemma DeleteThenStore(m: map<FilePath, Content>, p: FilePath, c: Content)
    ensures (m - {p})[p := c] == m[p := c]
  {
  }

  // ----- lines -----

  predicate IsTerminator(c: char) {
    c == '\n' || c == '\r'
  }

  /** A string `readLine` can return: it holds no line terminator. */
  predicate IsLine(s: string) {
    forall i :: 0 <= i < |s| ==> !IsTerminator(s[i])
  }

  /** The length of the first line of `t`. */
  function LineEnd(t: string): (k: nat)
    ensures k <= |t| && IsLine(t[..k])
    ensures k < |t| ==> IsTerminator(t[k])
  {
    if |t| == 0 || IsTerminator(t[0]) then 0
    else
      var k := 1 + LineEnd(t[1..]);
      assert t[..k] == [t[0]] + t[1..][..k - 1];
      k
  }

  /** The strings successive `BufferedReader.readLine()` calls return before null: lines end
      at "\n", "\r" or "\r\n", and a last line without terminator still counts. */
  function ReadLines(t: string): (r: seq<string>)
    ensures forall i :: 0 <= i < |r| ==> IsLine(r[i])
    decreases |t|
  {
    if |t| == 0 then []
    else
      var k := LineEnd(t);
      if k == |t| then [t]
      else
        var next := if t[k] == '\r' && k + 1 < |t| && t[k + 1] == '\n' then k + 2 else k + 1;
        [t[..k]] + ReadLines(t[next..])
  }

  /** A file that can be read as lines: missing (opening it fails), or holding text. */
  predicate Readable(files: map<FilePath, Content>, p: FilePath) {
    p in files ==> files[p].Text?
  }

  /** The lines `readLine` returns for a text file. */
  function LinesOf(files: map<FilePath, Content>, p: FilePath): (r: seq<string>)
    requires p in files && files[p].Text?
    ensures forall i :: 0 <= i < |r| ==> IsLine(r[i])
  {
    ReadLines(files[p].chars)
  }

  /** `readFile`: the lines of a text file, each followed by the line separator "\n". */
  function ReadFile(files: map<FilePath, Content>, p: FilePath): string
    requires p in files && files[p].Text?
  {
    PrintLines(LinesOf(files, p))
  }

  /** The text `println` writes for each line in turn, with "\n" as line separator. */
  function PrintLines(lines: seq<string>): string
  {
    if |lines| == 0 then "" else lines[0] + "\n" + PrintLines(lines[1..])
  }

  /** Printing one more line appends it and its separator. */
  lemma {:induction false} PrintLinesSnoc(lines: seq<string>, x: string)
    ensures PrintLines(lines + [x]) == PrintLines(lines) + x + "\n"
  {
    if |lines| > 0 {
      assert (lines + [x])[1..] == lines[1..] + [x];
      PrintLinesSnoc(lines[1..], x);
    }
  }

  /** Reading back printed lines gives the lines. */
  lemma {:induction false} ReadPrintedLines(lines: seq<string>)
    requires forall i :: 0 <= i < |lines| ==> IsLine(lines[i])
    ensures ReadLines(PrintLines(lines)) == lines
  {
    if |lines| > 0 {
      var t := PrintLines(lines);
      var l := lines[0];
      assert t[..|l|] == l;
      assert t[|l|] == '\n';
      assert forall j :: 0 <= j < |l| ==> t[j] == l[j];
      LineEndOfLine(t, |l|);
      assert t[|l| + 1..] == PrintLines(lines[1..]);
      ReadPrintedLines(lines[1..]);
      assert lines == [l] + lines[1..];
    }
  }

  /** A terminator at `k` with none before it ends the first line there. */
  lemma {:induction false} LineEndOfLine(t: string, k: nat)
    requires k < |t| && IsTerminator(t[k]) && IsLine(t[..k])
    ensures LineEnd(t) == k
  {
    if k > 0 {
      assert t[..k][0] == t[0];
      assert t[1..][..k - 1] == t[..k][1..];
      LineEndOfLine(t[1..], k - 1);
    }
  }

  /** `BufferedWriter(FileWriter(path))`: opening creates or empties the file, the written
      text is buffered, and closing stores it. */
  class TextWriter {
    const path: FilePath
    var text: string

    constructor Open(fs: FileSystem, p: FilePath)
      modifies fs
      ensures path == p && text == ""
      ensures fs.files == old(fs.files)[p := Text("")]
    {
      path := p;
      text := "";
      new;
      fs.Store(p, Text(""));
    }

    method Write(s: string)
      modifies this
      ensures text == old(text) + s
    {
      text := text + s;
    }

    method Close(fs: FileSystem)
      modifies fs
      ensures fs.files == old(fs.files)[path := Text(text)]
    {
      fs.Store(path, Text(text));
    }
  }
}
