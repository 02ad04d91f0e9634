/** CsvParquetWriter: a ParquetWriter driving a `CsvWriteSupport`, and the line loop the
    CSV-to-Parquet conversions share: each line read from the CSV text is split on the
    literal '|' and handed to the writer, counting the lines written. */
module CsvParquetWriter {
  import opened Wrappers
  import opened JavaText
  import opened RecordConsumer
  import opened Files
  import opened CsvWriteSupport
  import RowFormat

  /** The failures of a conversion, each standing for the exception the source raises. */
  datatype ConvertError =
    | NameTooShort(name: string)             // substring with a negative end index
    | FileNotFound(path: FilePath)           // FileReader on a missing file
    | OutputExists(path: FilePath)           // IOException "Output file ... already exists"
    | SchemaInvalid                          // MessageTypeParser rejects the schema text
    | LineFailed(lineNumber: nat, csvFile: FilePath, cause: WriteError)  // wrapped RuntimeException
    | WriteFailed(cause: WriteError)         // the writer's exception, not wrapped
    | NotParquetName                         // IllegalArgumentException: no .parquet extension
    | NotCsvName                             // IllegalArgumentException: no .csv extension
    | CsvOutputExists(path: FilePath)        // IllegalArgumentException: output already exists
    | Unreadable(path: FilePath)             // the footer of a Parquet file cannot be read
    | NoRowGroup(path: FilePath)             // readNextRowGroup returned null

  /** A Parquet writer over one output file. The file holds what the writer's record
      consumer received, and counts as complete once the writer is closed. */
  class CsvParquetWriter {
    const path: FilePath
    const dictionary: bool
    const support: CsvWriteSupport
    const log: EventLog

    predicate Valid()
      reads this, support
    {
      support.recordConsumer == log
    }

    /** `new CsvParquetWriter(path, schema, enableDictionary)`: creates the output file
        and prepares the write support with the writer's record consumer. */
    constructor (fs: FileSystem, path: FilePath, schema: seq<ColumnDescriptor>, parsesFloating: string -> bool, dictionary: bool)
      modifies fs
      ensures Valid() && fresh(log) && fresh(support)
      ensures this.path == path && this.dictionary == dictionary
      ensures support.cols == schema && support.parsesFloating == parsesFloating && log.events == []
      ensures fs.files == old(fs.files)[path := Columnar([], dictionary, false)]
    {
      this.path := path;
      this.dictionary := dictionary;
      var s := new CsvWriteSupport(schema, parsesFloating);
      var l := new EventLog();
      s.PrepareForWrite(l);
      support := s;
      log := l;
      new;
      fs.Store(path, Columnar([], dictionary, false));
    }

    /** `write(values)`: one record through the write support. */
    method Write(values: seq<string>) returns (error: Option<WriteError>)
      requires Valid()
      modifies log
      ensures Valid()
      ensures log.events == old(log.events) + Encode(support.cols, values, support.parsesFloating).emitted
      ensures error == Encode(support.cols, values, support.parsesFloating).error
    {
      error := support.Write(values);
    }

    /** `close()`: the file now holds every call the consumer received, and is complete. */
    method Close(fs: FileSystem)
      modifies fs
      ensures fs.files == old(fs.files)[path := Columnar(log.events, dictionary, true)]
    {
      fs.Store(path, Columnar(log.events, dictionary, true));
    }
  }

  /** The fields `line.split(Pattern.quote("|"))` hands to the writer. */
  function Fields(line: string): seq<string>
  {
    Split(line, RowFormat.Delimiter)
  }

  /** The outcome of the line loop: the consumer calls made, the lines written before the
      loop stopped (the `lineNumber` counter), and the failure that stopped it, if any. */
  datatype LoadOutcome = LoadOutcome(events: seq<Event>, written: nat, error: Option<WriteError>)

  /** The line loop over `lines`, stopping at the first line the writer rejects. */
  function Load(cols: seq<ColumnDescriptor>, lines: seq<string>, pf: string -> bool): LoadOutcome
  {
    if |lines| == 0 then LoadOutcome([], 0, None)
    else
      var prev := Load(cols, lines[..|lines| - 1], pf);
      if prev.error.Some? then prev
      else
        var w := Encode(cols, Fields(lines[|lines| - 1]), pf);
        LoadOutcome(prev.events + w.emitted, prev.written + if w.error.None? then 1 else 0, w.error)
  }

  /** The loop `while ((line = br.readLine()) != null) { writer.write(split(line)); ++lineNumber; }`,
      returning `lineNumber` and the writer's exception, if one stopped it. */
  method WriteLines(writer: CsvParquetWriter, lines: seq<string>) returns (lineNumber: nat, error: Option<WriteError>)
    requires writer.Valid()
    modifies writer.log
    ensures writer.Valid()
    ensures var l := Load(writer.support.cols, lines, writer.support.parsesFloating);
      && writer.log.events == old(writer.log.events) + l.events
      && lineNumber == l.written && error == l.error
  {
    var cols, pf := writer.support.cols, writer.support.parsesFloating;
    ghost var start := writer.log.events;
    lineNumber := 0;
    while lineNumber < |lines|
      invariant writer.Valid()
      invariant lineNumber <= |lines|
      invariant Load(cols, lines[..lineNumber], pf).error.None?
      invariant Load(cols, lines[..lineNumber], pf).written == lineNumber
      invariant writer.log.events == start + Load(cols, lines[..lineNumber], pf).events
    {
      LoadSnoc(cols, lines, lineNumber, pf);
      ghost var done := Load(cols, lines[..lineNumber], pf).events;
      var fields := Fields(lines[lineNumber]);
      error := writer.Write(fields);
      ConcatAssoc(start, done, Encode(cols, fields, pf).emitted);
      if error.Some? {
        LoadStops(cols, lines, lineNumber + 1, pf);
        return;
      }
      lineNumber := lineNumber + 1;
    }
    assert lines[..lineNumber] == lines;
    error := None;
  }

  /** One more line adds its record's calls, when the lines before it were accepted. */
  lemma LoadSnoc(cols: seq<ColumnDescriptor>, lines: seq<string>, n: nat, pf: string -> bool)
    requires n < |lines|
    requires Load(cols, lines[..n], pf).error.None?
    ensures var prev := Load(cols, lines[..n], pf); var w := Encode(cols, Fields(lines[n]), pf);
      Load(cols, lines[..n + 1], pf)
        == LoadOutcome(prev.events + w.emitted, prev.written + if w.error.None? then 1 else 0, w.error)
  {
    assert lines[..n + 1][..n] == lines[..n];
  }

  /** Once a line failed, later lines leave the outcome as it was. */
  lemma {:induction false} LoadStops(cols: seq<ColumnDescriptor>, lines: seq<string>, n: nat, pf: string -> bool)
    requires n <= |lines|
    requires Load(cols, lines[..n], pf).error.Some?
    ensures Load(cols, lines, pf) == Load(cols, lines[..n], pf)
    decreases |lines| - n
  {
    if n < |lines| {
      assert lines[..n + 1][..n] == lines[..n];
      LoadStops(cols, lines, n + 1, pf);
    } else {
      assert lines[..n] == lines;
    }
  }

  /** The line counter is the 0-based index of the line that failed: every earlier line
      was accepted, and the failure is the writer's exception for that line. Without a
      failure every line was written. */
  lemma {:induction false} LoadCountsLines(cols: seq<ColumnDescriptor>, lines: seq<string>, pf: string -> bool)
    ensures var l := Load(cols, lines, pf);
      && l.written <= |lines|
      && (l.error.None? ==> l.written == |lines|)
      && (l.error.Some? ==> l.written < |lines| && Encode(cols, Fields(lines[l.written]), pf).error == l.error)
      && (forall j :: 0 <= j < l.written ==> Encode(cols, Fields(lines[j]), pf).error.None?)
  {
    if |lines| > 0 {
      var init := lines[..|lines| - 1];
      LoadCountsLines(cols, init, pf);
      var prev := Load(cols, init, pf);
      assert forall j :: 0 <= j < prev.written ==> lines[j] == init[j];
    }
  }

  /** Without a failure, the calls made are the records of the lines one after another, so
      the file holds one message per line. */
  lemma {:induction false} LoadConcatenates(cols: seq<ColumnDescriptor>, lines: seq<string>, pf: string -> bool)
    requires Load(cols, lines, pf).error.None?
    ensures Load(cols, lines, pf).events == Records(cols, lines, pf)
  {
    if |lines| > 0 {
      var init := lines[..|lines| - 1];
      LoadConcatenates(cols, init, pf);
    }
  }

  /** The calls of the lines' records, one after another. */
  function Records(cols: seq<ColumnDescriptor>, lines: seq<string>, pf: string -> bool): seq<Event>
  {
    if |lines| == 0 then [] else Records(cols, lines[..|lines| - 1], pf) + Encode(cols, Fields(lines[|lines| - 1]), pf).emitted
  }

  /** After a failure, the calls made are the records of the lines before the failing one,
      then the partial record of the failing line. */
  lemma {:induction false} LoadFailureEvents(cols: seq<ColumnDescriptor>, lines: seq<string>, pf: string -> bool)
    requires Load(cols, lines, pf).error.Some?
    ensures var l := Load(cols, lines, pf);
      && l.written < |lines|
      && l.events == Records(cols, lines[..l.written], pf) + Encode(cols, Fields(lines[l.written]), pf).emitted
  {
    var init := lines[..|lines| - 1];
    var prev := Load(cols, init, pf);
    LoadCountsLines(cols, init, pf);
    if prev.error.Some? {
      LoadFailureEvents(cols, init, pf);
      assert init[..prev.written] == lines[..prev.written];
    } else {
      LoadConcatenates(cols, init, pf);
      assert lines[..|init|] == init;
    }
  }
}
