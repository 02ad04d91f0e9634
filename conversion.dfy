/** What the conversions between CSV and Parquet files leave in the file system. The
    CSV-to-Parquet conversion of parquet-compat, of parquet-mr-tests and of the TPC-H test
    run the same steps and differ in three choices: whether a failing line's exception is
    wrapped with its line number, whether the writer is still closed after a failure, and
    whether an existing output is deleted or refused. The Parquet-to-CSV conversions of the
    two `ConvertUtils` differ only in the ".0" rule. */
module Conversion {
  import opened Wrappers
  import opened JavaText
  import opened Files
  import opened RecordConsumer
  import opened CsvWriteSupport
  import opened CsvParquetWriter
  import opened RowFormat
  import opened Naming

  /** The choices a CSV-to-Parquet conversion makes. */
  datatype Variant = Variant(wrapFailures: bool, closeOnFailure: bool, replaceOutput: bool)

  /** parquet-mr-tests `ConvertUtils.convertCsvToParquet`: a `RuntimeException` is rethrown
      with the line number, and the writer is closed in `finally`. */
  const MrVariant := Variant(true, true, false)
  /** parquet-compat `ConvertUtils.convertCsvToParquet`: no wrapping, and `writer.close()`
      is reached only after the last line. */
  const CompatVariant := Variant(false, false, false)
  /** `TestReadTPCHFiles.convertToParquet`: the output is deleted first, a failure is
      wrapped and leaves the writer open. */
  const TpchVariant := Variant(true, false, true)

  /** The file system after a conversion and the exception it ended with, if any. */
  datatype ConvertOutcome = ConvertOutcome(files: map<FilePath, Content>, error: Option<ConvertError>)

  /** `getSchema(csvFile)`: the text of the schema file beside the CSV file. */
  function GetSchema(files: map<FilePath, Content>, csvFile: FilePath): (r: Result<string, ConvertError>)
    requires SchemaFile(csvFile).Some? ==> Readable(files, SchemaFile(csvFile).value)
    ensures r.Err? <==> SchemaFile(csvFile).None? || SchemaFile(csvFile).value !in files
    ensures r.Err? ==> r.error == if SchemaFile(csvFile).None? then NameTooShort(csvFile.name) else FileNotFound(SchemaFile(csvFile).value)
  {
    match SchemaFile(csvFile)
    case None => Err(NameTooShort(csvFile.name))
    case Some(schemaFile) =>
      if schemaFile !in files then Err(FileNotFound(schemaFile)) else Ok(ReadFile(files, schemaFile))
  }

  /** The text `getSchema` hands to the schema parser holds exactly the schema file's lines. */
  lemma SchemaTextLines(files: map<FilePath, Content>, csvFile: FilePath)
    requires SchemaFile(csvFile).Some? && SchemaFile(csvFile).value in files
    requires files[SchemaFile(csvFile).value].Text?
    ensures GetSchema(files, csvFile).Ok?
    ensures ReadLines(GetSchema(files, csvFile).value) == LinesOf(files, SchemaFile(csvFile).value)
  {
    ReadPrintedLines(LinesOf(files, SchemaFile(csvFile).value));
  }

  /** A CSV-to-Parquet conversion of `csvFile` into `out`: read the schema, refuse or delete
      an existing output, parse the schema, create the writer (which creates the output
      file), open the CSV file, write its lines until one fails, and close the writer.
      A Parquet file read as text is outside the model, hence the second requirement: the
      output can be the CSV file only when that file exists and so is refused. */
  function CsvToParquet(files: map<FilePath, Content>, csvFile: FilePath, out: FilePath,
                        parse: string -> Option<seq<ColumnDescriptor>>, pf: string -> bool,
                        dictionary: bool, v: Variant): ConvertOutcome
    requires Readable(files, csvFile)
    requires SchemaFile(csvFile).Some? ==> Readable(files, SchemaFile(csvFile).value)
    requires out == csvFile ==> csvFile in files && !v.replaceOutput
  {
    match GetSchema(files, csvFile)
    case Err(e) => ConvertOutcome(files, Some(e))
    case Ok(rawSchema) =>
      if !v.replaceOutput && out in files then ConvertOutcome(files, Some(OutputExists(out)))
      else
        var f0 := if v.replaceOutput then files - {out} else files;
        match parse(rawSchema)
        case None => ConvertOutcome(f0, Some(SchemaInvalid))
        case Some(cols) =>
          var f1 := f0[out := Columnar([], dictionary, false)];
          if csvFile !in f1 then ConvertOutcome(f1, Some(FileNotFound(csvFile)))
          else
            var l := Load(cols, LinesOf(f1, csvFile), pf);
            var closed := f1[out := Columnar(l.events, dictionary, true)];
            match l.error
            case None => ConvertOutcome(closed, None)
            case Some(e) =>
              ConvertOutcome(if v.closeOnFailure then closed else f1,
                             Some(if v.wrapFailures then LineFailed(l.written, csvFile, e) else WriteFailed(e)))
  }

  /** Without deletion, an existing output file is refused before anything is written. */
  lemma ExistingOutputRefused(files: map<FilePath, Content>, csvFile: FilePath, out: FilePath,
                              parse: string -> Option<seq<ColumnDescriptor>>, pf: string -> bool,
                              dictionary: bool, v: Variant)
    requires Readable(files, csvFile)
    requires SchemaFile(csvFile).Some? && Readable(files, SchemaFile(csvFile).value)
    requires out == csvFile ==> csvFile in files && !v.replaceOutput
    requires SchemaFile(csvFile).value in files
    requires !v.replaceOutput && out in files
    ensures CsvToParquet(files, csvFile, out, parse, pf, dictionary, v) == ConvertOutcome(files, Some(OutputExists(out)))
  {
  }

  /** A conversion changes no file but its output. */
  lemma OnlyOutputChanges(files: map<FilePath, Content>, csvFile: FilePath, out: FilePath,
                          parse: string -> Option<seq<ColumnDescriptor>>, pf: string -> bool,
                          dictionary: bool, v: Variant)
    requires Readable(files, csvFile)
    requires SchemaFile(csvFile).Some? ==> Readable(files, SchemaFile(csvFile).value)
    requires out == csvFile ==> csvFile in files && !v.replaceOutput
    ensures var r := CsvToParquet(files, csvFile, out, parse, pf, dictionary, v).files;
      && (forall p :: p in r ==> p in files || p == out)
      && (forall p :: p in files && p != out ==> p in r && r[p] == files[p])
  {
  }

  /** A conversion that reaches the CSV lines succeeds exactly when every line's record is
      accepted, and then the output is a closed file holding the records of all lines in
      order, whatever was there before, and nothing else changed. */
  lemma ConversionSucceeds(files: map<FilePath, Content>, csvFile: FilePath, out: FilePath,
                           parse: string -> Option<seq<ColumnDescriptor>>, pf: string -> bool,
                           dictionary: bool, v: Variant, cols: seq<ColumnDescriptor>)
    requires csvFile in files && files[csvFile].Text?
    requires SchemaFile(csvFile).Some? && SchemaFile(csvFile).value in files
    requires files[SchemaFile(csvFile).value].Text?
    requires out != csvFile
    requires v.replaceOutput || out !in files
    requires parse(ReadFile(files, SchemaFile(csvFile).value)) == Some(cols)
    ensures var lines := LinesOf(files, csvFile);
      var r := CsvToParquet(files, csvFile, out, parse, pf, dictionary, v);
      && (r.error.None? <==> forall j :: 0 <= j < |lines| ==> Encode(cols, Fields(lines[j]), pf).error.None?)
      && (r.error.None? ==> r.files == files[out := Columnar(Records(cols, lines, pf), dictionary, true)])
  {
    var lines := LinesOf(files, csvFile);
    var f0 := if v.replaceOutput then files - {out} else files;
    var f1 := f0[out := Columnar([], dictionary, false)];
    assert LinesOf(f1, csvFile) == lines;
    var l := Load(cols, lines, pf);
    LoadCountsLines(cols, lines, pf);
    if l.error.None? {
      LoadConcatenates(cols, lines, pf);
      StoreTwice(f0, out, Columnar([], dictionary, false), Columnar(l.events, dictionary, true));
      if v.replaceOutput {
        DeleteThenStore(files, out, Columnar(l.events, dictionary, true));
      }
    }
  }

  /** A failing line is reported, when wrapped, with the number of lines written before it,
      which is its 0-based index: every earlier line was accepted and the cause is that
      line's own rejection. */
  lemma FailureNamesLine(files: map<FilePath, Content>, csvFile: FilePath, out: FilePath,
                         parse: string -> Option<seq<ColumnDescriptor>>, pf: string -> bool,
                         dictionary: bool, v: Variant, cols: seq<ColumnDescriptor>)
    requires csvFile in files && files[csvFile].Text?
    requires SchemaFile(csvFile).Some? && SchemaFile(csvFile).value in files
    requires files[SchemaFile(csvFile).value].Text?
    requires out != csvFile
    requires v.replaceOutput || out !in files
    requires parse(ReadFile(files, SchemaFile(csvFile).value)) == Some(cols)
    requires v.wrapFailures
    ensures var lines := LinesOf(files, csvFile);
      var r := CsvToParquet(files, csvFile, out, parse, pf, dictionary, v);
      r.error.Some? ==>
        && r.error.value.LineFailed? && r.error.value.csvFile == csvFile
        && r.error.value.lineNumber < |lines|
        && Encode(cols, Fields(lines[r.error.value.lineNumber]), pf).error == Some(r.error.value.cause)
        && forall j :: 0 <= j < r.error.value.lineNumber ==> Encode(cols, Fields(lines[j]), pf).error.None?
  {
    var lines := LinesOf(files, csvFile);
    var f0 := if v.replaceOutput then files - {out} else files;
    var f1 := f0[out := Columnar([], dictionary, false)];
    assert LinesOf(f1, csvFile) == lines;
    LoadCountsLines(cols, lines, pf);
  }

  /** After a failing line, a conversion that does not close its writer leaves an unclosed,
      empty output file; one that closes it leaves the records of the earlier lines followed
      by the partial record of the failing line. */
  lemma FailureLeavesOutput(files: map<FilePath, Content>, csvFile: FilePath, out: FilePath,
                            parse: string -> Option<seq<ColumnDescriptor>>, pf: string -> bool,
                            dictionary: bool, v: Variant, cols: seq<ColumnDescriptor>)
    requires csvFile in files && files[csvFile].Text?
    requires SchemaFile(csvFile).Some? && SchemaFile(csvFile).value in files
    requires files[SchemaFile(csvFile).value].Text?
    requires out != csvFile
    requires v.replaceOutput || out !in files
    requires parse(ReadFile(files, SchemaFile(csvFile).value)) == Some(cols)
    ensures var lines := LinesOf(files, csvFile);
      var l := Load(cols, lines, pf);
      var r := CsvToParquet(files, csvFile, out, parse, pf, dictionary, v);
      l.error.Some? ==>
        && l.written < |lines|
        && (!v.closeOnFailure ==> r.files[out] == Columnar([], dictionary, false))
        && (v.closeOnFailure ==> r.files[out] == Columnar(Records(cols, lines[..l.written], pf)
                                                           + Encode(cols, Fields(lines[l.written]), pf).emitted, dictionary, true))
  {
    var lines := LinesOf(files, csvFile);
    var f0 := if v.replaceOutput then files - {out} else files;
    var f1 := f0[out := Columnar([], dictionary, false)];
    assert LinesOf(f1, csvFile) == lines;
    if Load(cols, lines, pf).error.Some? {
      LoadFailureEvents(cols, lines, pf);
    }
  }

  // ----- Parquet to CSV -----

  /** `convertParquetToCSV`'s argument checks, in their order: the input must be named
      `*.parquet`, the output `*.csv`, and the output must not exist. */
  function ParquetToCsvArguments(files: map<FilePath, Content>, parquetFile: FilePath, csvOut: FilePath): (r: Option<ConvertError>)
    ensures r.None? <==> EndsWith(parquetFile.name, ".parquet") && EndsWith(csvOut.name, ".csv") && csvOut !in files
    ensures r.Some? ==> r.value in {NotParquetName, NotCsvName, CsvOutputExists(csvOut)}
    ensures r == Some(NotParquetName) <==> !EndsWith(parquetFile.name, ".parquet")
    ensures r == Some(NotCsvName) <==> EndsWith(parquetFile.name, ".parquet") && !EndsWith(csvOut.name, ".csv")
  {
    if !EndsWith(parquetFile.name, ".parquet") then Some(NotParquetName)
    else if !EndsWith(csvOut.name, ".csv") then Some(NotCsvName)
    else if csvOut in files then Some(CsvOutputExists(csvOut))
    else None
  }

  /** The records `ParquetReader.read()` returns one after another: every row group's
      records, in order. */
  function AllRecords(rowGroups: seq<seq<Group>>): (r: seq<Group>)
  {
    if |rowGroups| == 0 then [] else AllRecords(rowGroups[..|rowGroups| - 1]) + rowGroups[|rowGroups| - 1]
  }

  /** The records of the first row group are the first records read. */
  lemma {:induction false} FirstRowGroupFirst(rowGroups: seq<seq<Group>>)
    requires |rowGroups| > 0
    ensures rowGroups[0] <= AllRecords(rowGroups)
  {
    if |rowGroups| > 1 {
      var init := rowGroups[..|rowGroups| - 1];
      FirstRowGroupFirst(init);
      assert init[0] == rowGroups[0];
    }
  }

  /** The lines written for the first row group are the first lines written for the file. */
  lemma FirstRowGroupLinesFirst(fields: seq<FieldType>, rowGroups: seq<seq<Group>>, normalise: bool)
    requires |rowGroups| > 0
    ensures RowLines(fields, rowGroups[0], normalise) <= RowLines(fields, AllRecords(rowGroups), normalise)
  {
    FirstRowGroupFirst(rowGroups);
    var all := AllRecords(rowGroups);
    var first := rowGroups[0];
    assert forall i :: 0 <= i < |first| ==> first[i] == all[i];
  }

  /** A Parquet-to-CSV conversion: the argument checks, then the footer read (a missing or
      undecodable file fails), then the CSV text of every record. */
  function ParquetToCsv(files: map<FilePath, Content>, parquetFile: FilePath, csvOut: FilePath,
                        decode: Content -> Option<ParquetData>, normalise: bool): ConvertOutcome
  {
    match ParquetToCsvArguments(files, parquetFile, csvOut)
    case Some(e) => ConvertOutcome(files, Some(e))
    case None =>
      if parquetFile !in files then ConvertOutcome(files, Some(FileNotFound(parquetFile)))
      else match decode(files[parquetFile])
        case None => ConvertOutcome(files, Some(Unreadable(parquetFile)))
        case Some(d) =>
          ConvertOutcome(files[csvOut := Text(PrintLines(RowLines(d.fields, AllRecords(d.rowGroups), normalise)))], None)
  }

  /** A failed Parquet-to-CSV conversion leaves the file system as it was; a successful one
      creates the CSV file, which did not exist, and touches nothing else. */
  lemma ParquetToCsvFrame(files: map<FilePath, Content>, parquetFile: FilePath, csvOut: FilePath,
                          decode: Content -> Option<ParquetData>, normalise: bool)
    ensures var r := ParquetToCsv(files, parquetFile, csvOut, decode, normalise);
      && (r.error.Some? ==> r.files == files)
      && (r.error.None? ==> csvOut !in files && csvOut in r.files && r.files.Keys == files.Keys + {csvOut}
                            && forall p :: p in files ==> r.files[p] == files[p])
  {
  }

  /** Reading the CSV file of a successful conversion gives one line per record, of every
      row group in order, provided no value holds a line terminator. */
  lemma ParquetToCsvLines(files: map<FilePath, Content>, parquetFile: FilePath, csvOut: FilePath,
                          decode: Content -> Option<ParquetData>, normalise: bool, d: ParquetData)
    requires ParquetToCsvArguments(files, parquetFile, csvOut).None?
    requires parquetFile in files && decode(files[parquetFile]) == Some(d)
    requires forall i, j :: 0 <= i < |AllRecords(d.rowGroups)| && 0 <= j < |d.fields| ==> IsLine(AllRecords(d.rowGroups)[i](j))
    ensures var r := ParquetToCsv(files, parquetFile, csvOut, decode, normalise);
      && r.error.None? && csvOut in r.files && r.files[csvOut].Text?
      && LinesOf(r.files, csvOut) == RowLines(d.fields, AllRecords(d.rowGroups), normalise)
  {
    ReadWrittenRows(d.fields, AllRecords(d.rowGroups), normalise);
  }
}
