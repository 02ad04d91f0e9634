/** `TestReadTPCHFiles`: each TPC-H CSV file is written to Parquet under
    `target/test/fromExampleFiles`, replacing an earlier output, and each TPC-H Parquet
    file's first row group is written back to CSV there and compared in order with the
    CSV file beside it. The delimiter the test passes is always "|". */
module TestReadTpchFiles {
  import opened Wrappers
  import opened JavaText
  import opened Files
  import opened CsvWriteSupport
  import opened CsvParquetWriter
  import opened RowFormat
  import opened Naming
  import opened Conversion
  import opened Equivalence

  const OutputDir := "target/test/fromExampleFiles"

  /** `convertToParquet`'s output: `<csvName>.writeFromJava.parquet` in the output directory,
      never the CSV file itself. */
  function WriteFromJavaFile(csvFile: FilePath): (r: FilePath)
    ensures r.dir == OutputDir && r != csvFile
    ensures StartsWith(r.name, csvFile.name) && EndsWith(r.name, ".writeFromJava.parquet")
  {
    var name := csvFile.name + ".writeFromJava.parquet";
    assert name[..|csvFile.name|] == csvFile.name;
    assert name[|csvFile.name|..] == ".writeFromJava.parquet";
    FilePath(OutputDir, name)
  }

  /** `convertToParquet(csvFile, "|")`: read the schema beside the CSV file, delete any
      earlier output, parse the schema, create the writer, and write the lines, a failing
      line being rethrown with the count of lines written and leaving the writer open. */
  method ConvertToParquet(fs: FileSystem, csvFile: FilePath, parse: string -> Option<seq<ColumnDescriptor>>,
                          pf: string -> bool, defaultDictionary: bool) returns (r: Result<FilePath, ConvertError>)
    requires Readable(fs.files, csvFile)
    requires SchemaFile(csvFile).Some? ==> Readable(fs.files, SchemaFile(csvFile).value)
    modifies fs
    ensures var c := CsvToParquet(old(fs.files), csvFile, WriteFromJavaFile(csvFile), parse, pf, defaultDictionary, TpchVariant);
      && fs.files == c.files
      && (r.Ok? <==> c.error.None?)
      && (r.Ok? ==> r.value == WriteFromJavaFile(csvFile))
      && (r.Err? ==> c.error == Some(r.error))
  {
    var rawSchema := GetSchema(fs.files, csvFile);
    if rawSchema.Err? {
      return Err(rawSchema.error);
    }
    var outputFile := WriteFromJavaFile(csvFile);
    fs.Delete(outputFile);
    var schema := parse(rawSchema.value);
    if schema.None? {
      return Err(SchemaInvalid);
    }
    var writer := new CsvParquetWriter(fs, outputFile, schema.value, pf, defaultDictionary);
    if csvFile !in fs.files {
      return Err(FileNotFound(csvFile));
    }
    ghost var created := fs.files;
    var lineNumber, failure := WriteLines(writer, LinesOf(fs.files, csvFile));
    assert writer.log.events == Load(schema.value, LinesOf(created, csvFile), pf).events;
    if failure.Some? {
      return Err(LineFailed(lineNumber, csvFile, failure.value));
    }
    writer.Close(fs);
    return Ok(outputFile);
  }

  /** With a readable schema and every line accepted, the output holds one record per CSV
      line, in order, whatever was there before; nothing else changes. */
  lemma ConvertToParquetSucceeds(files: map<FilePath, Content>, csvFile: FilePath,
                                 parse: string -> Option<seq<ColumnDescriptor>>, pf: string -> bool,
                                 defaultDictionary: bool, cols: seq<ColumnDescriptor>)
    requires csvFile in files && files[csvFile].Text?
    requires SchemaFile(csvFile).Some? && SchemaFile(csvFile).value in files
    requires files[SchemaFile(csvFile).value].Text?
    requires parse(ReadFile(files, SchemaFile(csvFile).value)) == Some(cols)
    requires forall j :: 0 <= j < |LinesOf(files, csvFile)| ==> Encode(cols, Fields(LinesOf(files, csvFile)[j]), pf).error.None?
    ensures CsvToParquet(files, csvFile, WriteFromJavaFile(csvFile), parse, pf, defaultDictionary, TpchVariant)
         == ConvertOutcome(files[WriteFromJavaFile(csvFile) := Columnar(Records(cols, LinesOf(files, csvFile), pf), defaultDictionary, true)], None)
  {
    ConversionSucceeds(files, csvFile, WriteFromJavaFile(csvFile), parse, pf, defaultDictionary, TpchVariant, cols);
  }

  /** A failing line is rethrown naming the CSV file and the number of lines written before
      it, every one of which was accepted; the output is left created but empty and open. */
  lemma ConvertToParquetFailure(files: map<FilePath, Content>, csvFile: FilePath,
                                parse: string -> Option<seq<ColumnDescriptor>>, pf: string -> bool,
                                defaultDictionary: bool, cols: seq<ColumnDescriptor>)
    requires csvFile in files && files[csvFile].Text?
    requires SchemaFile(csvFile).Some? && SchemaFile(csvFile).value in files
    requires files[SchemaFile(csvFile).value].Text?
    requires parse(ReadFile(files, SchemaFile(csvFile).value)) == Some(cols)
    ensures var lines := LinesOf(files, csvFile);
      var out := WriteFromJavaFile(csvFile);
      var c := CsvToParquet(files, csvFile, out, parse, pf, defaultDictionary, TpchVariant);
      c.error.Some? ==>
        && c.error.value.LineFailed? && c.error.value.csvFile == csvFile
        && c.error.value.lineNumber < |lines|
        && Encode(cols, Fields(lines[c.error.value.lineNumber]), pf).error == Some(c.error.value.cause)
        && (forall j :: 0 <= j < c.error.value.lineNumber ==> Encode(cols, Fields(lines[j]), pf).error.None?)
        && c.files[out] == Columnar([], defaultDictionary, false)
  {
    var out := WriteFromJavaFile(csvFile);
    FailureNamesLine(files, csvFile, out, parse, pf, defaultDictionary, TpchVariant, cols);
    FailureLeavesOutput(files, csvFile, out, parse, pf, defaultDictionary, TpchVariant, cols);
  }

  /** `convertToCSV`'s output: `<parquetName>.readFromJava.csv` in the output directory. */
  function ReadFromJavaFile(parquetFile: FilePath): (r: FilePath)
    ensures r.dir == OutputDir && r != parquetFile
    ensures StartsWith(r.name, parquetFile.name) && EndsWith(r.name, ".readFromJava.csv")
  {
    FilePath(OutputDir, parquetFile.name + ".readFromJava.csv")
  }

  /** The file system after `convertToCSV` and how it ended: the verdict of the comparison,
      or the exception that stopped it first. */
  datatype CsvCheck = CsvCheck(files: map<FilePath, Content>, result: Result<Verdict, ConvertError>)

  /** `convertToCSV(parquetFile)`: derive the expected CSV file (a name shorter than
      ".parquet" throws), read the footer, read the first row group (none throws), write its
      rows with the ".0" rule, then compare with the expected file in order. */
  function ConvertToCsvOutcome(files: map<FilePath, Content>, parquetFile: FilePath,
                               decode: Content -> Option<ParquetData>): CsvCheck
    requires ExpectedCsvFile(parquetFile).Some? ==> Readable(files, ExpectedCsvFile(parquetFile).value)
  {
    match ExpectedCsvFile(parquetFile)
    case None => CsvCheck(files, Err(NameTooShort(parquetFile.name)))
    case Some(expected) =>
      if parquetFile !in files then CsvCheck(files, Err(FileNotFound(parquetFile)))
      else match decode(files[parquetFile])
        case None => CsvCheck(files, Err(Unreadable(parquetFile)))
        case Some(d) =>
          if |d.rowGroups| == 0 then CsvCheck(files, Err(NoRowGroup(parquetFile)))
          else
            var out := ReadFromJavaFile(parquetFile);
            var f := files[out := Text(PrintLines(RowLines(d.fields, d.rowGroups[0], true)))];
            CsvCheck(f, Ok(VerifyFiles(f, expected, out)))
  }

  /** `convertToCSV(parquetFile)`: the first row group's `getRowCount()` rows are written
      by the nested loops, the writer is closed, and the private `verify` compares the
      expected file with the output in order. */
  method ConvertToCsv(fs: FileSystem, parquetFile: FilePath, decode: Content -> Option<ParquetData>)
    returns (r: Result<Verdict, ConvertError>)
    requires ExpectedCsvFile(parquetFile).Some? ==> Readable(fs.files, ExpectedCsvFile(parquetFile).value)
    modifies fs
    ensures var c := ConvertToCsvOutcome(old(fs.files), parquetFile, decode);
      fs.files == c.files && r == c.result
  {
    var base := DropLast(parquetFile.name, 8);
    if base.None? {
      return Err(NameTooShort(parquetFile.name));
    }
    var expectedOutputFile := FilePath(parquetFile.dir, base.value + ".csv");
    var csvOutputFile := ReadFromJavaFile(parquetFile);
    if parquetFile !in fs.files {
      return Err(FileNotFound(parquetFile));
    }
    var readFooter := decode(fs.files[parquetFile]);
    if readFooter.None? {
      return Err(Unreadable(parquetFile));
    }
    var schema := readFooter.value.fields;
    if |readFooter.value.rowGroups| == 0 {
      return Err(NoRowGroup(parquetFile));
    }
    var pages := readFooter.value.rowGroups[0];
    var w := new TextWriter.Open(fs, csvOutputFile);
    WriteRows(w, schema, pages);
    assert w.text == PrintLines(RowLines(schema, pages, true));
    w.Close(fs);
    StoreTwice(old(fs.files), csvOutputFile, Text(""), Text(w.text));
    var v := Verify(fs, expectedOutputFile, csvOutputFile);
    return Ok(v);
  }

  /** The nested loops of `convertToCSV`: for each of the row group's rows, for each of the
      schema's fields, the value, ".0" stripped from FLOAT and DOUBLE values, with '|'
      between values and '\n' after each row. */
  method WriteRows(w: TextWriter, schema: seq<FieldType>, pages: seq<Group>)
    modifies w
    ensures w.text == old(w.text) + PrintLines(RowLines(schema, pages, true))
  {
    for i := 0 to |pages|
      invariant w.text == old(w.text) + PrintLines(RowLines(schema, pages[..i], true))
    {
      var g := pages[i];
      ghost var line := Values(schema, g, true);
      ghost var before := w.text;
      for j := 0 to |schema|
        invariant w.text == before + Join(line[..j], Delimiter)
      {
        if j > 0 {
          w.Write([Delimiter]);
        }
        var valueToString := g(j);
        if IsFloating(schema[j]) && EndsWith(valueToString, ".0") {
          valueToString := valueToString[..|valueToString| - 2];
        }
        assert valueToString == line[j];
        w.Write(valueToString);
        JoinStep(line, j, Delimiter);
        if j > 0 {
          AppendAssoc(before, Join(line[..j], Delimiter), [Delimiter]);
          AppendAssoc(before, Join(line[..j], Delimiter) + [Delimiter], valueToString);
        }
      }
      w.Write("\n");
      assert line[..|schema|] == line;
      assert pages[..i + 1] == pages[..i] + [g];
      RowLinesSnoc(schema, pages[..i], g, true);
      PrintLinesSnoc(RowLines(schema, pages[..i], true), Join(line, Delimiter));
      AppendAssoc(old(w.text), PrintLines(RowLines(schema, pages[..i], true)), Join(line, Delimiter));
      AppendAssoc(old(w.text), PrintLines(RowLines(schema, pages[..i], true)) + Join(line, Delimiter), "\n");
    }
    assert pages[..|pages|] == pages;
  }

  /** The CSV file written and the expected CSV file are different files. */
  lemma OutputIsNotExpected(parquetFile: FilePath)
    requires ExpectedCsvFile(parquetFile).Some?
    ensures ExpectedCsvFile(parquetFile).value != ReadFromJavaFile(parquetFile)
  {
    assert |ExpectedCsvFile(parquetFile).value.name| < |ReadFromJavaFile(parquetFile).name|;
  }

  /** Only the first row group is read: when the expected CSV file exists and no value
      holds a line terminator, the check passes exactly when the expected lines are the
      first row group's rows as written, with everything through a first tab removed. */
  lemma ConvertToCsvPasses(files: map<FilePath, Content>, parquetFile: FilePath,
                           decode: Content -> Option<ParquetData>, d: ParquetData)
    requires ExpectedCsvFile(parquetFile).Some?
    requires ExpectedCsvFile(parquetFile).value in files && files[ExpectedCsvFile(parquetFile).value].Text?
    requires parquetFile in files && decode(files[parquetFile]) == Some(d) && |d.rowGroups| > 0
    requires forall i, j :: 0 <= i < |d.rowGroups[0]| && 0 <= j < |d.fields| ==> IsLine(d.rowGroups[0][i](j))
    ensures var expected := ExpectedCsvFile(parquetFile).value;
      (ConvertToCsvOutcome(files, parquetFile, decode).result == Ok(Pass)
       <==> LinesOf(files, expected) == Stripped(RowLines(d.fields, d.rowGroups[0], true)))
  {
    var expected := ExpectedCsvFile(parquetFile).value;
    var out := ReadFromJavaFile(parquetFile);
    var written := RowLines(d.fields, d.rowGroups[0], true);
    var f := files[out := Text(PrintLines(written))];
    OutputIsNotExpected(parquetFile);
    assert LinesOf(f, expected) == LinesOf(files, expected);
    ReadWrittenRows(d.fields, d.rowGroups[0], true);
    assert LinesOf(f, out) == written;
    LockstepPass(LinesOf(files, expected), written);
  }

  /** The private `verify(expected, output)` passes exactly when both files exist, have the
      same number of lines, and every expected line is the output line at the same position
      with everything through its first tab removed. */
  lemma VerifyPassesExactly(files: map<FilePath, Content>, e: FilePath, o: FilePath)
    requires Readable(files, e) && Readable(files, o)
    ensures VerifyFiles(files, e, o) == Pass <==>
              e in files && o in files && LinesOf(files, e) == Stripped(LinesOf(files, o))
  {
    if e in files && o in files {
      LockstepPass(LinesOf(files, e), LinesOf(files, o));
    }
  }
}
