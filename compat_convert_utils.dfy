/** parquet-compat `ConvertUtils`: CSV to Parquet with a dictionary choice, where a failing
    line's exception propagates as it is and leaves the writer unclosed, and Parquet to CSV
    with the values written verbatim. */
module CompatConvertUtils {
  import opened Wrappers
  import opened JavaText
  import opened Files
  import opened CsvWriteSupport
  import opened CsvParquetWriter
  import opened RowFormat
  import opened Naming
  import opened Conversion

  /** `convertCsvToParquet(csvFile, outputParquetFile)`: dictionary encoding off. */
  method ConvertCsvToParquet(fs: FileSystem, csvFile: FilePath, out: FilePath,
                             parse: string -> Option<seq<ColumnDescriptor>>, pf: string -> bool)
    returns (error: Option<ConvertError>)
    requires Readable(fs.files, csvFile)
    requires SchemaFile(csvFile).Some? ==> Readable(fs.files, SchemaFile(csvFile).value)
    requires out == csvFile ==> csvFile in fs.files
    modifies fs
    ensures var r := CsvToParquet(old(fs.files), csvFile, out, parse, pf, false, CompatVariant);
      fs.files == r.files && error == r.error
  {
    error := ConvertCsvToParquetWithDictionary(fs, csvFile, out, parse, pf, false);
  }

  /** `convertCsvToParquet(csvFile, outputParquetFile, enableDictionary)`. */
  method ConvertCsvToParquetWithDictionary(fs: FileSystem, csvFile: FilePath, out: FilePath,
                                           parse: string -> Option<seq<ColumnDescriptor>>, pf: string -> bool,
                                           enableDictionary: bool) returns (error: Option<ConvertError>)
    requires Readable(fs.files, csvFile)
    requires SchemaFile(csvFile).Some? ==> Readable(fs.files, SchemaFile(csvFile).value)
    requires out == csvFile ==> csvFile in fs.files
    modifies fs
    ensures var r := CsvToParquet(old(fs.files), csvFile, out, parse, pf, enableDictionary, CompatVariant);
      fs.files == r.files && error == r.error
  {
    var rawSchema := GetSchema(fs.files, csvFile);
    if rawSchema.Err? {
      return Some(rawSchema.error);
    }
    if out in fs.files {
      return Some(OutputExists(out));
    }
    var schema := parse(rawSchema.value);
    if schema.None? {
      return Some(SchemaInvalid);
    }
    var writer := new CsvParquetWriter(fs, out, schema.value, pf, enableDictionary);
    if csvFile !in fs.files {
      return Some(FileNotFound(csvFile));
    }
    ghost var created := fs.files;
    var lineNumber, failure := WriteLines(writer, LinesOf(fs.files, csvFile));
    assert writer.log.events == Load(schema.value, LinesOf(created, csvFile), pf).events;
    if failure.Some? {
      return Some(WriteFailed(failure.value));
    }
    writer.Close(fs);
    return None;
  }

  /** `writeGroup(w, g, schema)`: the fields' value strings as they are, separated by '|'
      and ended by "\n". */
  method WriteGroup(w: TextWriter, g: Group, fields: seq<FieldType>)
    modifies w
    ensures w.text == old(w.text) + Join(Values(fields, g, false), Delimiter) + "\n"
  {
    ghost var written := Values(fields, g, false);
    var j := 0;
    while j < |fields|
      invariant j <= |fields|
      invariant w.text == old(w.text) + Join(written[..j], Delimiter)
    {
      if j > 0 {
        w.Write([Delimiter]);
      }
      var valueToString := g(j);
      assert valueToString == written[j];
      w.Write(valueToString);
      JoinStep(written, j, Delimiter);
      if j > 0 {
        AppendAssoc(old(w.text), Join(written[..j], Delimiter), [Delimiter]);
        AppendAssoc(old(w.text), Join(written[..j], Delimiter) + [Delimiter], valueToString);
      }
      j := j + 1;
    }
    assert written[..j] == written;
    w.Write("\n");
  }

  /** `convertParquetToCSV(parquetFile, csvOutputFile)`: every record the reader returns is
      written with `writeGroup`. */
  method ConvertParquetToCsv(fs: FileSystem, parquetFile: FilePath, csvOut: FilePath,
                             decode: Content -> Option<ParquetData>) returns (error: Option<ConvertError>)
    modifies fs
    ensures var r := ParquetToCsv(old(fs.files), parquetFile, csvOut, decode, false);
      fs.files == r.files && error == r.error
  {
    error := ParquetToCsvArguments(fs.files, parquetFile, csvOut);
    if error.Some? {
      return;
    }
    if parquetFile !in fs.files {
      return Some(FileNotFound(parquetFile));
    }
    var footer := decode(fs.files[parquetFile]);
    if footer.None? {
      return Some(Unreadable(parquetFile));
    }
    var schema := footer.value.fields;
    var records := AllRecords(footer.value.rowGroups);
    var w := new TextWriter.Open(fs, csvOut);
    var i := 0;
    while i < |records|
      invariant i <= |records|
      invariant w.text == PrintLines(RowLines(schema, records[..i], false))
      invariant fs.files == old(fs.files)[csvOut := Text("")]
    {
      WriteGroup(w, records[i], schema);
      assert records[..i + 1] == records[..i] + [records[i]];
      RowLinesSnoc(schema, records[..i], records[i], false);
      PrintLinesSnoc(RowLines(schema, records[..i], false), Join(Values(schema, records[i], false), Delimiter));
      i := i + 1;
    }
    assert records[..i] == records;
    w.Close(fs);
    StoreTwice(old(fs.files), csvOut, Text(""), Text(w.text));
    return None;
  }

  /** Without normalisation every value is written as the reader gave it, so a written line
      splits back into exactly the record's values, less trailing empty ones, provided no
      value holds '|' and the line is not one empty value. */
  lemma VerbatimLineSplits(fields: seq<FieldType>, g: Group)
    requires forall j :: 0 <= j < |fields| ==> Delimiter !in g(j)
    requires |fields| >= 2 || (|fields| == 1 && g(0) != "")
    ensures Fields(Join(Values(fields, g, false), Delimiter)) == DropTrailingEmpty(seq(|fields|, j requires 0 <= j < |fields| => g(j)))
  {
    assert Values(fields, g, false) == seq(|fields|, j requires 0 <= j < |fields| => g(j));
    SplitWrittenRow(fields, g, false);
  }

  /** With dictionary encoding off and no failing line, the output is a closed,
      non-dictionary file holding one record per CSV line. */
  lemma DefaultConversionSucceeds(files: map<FilePath, Content>, csvFile: FilePath, out: FilePath,
                                  parse: string -> Option<seq<ColumnDescriptor>>, pf: string -> bool,
                                  cols: seq<ColumnDescriptor>)
    requires csvFile in files && files[csvFile].Text?
    requires SchemaFile(csvFile).Some? && SchemaFile(csvFile).value in files
    requires files[SchemaFile(csvFile).value].Text?
    requires out != csvFile && out !in files
    requires parse(ReadFile(files, SchemaFile(csvFile).value)) == Some(cols)
    requires forall j :: 0 <= j < |LinesOf(files, csvFile)| ==> Encode(cols, Fields(LinesOf(files, csvFile)[j]), pf).error.None?
    ensures CsvToParquet(files, csvFile, out, parse, pf, false, CompatVariant)
         == ConvertOutcome(files[out := Columnar(Records(cols, LinesOf(files, csvFile), pf), false, true)], None)
  {
    ConversionSucceeds(files, csvFile, out, parse, pf, false, CompatVariant, cols);
  }
}
