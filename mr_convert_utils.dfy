/** parquet-mr-tests `ConvertUtils`: CSV to Parquet with failures wrapped by line number and
    the writer closed in any case, and Parquet to CSV with the ".0" rule. */
module MrConvertUtils {
  import opened Wrappers
  import opened JavaText
  import opened Files
  import opened CsvWriteSupport
  import opened CsvParquetWriter
  import opened RowFormat
  import opened Naming
  import opened Conversion

  /** `convertCsvToParquet(csvFile, outputParquetFile)`. The writer's dictionary setting is
      the `ParquetWriter` default, which is a parameter here. */
  method ConvertCsvToParquet(fs: FileSystem, csvFile: FilePath, out: FilePath,
                             parse: string -> Option<seq<ColumnDescriptor>>, pf: string -> bool,
                             defaultDictionary: bool) returns (error: Option<ConvertError>)
    requires Readable(fs.files, csvFile)
    requires SchemaFile(csvFile).Some? ==> Readable(fs.files, SchemaFile(csvFile).value)
    requires out == csvFile ==> csvFile in fs.files
    modifies fs
    ensures var r := CsvToParquet(old(fs.files), csvFile, out, parse, pf, defaultDictionary, MrVariant);
      fs.files == r.files && error == r.error
  {
    var rawSchema := GetSchema(fs.files, csvFile);
    if rawSchema.Err? {
      return Some(rawSchema.error);
    }
    if out in fs.files {
      return Some(OutputExists(out));
    }
    var schema := parse(rawSchema.value);
    if schema.None? {
      return Some(SchemaInvalid);
    }
    var writer := new CsvParquetWriter(fs, out, schema.value, pf, defaultDictionary);
    if csvFile !in fs.files {
      return Some(FileNotFound(csvFile));
    }
    ghost var created := fs.files;
    var lineNumber, failure := WriteLines(writer, LinesOf(fs.files, csvFile));
    assert writer.log.events == Load(schema.value, LinesOf(created, csvFile), pf).events;
    writer.Close(fs);
    if failure.Some? {
      return Some(LineFailed(lineNumber, csvFile, failure.value));
    }
    return None;
  }

  /** `writeGroup(w, g, schema)`: the fields' value strings, ".0" stripped from FLOAT and
      DOUBLE values, separated by '|' and ended by "\n". */
  method WriteGroup(w: TextWriter, g: Group, fields: seq<FieldType>)
    modifies w
    ensures w.text == old(w.text) + Join(Values(fields, g, true), Delimiter) + "\n"
  {
    ghost var written := Values(fields, g, true);
    var j := 0;
    while j < |fields|
      invariant j <= |fields|
      invariant w.text == old(w.text) + Join(written[..j], Delimiter)
    {
      if j > 0 {
        w.Write([Delimiter]);
      }
      var valueToString := g(j);
      if IsFloating(fields[j]) && EndsWith(valueToString, ".0") {
        valueToString := valueToString[..|valueToString| - 2];
      }
      assert valueToString == written[j];
      w.Write(valueToString);
      JoinStep(written, j, Delimiter);
      if j > 0 {
        AppendAssoc(old(w.text), Join(written[..j], Delimiter), [Delimiter]);
        AppendAssoc(old(w.text), Join(written[..j], Delimiter) + [Delimiter], valueToString);
      }
      j := j + 1;
    }
    assert written[..j] == written;
    w.Write("\n");
  }

  /** `convertParquetToCSV(parquetFile, csvOutputFile)`: every record the reader returns is
      written with `writeGroup`. */
  method ConvertParquetToCsv(fs: FileSystem, parquetFile: FilePath, csvOut: FilePath,
                             decode: Content -> Option<ParquetData>) returns (error: Option<ConvertError>)
    modifies fs
    ensures var r := ParquetToCsv(old(fs.files), parquetFile, csvOut, decode, true);
      fs.files == r.files && error == r.error
  {
    error := ParquetToCsvArguments(fs.files, parquetFile, csvOut);
    if error.Some? {
      return;
    }
    if parquetFile !in fs.files {
      return Some(FileNotFound(parquetFile));
    }
    var footer := decode(fs.files[parquetFile]);
    if footer.None? {
      return Some(Unreadable(parquetFile));
    }
    var schema := footer.value.fields;
    var records := AllRecords(footer.value.rowGroups);
    var w := new TextWriter.Open(fs, csvOut);
    var i := 0;
    while i < |records|
      invariant i <= |records|
      invariant w.text == PrintLines(RowLines(schema, records[..i], true))
      invariant fs.files == old(fs.files)[csvOut := Text("")]
    {
      WriteGroup(w, records[i], schema);
      assert records[..i + 1] == records[..i] + [records[i]];
      RowLinesSnoc(schema, records[..i], records[i], true);
      PrintLinesSnoc(RowLines(schema, records[..i], true), Join(Values(schema, records[i], true), Delimiter));
      i := i + 1;
    }
    assert records[..i] == records;
    w.Close(fs);
    StoreTwice(old(fs.files), csvOut, Text(""), Text(w.text));
    return None;
  }

  /** The schema file of `<base>.csv` is the sibling `<base>.schema`, and the conversion
      reads exactly that file's lines. */
  lemma SchemaBesideCsv(files: map<FilePath, Content>, dir: string, base: string)
    requires FilePath(dir, base + ".schema") in files && files[FilePath(dir, base + ".schema")].Text?
    ensures GetSchema(files, FilePath(dir, base + ".csv")).Ok?
    ensures ReadLines(GetSchema(files, FilePath(dir, base + ".csv")).value) == LinesOf(files, FilePath(dir, base + ".schema"))
  {
    SchemaOfCsv(dir, base);
    SchemaTextLines(files, FilePath(dir, base + ".csv"));
  }

  /** A line written by `writeGroup` splits back into its normalised values without the
      trailing empty ones, provided no value holds '|' and the line is not one empty value. */
  lemma WrittenLineSplits(fields: seq<FieldType>, g: Group)
    requires forall j :: 0 <= j < |fields| ==> Delimiter !in g(j)
    requires |fields| >= 2 || (|fields| == 1 && Values(fields, g, true)[0] != "")
    ensures Fields(Join(Values(fields, g, true), Delimiter)) == DropTrailingEmpty(Values(fields, g, true))
  {
    SplitWrittenRow(fields, g, true);
  }
}
