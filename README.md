# Parquet compatibility tests, modelled in Dafny

The Parquet compatibility tests convert TPC-H style CSV files (a `.schema` file beside each
`.csv` file, rows of `|`-separated fields) into Parquet files and back. They then check the
CSV files they wrote against the expected ones, line by line, or as sorted files when the
order of the rows does not matter. This project models the string-level and file-level
logic of those tests, in both modules of the repository (parquet-mr-tests and
parquet-compat), and proves what it promises:

- **CSV row to record** (`CsvWriteSupport`). The write support checks the field count,
  treats an empty field as NULL, and dispatches each non-empty field on its column type to
  a typed call on the record consumer. The consumer is an append-only log of its calls
  (`RecordConsumer`).
- **CSV file to Parquet file** (`CsvParquetWriter`, `Conversion`, `MrConvertUtils`,
  `CompatConvertUtils`, `TestReadTpchFiles`). The conversion derives the schema file, refuses
  or deletes an existing output, splits each line on the literal `|` with Java's limit-0
  rule (trailing empty fields are dropped), and counts the lines written for the error
  message. The three variants differ in how they wrap a failure and whether they close the
  writer after one.
- **Record to CSV line** (`RowFormat` and the `WriteGroup`/`WriteRows` loops). The line is
  the value strings joined with `|`, ended by `"\n"`. The parquet-mr-tests variants strip a
  trailing `".0"` from FLOAT and DOUBLE values; the parquet-compat variant writes the values
  verbatim.
- **Artifact names and lookups** (`Naming`, `CompatUtils`, `MrUtils`). These cover the
  `<name>[.<module>].<ext>` names, the prefix before the first `.`, the version and Impala
  directory filters, and the fail-or-warn rules for missing files.
- **The equivalence check** (`Equivalence`). The ordered `verify` compares the files in
  lockstep, stripping everything through the first tab of each output line. The unordered
  one first sorts both files by `String.compareTo` into `.sorted` siblings.

The file system is a map from paths to contents (`Files`). A text file holds a string whose
lines are what `readLine` returns. A Parquet file is represented by its dictionary setting,
whether its writer was closed, and the consumer calls it holds. The calls are stored in the
file when the writer is closed; a file whose writer was never closed holds none. The Parquet
library itself is not modelled: the schema parser, the footer and record reader, and the
floating-point parser are parameters of the operations that use them. A record is the value
strings `Group.getValueToString` gives for its fields.

Two consequences of the code are worth stating plainly. First, the CSV line is split with
`String.split` and limit 0 (parquet-mr-tests `ConvertUtils.java` line 99). That drops
trailing empty fields, so a row whose last fields are empty (NULL) reaches `write` with too
few fields and is rejected for its field count (`RowFormat.TrailingNullDoesNotLoad`).
Second, a BOOLEAN field is parsed with `Boolean.parseBoolean` (`CsvWriteSupport.java` lines
50-52). It gives false for every text other than "true" in some letter case, and never
fails (`CsvWriteSupport.ValueEventCases`).

## Model

| member | source | states |
|---|---|---|
| CsvWriteSupport.CsvWriteSupport.constructor | parquet-mr-tests/src/test/java/parquet/compat/test/CsvWriteSupport.java:21-24 | The write support holds the schema's columns and no record consumer yet. |
| CsvWriteSupport.CsvWriteSupport.PrepareForWrite | parquet-mr-tests/src/test/java/parquet/compat/test/CsvWriteSupport.java:32-34 | The consumer handed over is the one every later write calls. |
| CsvWriteSupport.CsvWriteSupport.Write | parquet-mr-tests/src/test/java/parquet/compat/test/CsvWriteSupport.java:37-76 | The consumer receives exactly the calls `Encode` gives for the row, appended to its earlier calls, and the exception raised is `Encode`'s error. |
| CsvWriteSupport.WriteField | parquet-mr-tests/src/test/java/parquet/compat/test/CsvWriteSupport.java:45-73 | One loop round: no call for an empty field, otherwise startField, the typed add call and endField, or startField followed by the type switch's exception. |
| CsvWriteSupport.ValueEventCases | parquet-mr-tests/src/test/java/parquet/compat/test/CsvWriteSupport.java:49-80 | BOOLEAN gives `addBoolean(parseBoolean(v))` and never fails; INT32 and INT64 accept exactly what `parseInt`/`parseLong` accept, in the int and long range, and add exactly the value it returns, else a NumberFormatException; FLOAT/DOUBLE accept what the floating parser accepts; BINARY passes the text unchanged; INT96 and FIXED_LEN_BYTE_ARRAY raise "Unsupported column type". |
| CsvWriteSupport.FieldCountRejection | parquet-mr-tests/src/test/java/parquet/compat/test/CsvWriteSupport.java:38-41 | A row fails for its field count exactly when it has a different number of fields than columns, and then no consumer call is made. |
| CsvWriteSupport.WriteIsBracketed | parquet-mr-tests/src/test/java/parquet/compat/test/CsvWriteSupport.java:43-75 | A successful write starts with startMessage, ends with endMessage, and neither occurs in between. |
| CsvWriteSupport.WriteFailsInsideRecord | parquet-mr-tests/src/test/java/parquet/compat/test/CsvWriteSupport.java:43-71 | A failure after the count check is raised by the first non-empty field whose value is rejected; the record was started, never ended, and the last call is that column's startField. |
| CsvWriteSupport.FirstFailure | parquet-mr-tests/src/test/java/parquet/compat/test/CsvWriteSupport.java:44-71 | In any prefix of the columns, a failure comes from the first rejected non-empty field, and the calls end with its startField. |
| CsvWriteSupport.EmptyFieldIsNull | parquet-mr-tests/src/test/java/parquet/compat/test/CsvWriteSupport.java:46-47 | After a successful write, an empty field has no startField or endField call at all. |
| CsvWriteSupport.FieldCalls | parquet-mr-tests/src/test/java/parquet/compat/test/CsvWriteSupport.java:47-72 | After a successful write, a non-empty field `i` has startField(name, i), its add call and endField(name, i) next to each other. |
| CsvWriteSupport.FieldsInOrder | parquet-mr-tests/src/test/java/parquet/compat/test/CsvWriteSupport.java:44-74 | The calls of a lower-numbered non-empty field come before those of a higher-numbered one. |
| CsvWriteSupport.ColumnsMentionNonEmpty | parquet-mr-tests/src/test/java/parquet/compat/test/CsvWriteSupport.java:44-74 | Every startField/endField call names a non-empty field of the columns processed, with its name and index. |
| CsvWriteSupport.TextualColumnsNeverFail | parquet-mr-tests/src/test/java/parquet/compat/test/CsvWriteSupport.java:49-52 | With only BOOLEAN and BINARY columns, every row of the right length is written without an exception. |
| JavaText.ParseBooleanSpellings | parquet-mr-tests/src/test/java/parquet/compat/test/CsvWriteSupport.java:50-52 | `Boolean.parseBoolean` is true exactly for the sixteen letter-case spellings of "true". |
| JavaText.ParseInteger | parquet-mr-tests/src/test/java/parquet/compat/test/CsvWriteSupport.java:59-64 | A parsed integer lies in the given range, comes from text ending in a digit, and is negative only after a '-'. Its value is stated by `ParseIntegerSignedDigits`, and the shape of accepted text by `ParseIntegerShape`. |
| JavaText.IndexOf | parquet-compat/src/test/java/parquet/compat/test/Utils.java:155 | `indexOf` is -1 exactly when the character is absent; otherwise it is the first position holding it. |
| JavaText.CompareToZero | parquet-compat/src/test/java/parquet/compat/test/Utils.java:102 | `compareTo` is zero exactly on equal strings. |
| JavaText.CompareToFlip | parquet-compat/src/test/java/parquet/compat/test/Utils.java:102 | Swapping the operands negates `compareTo`. |
| JavaText.AtMostTransitive | parquet-compat/src/test/java/parquet/compat/test/Utils.java:220 | `compareTo(a, b) <= 0` is transitive. |
| JavaText.AtMostTotal | parquet-compat/src/test/java/parquet/compat/test/Utils.java:220 | Any two strings are ordered by `compareTo`, and two that are ordered both ways are equal. |
| JavaText.Split | parquet-mr-tests/src/test/java/parquet/compat/test/ConvertUtils.java:99 | The pieces of a split never hold the delimiter. |
| JavaText.DropTrailingEmpty | parquet-mr-tests/src/test/java/parquet/compat/test/ConvertUtils.java:99 | The limit-0 rule keeps a prefix of the pieces that does not end in an empty string, and drops only empty strings. |
| JavaText.JoinPieces | parquet-mr-tests/src/test/java/parquet/compat/test/ConvertUtils.java:99 | Joining all pieces of a string with the delimiter gives the string back. |
| JavaText.PiecesOfJoin | parquet-mr-tests/src/test/java/parquet/compat/test/ConvertUtils.java:99 | The pieces of a join of delimiter-free fields are the fields. |
| JavaText.SplitOfJoin | parquet-mr-tests/src/test/java/parquet/compat/test/ConvertUtils.java:99 | Splitting a line joined from delimiter-free fields gives the fields without their trailing empty ones. |
| JavaText.SplitLosesTrailingEmptyField | parquet-mr-tests/src/test/java/parquet/compat/test/ConvertUtils.java:99 | A line whose last field is empty splits into fewer fields than it was joined from. |
| JavaText.JoinSnoc | parquet-mr-tests/src/test/java/parquet/compat/test/ConvertUtils.java:150-164 | Joining one more field appends the delimiter and the field. |
| Naming.SchemaFile | parquet-mr-tests/src/test/java/parquet/compat/test/ConvertUtils.java:74-77 | The schema file lies in the CSV file's directory and ends in ".schema"; there is none (the substring throws) when the name is shorter than four characters. |
| Naming.SchemaOfCsv | parquet-compat/src/test/java/parquet/compat/test/ConvertUtils.java:70-75 | The schema of `<base>.csv` is the sibling `<base>.schema`. |
| Naming.ExpectedCsvFile | parquet-mr-tests/src/test/java/parquet/compat/test/TestReadTPCHFiles.java:139-141 | The expected CSV file lies beside the Parquet file and ends in ".csv"; there is none when the name is shorter than eight characters. |
| Naming.ExpectedCsvOfParquet | parquet-mr-tests/src/test/java/parquet/compat/test/TestReadTPCHFiles.java:139-141 | The expected CSV of `<base>.parquet` is the sibling `<base>.csv`. |
| Naming.DropLast | parquet-mr-tests/src/test/java/parquet/compat/test/TestReadTPCHFiles.java:141 | `substring(0, length - n)` exists exactly when `n` is at most the length, and is the name's prefix of that length. |
| Naming.FileNamePrefix | parquet-compat/src/test/java/parquet/compat/test/Utils.java:154-156 | There is a prefix exactly when the name holds '.'; it holds no '.', and the name is the prefix followed by '.'. |
| Naming.PrefixOfArtifact | parquet-compat/src/test/java/parquet/compat/test/Utils.java:117-119 | An artifact name ends with its extension, and when the base name holds no '.' and the extension starts with '.', the artifact's prefix is the base name. |
| Naming.PrefixBeforeDot | parquet-mr-tests/src/test/java/parquet/compat/test/Utils.java:82-84 | A name without '.' followed by a text starting with '.' has that name as its prefix. |
| Files.FileSystem.Delete | parquet-compat/src/test/java/parquet/compat/test/Utils.java:111-113 | After `delete` the file is absent and every other file is as it was. |
| Files.PrepareFile | parquet-compat/src/test/java/parquet/compat/test/Utils.java:158-166 | The helper returns `dir/name`, and the file system loses exactly that file when `deleteIfExists` is set and is untouched otherwise. |
| Files.LineEnd | parquet-compat/src/test/java/parquet/compat/test/Utils.java:187 | The first line of a text holds no terminator and ends at a terminator or at the end of the text. |
| Files.ReadLines | parquet-compat/src/test/java/parquet/compat/test/Utils.java:187 | No line `readLine` returns holds a line terminator. |
| Files.LineEndOfLine | parquet-compat/src/test/java/parquet/compat/test/Utils.java:187 | A terminator at position k with no terminator before it ends the first line at k. |
| Files.PrintLinesSnoc | parquet-compat/src/test/java/parquet/compat/test/Utils.java:222-224 | Printing one more line appends it and "\n". |
| Files.ReadPrintedLines | parquet-compat/src/test/java/parquet/compat/test/Utils.java:215-224 | Reading back lines printed with `println` gives the same lines. |
| Files.TextWriter.Write | parquet-mr-tests/src/test/java/parquet/compat/test/ConvertUtils.java:162 | A write appends its text to what the writer holds. |
| Files.TextWriter.Close | parquet-mr-tests/src/test/java/parquet/compat/test/ConvertUtils.java:144 | Closing stores the written text in the file and changes no other file. |
| RecordConsumer.EventLog.Receive | parquet-mr-tests/src/test/java/parquet/compat/test/CsvWriteSupport.java:43-75 | Each consumer call is appended to the log. |
| CsvParquetWriter.CsvParquetWriter.constructor | parquet-mr-tests/src/test/java/parquet/compat/test/CsvParquetWriter.java:13-15 | Creating the writer creates an empty, unclosed output file with the chosen dictionary setting, over a fresh write support holding the schema's columns and a fresh consumer. |
| CsvParquetWriter.CsvParquetWriter.Write | parquet-mr-tests/src/test/java/parquet/compat/test/CsvWriteSupport.java:37-76 | One `write` appends the calls `Encode` makes for the row and raises its error. |
| CsvParquetWriter.CsvParquetWriter.Close | parquet-mr-tests/src/test/java/parquet/compat/test/ConvertUtils.java:110 | Closing makes the output file hold every consumer call, marked complete; no other file changes. |
| CsvParquetWriter.WriteLines | parquet-mr-tests/src/test/java/parquet/compat/test/ConvertUtils.java:94-102 | The line loop leaves the consumer with the calls `Load` gives, counts the lines written and returns the first rejected line's error. |
| CsvParquetWriter.LoadSnoc | parquet-mr-tests/src/test/java/parquet/compat/test/ConvertUtils.java:98-102 | One more line, after lines that all loaded, adds its record's calls and bumps the count when accepted. |
| CsvParquetWriter.LoadStops | parquet-mr-tests/src/test/java/parquet/compat/test/ConvertUtils.java:98-106 | After a failing line, later lines change nothing. |
| CsvParquetWriter.LoadCountsLines | parquet-mr-tests/src/test/java/parquet/compat/test/ConvertUtils.java:96-106 | The line counter is the number of lines written: on failure it is the 0-based index of the failing line, and every earlier line was accepted; without failure it is the number of lines. |
| CsvParquetWriter.LoadConcatenates | parquet-mr-tests/src/test/java/parquet/compat/test/ConvertUtils.java:98-102 | Without failure the calls made are the lines' records one after another. |
| CsvParquetWriter.LoadFailureEvents | parquet-mr-tests/src/test/java/parquet/compat/test/ConvertUtils.java:98-111 | After a failure the calls made are the records of the lines before it, then the failing line's partial calls. |
| RowFormat.Normalise | parquet-mr-tests/src/test/java/parquet/compat/test/ConvertUtils.java:156-161 | A value loses exactly two characters when it is a FLOAT or DOUBLE value ending in ".0" and is unchanged otherwise; the result is a prefix of the value. |
| RowFormat.Values | parquet-mr-tests/src/test/java/parquet/compat/test/ConvertUtils.java:150-162 | One string per schema field, in schema order: the value string, normalised when the variant normalises. |
| RowFormat.RowLines | parquet-mr-tests/src/test/java/parquet/compat/test/ConvertUtils.java:138-139 | One line per record. |
| RowFormat.RowLinesSnoc | parquet-mr-tests/src/test/java/parquet/compat/test/ConvertUtils.java:138-139 | One more record adds one more line, the record's joined values. |
| RowFormat.JoinIsLine | parquet-mr-tests/src/test/java/parquet/compat/test/ConvertUtils.java:150-164 | A line joined from terminator-free values holds no terminator. |
| RowFormat.ReadWrittenRows | parquet-mr-tests/src/test/java/parquet/compat/test/ConvertUtils.java:148-165 | Reading the written CSV back with `readLine` gives exactly one line per record when no value holds a line terminator. |
| RowFormat.SplitWrittenRow | parquet-mr-tests/src/test/java/parquet/compat/test/ConvertUtils.java:99-100 | Splitting a written line gives its values without trailing empty ones when no value holds '|'. |
| RowFormat.TrailingNullDoesNotLoad | parquet-mr-tests/src/test/java/parquet/compat/test/ConvertUtils.java:99-100 | A written line whose last value is empty reaches `write` with too few fields and is rejected for its count. |
| Conversion.GetSchema | parquet-mr-tests/src/test/java/parquet/compat/test/ConvertUtils.java:74-79 | The schema text is absent (an exception) exactly when the name is too short or the schema file is missing, and names which. |
| Conversion.SchemaTextLines | parquet-mr-tests/src/test/java/parquet/compat/test/ConvertUtils.java:55-72 | `readFile` yields a text whose lines are exactly the schema file's lines. |
| Conversion.ExistingOutputRefused | parquet-mr-tests/src/test/java/parquet/compat/test/ConvertUtils.java:84-87 | Without deleting first, an existing output is refused with the file system unchanged. |
| Conversion.OnlyOutputChanges | parquet-mr-tests/src/test/java/parquet/compat/test/ConvertUtils.java:81-112 | A conversion changes no file but its output. |
| Conversion.ConversionSucceeds | parquet-mr-tests/src/test/java/parquet/compat/test/ConvertUtils.java:94-102 | With a parsed schema and every line accepted, the output is a closed file holding the lines' records in order, and no error is raised. |
| Conversion.FailureNamesLine | parquet-mr-tests/src/test/java/parquet/compat/test/ConvertUtils.java:96-106 | A failing line is reported with the number of lines written before it, the CSV file and the cause, or, unwrapped, with the cause alone. |
| Conversion.FailureLeavesOutput | parquet-compat/src/test/java/parquet/compat/test/ConvertUtils.java:97-108 | After a failing line, a conversion that does not close its writer leaves the output empty and unclosed; one that closes it holds the calls made. |
| Conversion.ParquetToCsvArguments | parquet-mr-tests/src/test/java/parquet/compat/test/ConvertUtils.java:114-120 | The checks pass exactly when the input ends in ".parquet", the output ends in ".csv" and does not exist; the failure is the first check that fails, in that order. |
| Conversion.FirstRowGroupFirst | parquet-mr-tests/src/test/java/parquet/compat/test/TestReadTPCHFiles.java:148-156 | The first row group's records are the first records read. |
| Conversion.FirstRowGroupLinesFirst | parquet-mr-tests/src/test/java/parquet/compat/test/TestReadTPCHFiles.java:148-156 | The lines written for the first row group are the first lines the whole file would give. |
| Conversion.ParquetToCsvFrame | parquet-mr-tests/src/test/java/parquet/compat/test/ConvertUtils.java:114-146 | A failed conversion leaves the file system as it was; a successful one creates the CSV output, which did not exist, and leaves every other file as it was. The failures modelled are those up to `readFooter` (see "## Left out"). |
| Conversion.ParquetToCsvLines | parquet-mr-tests/src/test/java/parquet/compat/test/ConvertUtils.java:134-140 | Reading the CSV file of a successful conversion gives one line per record read, each the record's joined values. |
| MrConvertUtils.ConvertCsvToParquet | parquet-mr-tests/src/test/java/parquet/compat/test/ConvertUtils.java:81-112 | The file system afterwards and the exception raised are those `CsvToParquet` gives with wrapping and closing in `finally`. |
| MrConvertUtils.SchemaBesideCsv | parquet-mr-tests/src/test/java/parquet/compat/test/ConvertUtils.java:74-78 | For `<base>.csv` whose sibling `<base>.schema` is a text file, the schema text holds that file's lines. |
| MrConvertUtils.WriteGroup | parquet-mr-tests/src/test/java/parquet/compat/test/ConvertUtils.java:148-165 | The writer gains the record's normalised values joined with the delimiter and then "\n". |
| MrConvertUtils.ConvertParquetToCsv | parquet-mr-tests/src/test/java/parquet/compat/test/ConvertUtils.java:114-146 | The file system afterwards and the exception raised are those `ParquetToCsv` gives with normalisation. |
| MrConvertUtils.WrittenLineSplits | parquet-mr-tests/src/test/java/parquet/compat/test/ConvertUtils.java:150-164 | A line `writeGroup` wrote splits back into its normalised values without trailing empty ones, when no value holds the delimiter and the line is not one empty value. |
| CompatConvertUtils.ConvertCsvToParquet | parquet-compat/src/test/java/parquet/compat/test/ConvertUtils.java:77-79 | The two-argument form is the three-argument one with dictionary encoding off. |
| CompatConvertUtils.ConvertCsvToParquetWithDictionary | parquet-compat/src/test/java/parquet/compat/test/ConvertUtils.java:81-109 | The file system afterwards and the exception raised are those `CsvToParquet` gives for the unwrapped, close-on-success variant. |
| CompatConvertUtils.WriteGroup | parquet-compat/src/test/java/parquet/compat/test/ConvertUtils.java:145-155 | The writer gains the record's value strings, verbatim, joined with the delimiter and then "\n". |
| CompatConvertUtils.ConvertParquetToCsv | parquet-compat/src/test/java/parquet/compat/test/ConvertUtils.java:111-143 | The file system afterwards and the exception raised are those `ParquetToCsv` gives without normalisation. |
| CompatConvertUtils.VerbatimLineSplits | parquet-compat/src/test/java/parquet/compat/test/ConvertUtils.java:145-155 | A written line splits back into the record's values without trailing empty ones when no value holds the delimiter and the line is not one empty value. |
| CompatConvertUtils.DefaultConversionSucceeds | parquet-compat/src/test/java/parquet/compat/test/ConvertUtils.java:77-79 | The default conversion of accepted lines leaves a closed, non-dictionary file holding one record per line. |
| CompatUtils.Filter | parquet-compat/src/test/java/parquet/compat/test/Utils.java:99-104 | A listing filtered keeps exactly the accepted entries and is no longer than the listing. |
| CompatUtils.PreviousVersionDirs | parquet-compat/src/test/java/parquet/compat/test/Utils.java:96-106 | The previous versions are exactly the entries that start with "parquet-compat-" and are at most the current name under `compareTo`. |
| CompatUtils.CurrentVersionIncluded | parquet-compat/src/test/java/parquet/compat/test/Utils.java:101-102 | The current version's own directory is among the previous versions. |
| CompatUtils.PlainStringOrder | parquet-compat/src/test/java/parquet/compat/test/Utils.java:102 | The order is plain string order: "parquet-compat-1.10" counts as previous to "parquet-compat-1.9". |
| CompatUtils.CompareToCommonPrefix | parquet-compat/src/test/java/parquet/compat/test/Utils.java:102 | A common prefix does not change `compareTo`. |
| CompatUtils.ImpalaDirectories | parquet-compat/src/test/java/parquet/compat/test/Utils.java:135-143 | The Impala directories are exactly the entries that do not start with '.'. |
| CompatUtils.ParquetFileName | parquet-compat/src/test/java/parquet/compat/test/Utils.java:117-119 | The name ends in ".parquet", and its prefix is the base name when that holds no '.'. |
| CompatUtils.GetParquetOutputFile | parquet-compat/src/test/java/parquet/compat/test/Utils.java:108-115 | The file is `target/parquet/<name>[.<module>].parquet`, absent afterwards when `deleteIfExists` is set, with nothing else changed. |
| CompatUtils.GetParquetFile | parquet-compat/src/test/java/parquet/compat/test/Utils.java:121-133 | It fails exactly when the file is missing and `failIfNotExist` is set; otherwise it returns the path under `../<version>/target/parquet` whether or not the file exists. |
| CompatUtils.ParquetFileOfCsv | parquet-compat/src/test/java/parquet/compat/test/Utils.java:121-133 | The Parquet file found for a CSV file's prefix has that prefix again. |
| CompatUtils.GetParquetImpalaFile | parquet-compat/src/test/java/parquet/compat/test/Utils.java:145-152 | It succeeds exactly when `<name>.impala.parquet` exists under the Impala version's directory, and fails naming that file otherwise. |
| CompatUtils.GetCsvTestFile | parquet-compat/src/test/java/parquet/compat/test/Utils.java:158-166 | The file is `target/test/csv/<name>[.<module>].csv`, absent afterwards when `deleteIfExists` is set, with nothing else changed. |
| CompatUtils.GetParquetTestFile | parquet-compat/src/test/java/parquet/compat/test/Utils.java:168-176 | The file is `target/test/parquet/<name>[.<module>].csv`, absent afterwards when `deleteIfExists` is set, with nothing else changed. |
| CompatUtils.VerifyWithOrder | parquet-compat/src/test/java/parquet/compat/test/Utils.java:200-207 | With order mattering it is the ordered check on unchanged files; otherwise its state and verdict are those of sorting both files first and comparing the sorted siblings. |
| Equivalence.AfterFirstTabSplits | parquet-compat/src/test/java/parquet/compat/test/Utils.java:189 | A line without a tab is unchanged by the stripping; one with a tab is a tab-free text, the tab, and the stripped line. |
| Equivalence.Stripped | parquet-compat/src/test/java/parquet/compat/test/Utils.java:189 | Stripping keeps the number of lines. |
| Equivalence.StrippedAt | parquet-compat/src/test/java/parquet/compat/test/Utils.java:189 | Each stripped line is its output line after the first tab. |
| Equivalence.VerifyLines | parquet-compat/src/test/java/parquet/compat/test/Utils.java:184-193 | The lockstep loop ends with the verdict `Lockstep` gives. |
| Equivalence.LockstepPass | parquet-compat/src/test/java/parquet/compat/test/Utils.java:186-193 | The ordered comparison passes exactly when the expected lines equal the stripped output lines, so both have the same number of lines. |
| Equivalence.LockstepFailure | parquet-mr-tests/src/test/java/parquet/compat/test/Utils.java:115-121 | A failing comparison names the first 1-based line whose expected and stripped output lines differ, with both lines, or the shorter file's line count when one file is a prefix of the other. |
| Equivalence.LockstepFromPass | parquet-compat/src/test/java/parquet/compat/test/Utils.java:186-193 | After `done` matched lines, the rest of the loop passes exactly when the remaining expected lines equal the stripped remaining output lines. |
| Equivalence.LockstepFromFailure | parquet-mr-tests/src/test/java/parquet/compat/test/Utils.java:115-121 | After `done` matched lines, a failure names the first differing line, counted from the first line of the file, with both texts, or the shorter file's total line count when the other still has lines. |
| Equivalence.LockstepFromFound | parquet-compat/src/test/java/parquet/compat/test/Utils.java:186-193 | The loop never reports a missing file: its verdicts are a pass, a differing line, or one file ending first. |
| Equivalence.LockstepFromDiffers | parquet-mr-tests/src/test/java/parquet/compat/test/Utils.java:115-118 | A differing line is the first one past the matched lines at which the lines differ. |
| Equivalence.LockstepFromExpectedLonger | parquet-mr-tests/src/test/java/parquet/compat/test/Utils.java:120 | The expected file is longer when the output ends with every line matched. |
| Equivalence.LockstepFromOutputLonger | parquet-mr-tests/src/test/java/parquet/compat/test/Utils.java:121 | The output file is longer when the expected lines end with every line matched. |
| Equivalence.StrippedTabFree | parquet-compat/src/test/java/parquet/compat/test/Utils.java:189 | Tab-free output lines are not changed by the stripping. |
| Equivalence.Insert | parquet-compat/src/test/java/parquet/compat/test/Utils.java:220 | Inserting into a sorted list keeps it sorted and adds that one line. |
| Equivalence.SortedFirstIsLeast | parquet-compat/src/test/java/parquet/compat/test/Utils.java:220 | A line at most the first line of a sorted list is at most every line of it. |
| Equivalence.SortedCons | parquet-compat/src/test/java/parquet/compat/test/Utils.java:220 | A lower bound of a sorted list can go in front of it. |
| Equivalence.LowerBoundKept | parquet-compat/src/test/java/parquet/compat/test/Utils.java:220 | A bound of a list and of one more line bounds any list holding exactly those lines. |
| Equivalence.SortLines | parquet-compat/src/test/java/parquet/compat/test/Utils.java:220 | The lines sorted are in `compareTo` order and are a permutation of the input. |
| Equivalence.SortedUnique | parquet-mr-tests/src/test/java/parquet/compat/test/Utils.java:139-145 | Any two sorted permutations of the same lines are equal, so every correct sort gives the same file. |
| Equivalence.SortedHeads | parquet-mr-tests/src/test/java/parquet/compat/test/Utils.java:139-145 | Two sorted permutations of the same non-empty lines start with the same line. |
| Equivalence.SortedLockstep | parquet-compat/src/test/java/parquet/compat/test/Utils.java:200-206 | When no output line holds a tab, comparing the sorted lines passes exactly when the two files hold the same multiset of lines. |
| Equivalence.SortedPath | parquet-compat/src/test/java/parquet/compat/test/Utils.java:210 | The `.sorted` sibling lies in the same directory and is another file. |
| Equivalence.SortInto | parquet-compat/src/test/java/parquet/compat/test/Utils.java:209-231 | A sort adds its `.sorted` sibling and no other file. |
| Equivalence.Verify | parquet-compat/src/test/java/parquet/compat/test/Utils.java:178-198 | The ordered check's verdict is `VerifyFiles` on the files it was given, and it changes no file. |
| Equivalence.SortFile | parquet-compat/src/test/java/parquet/compat/test/Utils.java:209-231 | A missing input fails with nothing changed; otherwise the `.sorted` sibling holds the sorted lines and is returned. |
| Equivalence.PrintEach | parquet-compat/src/test/java/parquet/compat/test/Utils.java:222-224 | The writer gains each line followed by "\n", in order. |
| Equivalence.ReadSortedFile | parquet-compat/src/test/java/parquet/compat/test/Utils.java:222-224 | Reading the `.sorted` sibling back gives the input's lines sorted. |
| Equivalence.UnorderedPass | parquet-compat/src/test/java/parquet/compat/test/Utils.java:200-231 | When both files exist and no output line holds a tab, the unordered check passes exactly when both hold the same multiset of lines. |
| MrUtils.GetParquetVersionedFile | parquet-mr-tests/src/test/java/parquet/compat/test/Utils.java:62-71 | It fails exactly when `failIfNotExist` is set and `<prefix>.java.parquet` is missing under the version's TPC-H directory; otherwise it returns that path. |
| MrUtils.GetParquetImpalaFile | parquet-mr-tests/src/test/java/parquet/compat/test/Utils.java:73-80 | It succeeds exactly when `<prefix>.impala.parquet` exists beside the TPC-H files, and fails naming that file otherwise. |
| MrUtils.TpchFilesSharePrefix | parquet-mr-tests/src/test/java/parquet/compat/test/Utils.java:82-84 | The `.java.parquet` and `.impala.parquet` files of a prefix without '.' have that prefix again. |
| MrUtils.GetParquetTestFile | parquet-mr-tests/src/test/java/parquet/compat/test/Utils.java:86-94 | The file is `target/test/fromExampleFiles/<name>[.<module>].parquet`, absent afterwards when `deleteIfExists` is set, with nothing else changed. |
| MrUtils.GetCsvTestFile | parquet-mr-tests/src/test/java/parquet/compat/test/Utils.java:96-104 | The file is `target/test/fromExampleFiles/<name>[.<module>].csv`, absent afterwards when `deleteIfExists` is set, with nothing else changed. |
| MrUtils.FirstDifferingLine | parquet-mr-tests/src/test/java/parquet/compat/test/Utils.java:106-126 | For two text files, the check passes when the lines agree, fails at the first 1-based differing line with both lines, or names the shorter file's line count when one file is a prefix of the other. |
| MrUtils.SortFile | parquet-mr-tests/src/test/java/parquet/compat/test/Utils.java:137-147 | For any external sort that returns a sorted permutation, the `.sorted` sibling holds the same lines as `Collections.sort` would give. |
| MrUtils.SortedFileIsPermutation | parquet-mr-tests/src/test/java/parquet/compat/test/Utils.java:150-172 | The `.sorted` sibling's lines are ascending and a permutation of the input's lines. |
| MrUtils.VerifyWithOrder | parquet-mr-tests/src/test/java/parquet/compat/test/Utils.java:128-135 | With order mattering it is the ordered check on unchanged files; otherwise it sorts both files into `.sorted` siblings first and compares those. |
| TestReadTpchFiles.WriteFromJavaFile | parquet-mr-tests/src/test/java/parquet/compat/test/TestReadTPCHFiles.java:107-108 | The output lies in `target/test/fromExampleFiles`, is not the CSV file, and is named by the CSV name followed by ".writeFromJava.parquet". |
| TestReadTpchFiles.ConvertToParquet | parquet-mr-tests/src/test/java/parquet/compat/test/TestReadTPCHFiles.java:101-134 | The file system afterwards and the result are those `CsvToParquet` gives for deleting the output first and wrapping failures; success returns the output file. |
| TestReadTpchFiles.ConvertToParquetSucceeds | parquet-mr-tests/src/test/java/parquet/compat/test/TestReadTPCHFiles.java:107-132 | With a parsed schema and every line accepted, the output is a closed file holding one record per CSV line. |
| TestReadTpchFiles.ConvertToParquetFailure | parquet-mr-tests/src/test/java/parquet/compat/test/TestReadTPCHFiles.java:120-130 | A failing line is rethrown naming the number of lines written before it and the CSV file, with the output left empty and unclosed. |
| TestReadTpchFiles.ConvertToCsv | parquet-mr-tests/src/test/java/parquet/compat/test/TestReadTPCHFiles.java:136-178 | The file system and the outcome are those `ConvertToCsvOutcome` gives: a name too short, a missing or unreadable file, a missing first row group, or the verdict of comparing the first row group's lines with the expected file. |
| TestReadTpchFiles.WriteRows | parquet-mr-tests/src/test/java/parquet/compat/test/TestReadTPCHFiles.java:155-172 | The writer gains one normalised, delimiter-joined line with "\n" per row of the row group. |
| TestReadTpchFiles.OutputIsNotExpected | parquet-mr-tests/src/test/java/parquet/compat/test/TestReadTPCHFiles.java:139-142 | The CSV file written is never the expected CSV file. |
| TestReadTpchFiles.ConvertToCsvPasses | parquet-mr-tests/src/test/java/parquet/compat/test/TestReadTPCHFiles.java:148-176 | When the expected file is text and the values are terminator-free, the check passes exactly when the expected lines equal the stripped lines of the first row group. |
| TestReadTpchFiles.VerifyPassesExactly | parquet-mr-tests/src/test/java/parquet/compat/test/TestReadTPCHFiles.java:180-195 | The private `verify` passes exactly when both files exist and the expected lines equal the stripped output lines. |
| CsvWriteSupport.ValueEvent | parquet-mr-tests/src/test/java/parquet/compat/test/CsvWriteSupport.java:49-80 | The type switch for one non-empty field: the typed add call, a NumberFormatException for an unparsable number, or "Unsupported column type". It is a definition with no contract of its own; `ValueEventCases` states what it does for each type. |
| CsvWriteSupport.ColumnStep | parquet-mr-tests/src/test/java/parquet/compat/test/CsvWriteSupport.java:45-73 | The calls for one column: none for an empty field, otherwise startField, the add call and endField, or startField and the exception. It is a definition with no contract of its own; `StepMentions` and `StepLayout` state its shape. |
| CsvWriteSupport.Columns | parquet-mr-tests/src/test/java/parquet/compat/test/CsvWriteSupport.java:44-74 | The calls for the first `n` columns in order, stopping at the first exception. It is a definition with no contract of its own; `ColumnsShape`, `FirstFailure`, `NoFailureBefore` and `ColumnsMentionNonEmpty` state its properties. |
| CsvWriteSupport.Encode | parquet-mr-tests/src/test/java/parquet/compat/test/CsvWriteSupport.java:37-76 | What one `write` does: nothing but the field-count exception on a wrong count, otherwise startMessage, the columns' calls and, unless a column failed, endMessage. It is a definition with no contract of its own; `FieldCountRejection`, `WriteIsBracketed`, `WriteFailsInsideRecord`, `FieldCalls`, `FieldsInOrder` and `EmptyFieldIsNull` state its properties, and `CsvWriteSupport.Write` is proved to do exactly this. |
| JavaText.ParseBoolean | parquet-mr-tests/src/test/java/parquet/compat/test/CsvWriteSupport.java:51 | `Boolean.parseBoolean`. It is a definition with no contract of its own; `ParseBooleanSpellings` states that it is true exactly for the sixteen spellings of "true". |
| JavaText.EqualsIgnoreCase | parquet-mr-tests/src/test/java/parquet/compat/test/CsvWriteSupport.java:51 | `equalsIgnoreCase` against an ASCII word. It is a definition with no contract of its own; `ParseBooleanSpellings` states what it accepts for "true". |
| JavaText.DigitsValue | parquet-mr-tests/src/test/java/parquet/compat/test/CsvWriteSupport.java:59-64 | The value of a string of decimal digits. It is a definition with no contract of its own; `DigitsValueBound` bounds it by 10 to the number of digits. |
| JavaText.DigitsValueBound | parquet-mr-tests/src/test/java/parquet/compat/test/CsvWriteSupport.java:59-64 | A string of `n` digits denotes a number below 10^n. |
| JavaText.ParseIntegerSignedDigits | parquet-mr-tests/src/test/java/parquet/compat/test/CsvWriteSupport.java:59-64 | An optional '+' or '-' followed by one or more digits parses to the digits' value, negated after '-', exactly when that value is in range, and fails otherwise. |
| JavaText.ParseIntegerShape | parquet-mr-tests/src/test/java/parquet/compat/test/CsvWriteSupport.java:59-64 | Only an optional sign followed by at least one digit parses; any text of another shape is a NumberFormatException. |
| JavaText.IntRangeEdges | parquet-mr-tests/src/test/java/parquet/compat/test/CsvWriteSupport.java:59-61 | `parseInt` accepts "-2147483648" and "2147483647" with their values and rejects "2147483648". |
| JavaText.IntMinParses | parquet-mr-tests/src/test/java/parquet/compat/test/CsvWriteSupport.java:59-61 | `parseInt("-2147483648")` is the least int, although 2147483648 alone is out of range. |
| JavaText.SmallIntegerTexts | parquet-mr-tests/src/test/java/parquet/compat/test/CsvWriteSupport.java:59-61 | `parseInt("-0")` is zero, and a lone "+" and "1a2" are rejected. |
| JavaText.DigitsOfIntEdges | parquet-mr-tests/src/test/java/parquet/compat/test/CsvWriteSupport.java:59-61 | The digits of 2^31 - 1 and 2^31 denote those numbers. |
| JavaText.ShortDigitsParseAsInt | parquet-mr-tests/src/test/java/parquet/compat/test/CsvWriteSupport.java:59-61 | Every string of one to nine ASCII digits is accepted by `Integer.parseInt`, with the value its digits denote. |
| JavaText.StartsWith | parquet-compat/src/test/java/parquet/compat/test/Utils.java:101 | `String.startsWith`. It is a definition with no contract of its own. |
| JavaText.EndsWith | parquet-mr-tests/src/test/java/parquet/compat/test/ConvertUtils.java:115-118 | `String.endsWith`. It is a definition with no contract of its own. |
| JavaText.CompareTo | parquet-compat/src/test/java/parquet/compat/test/Utils.java:102 | `String.compareTo`: the difference of the first differing characters, or of the lengths. It is a definition with no contract of its own; `CompareToZero`, `CompareToFlip`, `AtMostTransitive`, `AtMostTotal` and `CompareToCommonPrefix` state its properties. |
| JavaText.AtMost | parquet-compat/src/test/java/parquet/compat/test/Utils.java:102 | `compareTo(a, b) <= 0`. It is a definition with no contract of its own; `AtMostTransitive` and `AtMostTotal` make it a total order. |
| JavaText.Join | parquet-mr-tests/src/test/java/parquet/compat/test/ConvertUtils.java:150-164 | The fields with the delimiter between neighbours and at neither end. It is a definition with no contract of its own; `JoinSnoc`, `JoinPieces`, `PiecesOfJoin` and `SplitOfJoin` relate it to the split. |
| JavaText.Pieces | parquet-mr-tests/src/test/java/parquet/compat/test/ConvertUtils.java:99 | Every piece between delimiters, trailing empty ones included: at least one piece, none holding the delimiter. |
| CsvParquetWriter.Fields | parquet-mr-tests/src/test/java/parquet/compat/test/ConvertUtils.java:99 | `line.split(Pattern.quote(CSV_DELIMITER))`. It is a definition with no contract of its own; `SplitOfJoin`, `SplitWrittenRow` and `TrailingNullDoesNotLoad` state what it gives for written lines. |
| CsvParquetWriter.Load | parquet-mr-tests/src/test/java/parquet/compat/test/ConvertUtils.java:96-106 | The line loop: each line's record in turn, counting the lines written, until the first rejected line. It is a definition with no contract of its own; `LoadCountsLines`, `LoadConcatenates`, `LoadFailureEvents` and `LoadStops` state its properties, and `WriteLines` is proved to do exactly this. |
| CsvParquetWriter.Records | parquet-mr-tests/src/test/java/parquet/compat/test/ConvertUtils.java:98-102 | The records of all lines, one after another: the reference that `LoadConcatenates` and `LoadFailureEvents` compare the loop with. It is a definition with no contract of its own. |
| RowFormat.IsFloating | parquet-mr-tests/src/test/java/parquet/compat/test/ConvertUtils.java:156-158 | A primitive FLOAT or DOUBLE field. It is a definition with no contract of its own. |
| Files.WithSuffix | parquet-compat/src/test/java/parquet/compat/test/Utils.java:210 | `new File(f.getAbsolutePath().concat(suffix))`, kept in the same directory. It is a definition with no contract of its own; `SortedPath` states that the sibling is another file. |
| Files.IsLine | parquet-compat/src/test/java/parquet/compat/test/Utils.java:187 | A string `readLine` can return: it holds no line terminator. It is a definition with no contract of its own. |
| Files.Readable | parquet-compat/src/test/java/parquet/compat/test/Utils.java:182-183 | A file that opening for reading either fails on (missing) or reads as text. It is a definition with no contract of its own. |
| Files.LinesOf | parquet-compat/src/test/java/parquet/compat/test/Utils.java:215-219 | The lines `readLine` returns for a text file; none holds a terminator. |
| Files.ReadFile | parquet-mr-tests/src/test/java/parquet/compat/test/ConvertUtils.java:55-72 | `readFile`: each line followed by "\n". It is a definition with no contract of its own; `Conversion.SchemaTextLines` states that its text reads back as the file's lines. |
| Files.PrintLines | parquet-compat/src/test/java/parquet/compat/test/Utils.java:222-224 | The text `println` writes for the lines in turn. It is a definition with no contract of its own; `PrintLinesSnoc` and `ReadPrintedLines` state its properties. |
| Files.FileSystem.Store | parquet-compat/src/test/java/parquet/compat/test/Utils.java:212 | Writing one file replaces or creates exactly that file. |
| Files.TextWriter.Open | parquet-mr-tests/src/test/java/parquet/compat/test/ConvertUtils.java:134 | `new FileWriter(f)` creates or empties the file and changes no other file; the writer starts empty. |
| Naming.ArtifactName | parquet-compat/src/test/java/parquet/compat/test/Utils.java:117-119 | The name starts with the base name, ends with the extension, and is longer by the extension and, with a module, by the module and its '.'. |
| CompatUtils.IsPreviousVersion | parquet-compat/src/test/java/parquet/compat/test/Utils.java:100-103 | The accept-filter of `getAllPreviousVersionDirs`. It is a definition with no contract of its own; `PreviousVersionDirs` states which entries it keeps. |
| Equivalence.AfterFirstTab | parquet-compat/src/test/java/parquet/compat/test/Utils.java:189 | `substring(indexOf("\t") + 1)`. It is a definition with no contract of its own; `AfterFirstTabSplits` states what it keeps. |
| Equivalence.LockstepFrom | parquet-compat/src/test/java/parquet/compat/test/Utils.java:186-193 | The lockstep loop after `done` matched lines. It is a definition with no contract of its own; `LockstepFromPass`, `LockstepFromFailure`, `LockstepFromFound`, `LockstepFromDiffers`, `LockstepFromExpectedLonger` and `LockstepFromOutputLonger` state its verdicts. |
| Equivalence.Lockstep | parquet-compat/src/test/java/parquet/compat/test/Utils.java:184-193 | The lockstep loop from the first line. It is a definition with no contract of its own; `LockstepPass` and `LockstepFailure` state its verdicts. |
| Equivalence.Sorted | parquet-compat/src/test/java/parquet/compat/test/Utils.java:220 | Ascending by `compareTo`, the order `Collections.sort` leaves. It is a definition with no contract of its own. |
| Equivalence.VerifyFiles | parquet-compat/src/test/java/parquet/compat/test/Utils.java:178-198 | The ordered `verify`: a missing expected file, then a missing output file, fails to open; otherwise the lockstep verdict. It is a definition with no contract of its own; `Equivalence.Verify` is proved to do exactly this, and `VerifyPassesExactly` and `FirstDifferingLine` state its verdicts. |
| Equivalence.VerifyUnorderedFiles | parquet-compat/src/test/java/parquet/compat/test/Utils.java:200-231 | The unordered `verify`: sort the expected file, then the output file, then compare the sorted siblings. It is a definition with no contract of its own; `UnorderedPass` states when it passes. |
| Conversion.CsvToParquet | parquet-mr-tests/src/test/java/parquet/compat/test/ConvertUtils.java:81-112 | The conversion shared by the three CSV-to-Parquet variants: schema, existing output, parse, writer, lines, close. It is a definition with no contract of its own; `ExistingOutputRefused`, `OnlyOutputChanges`, `ConversionSucceeds`, `FailureNamesLine` and `FailureLeavesOutput` state its properties, and the three conversion methods are proved to do exactly this. |
| Conversion.AllRecords | parquet-mr-tests/src/test/java/parquet/compat/test/ConvertUtils.java:137-140 | The records `reader.read()` returns, row group after row group. It is a definition with no contract of its own; `FirstRowGroupFirst` states that the first row group comes first. |
| Conversion.ParquetToCsv | parquet-mr-tests/src/test/java/parquet/compat/test/ConvertUtils.java:114-146 | The Parquet-to-CSV conversion: the argument checks, the footer read, then every record's line. It is a definition with no contract of its own; `ParquetToCsvFrame` and `ParquetToCsvLines` state its properties, and both conversion methods are proved to do exactly this. |
| TestReadTpchFiles.ReadFromJavaFile | parquet-mr-tests/src/test/java/parquet/compat/test/TestReadTPCHFiles.java:142 | The CSV written lies in the output directory, is not the Parquet file, and is named by the Parquet name followed by ".readFromJava.csv". |
| TestReadTpchFiles.ConvertToCsvOutcome | parquet-mr-tests/src/test/java/parquet/compat/test/TestReadTPCHFiles.java:136-178 | What `convertToCSV` ends with: a name too short, a missing or unreadable file, no row group, or the first row group's lines written and compared with the expected file. It is a definition with no contract of its own; `ConvertToCsvPasses` states when it passes, and `ConvertToCsv` is proved to do exactly this. |

## Left out

- The Parquet library is not part of this model. This covers `MessageTypeParser`, `ParquetWriter`'s file format, `ParquetReader`, `ParquetFileReader.readFooter`, `readNextRowGroup`, the record readers and `Binary`. The schema parser and the file decoder are function parameters of the conversions. A Parquet file holds the consumer calls its writer received, stored when the writer is closed.
- `Group.getValueToString` is not modelled. A record is given directly as one value string per field, so the model assumes that every call returns a string. What the call really does for an absent value, including whether it throws, is not captured.
- Conversion.ParquetToCsvFrame: the model assumes that every record is read and every value yields a string, so a Parquet-to-CSV conversion fails only up to `readFooter`, before the CSV file exists. In the source the CSV writer is opened before the records are read (parquet-mr-tests `ConvertUtils.java` line 134, `TestReadTPCHFiles.java` line 153). A failure while reading records therefore leaves an empty or partial CSV file, which makes a rerun of `convertParquetToCSV` refuse the existing output. That failure, and the partial file it leaves, are not modelled.
- The default dictionary setting of `ParquetWriter` (used by the parquet-mr-tests and TPC-H conversions) is a parameter, `defaultDictionary`.
- `Float.parseFloat` and `Double.parseDouble` are not modelled. Which texts they accept is the parameter `parsesFloating`, and the float and double calls carry the field text instead of a floating-point value.
- `ExternalSort.sortInBatch` and `mergeSortedFiles` (disk-backed chunking and merging) are a parameter. Their one known promise is a requirement: the result is ascending by `compareTo` and a permutation of the lines.
- `sortFileOld` (parquet-mr-tests) is the same read, `Collections.sort` and `println` procedure as parquet-compat's `sortFile`. It is modelled once, by `Equivalence.SortFile`, and `MrUtils.SortedFileIsPermutation` states its result.
- `Utils.Version` and `TestUtils` are not part of this model: the class is not defined in the shown sources.
- The test drivers that loop over data sets and versions are not modelled: `TestBackwardsCompatibility`, `TestImpalaCompatibility`, `TestPerfRegression`, `createTestFile`, `getAllOriginalCSVFiles`, and `TestReadTPCHFiles`' test methods. Each is I/O and timing around the modelled operations.
- `Files.PrintLines`: writes `"\n"` where Java writes the `line.separator` system property. The same holds for `readFile` (`Files.ReadFile`), for `println` in parquet-compat's `sortFile` (`Utils.java` lines 222-224, `Equivalence.SortFile` and `Equivalence.PrintEach`), and for ExternalSort's merged output (`MrUtils.SortFile`). `readLine` accepts every terminator, so the lines read back are the same on any platform.
- `closeQuietly`, `mkdirs` and logging are not modelled; they do not change what is modelled.
- `java.io.File` path handling is not modelled. A `File` is a directory string and a name, with the directory given without the trailing `/` that `File` drops. `getAbsolutePath()` is not resolved, so a `.sorted` sibling lies in the input's directory.
- I/O exceptions from `readLine`, `write` and `close` on an existing file are not modelled.
- Reading a Parquet (non-text) file as lines is excluded by a requirement (`Readable`) where a text file is read. What a `BufferedReader` would make of binary content is outside the model.
- `convertParquetToCSVEx` (deprecated, parquet-mr-tests) is not modelled.
- `init` and `WriteContext` of `CsvWriteSupport` are not modelled; they only pass the schema on.
- `TestReadTpchFiles.ConvertToParquet`: the delimiter argument is fixed to `"|"`, the only one its callers pass.
- `JavaText.CompareTo`: orders strings by code point, because a Dafny `char` is a Unicode scalar value, and counts lengths in code points. Java compares UTF-16 code units. Strings with characters above U+FFFF can therefore order differently from Java: U+10000 sorts before U+FFFF in Java and after it here.
- `JavaText.ParseInteger`: accepts ASCII digits only, while `Character.digit` also accepts other Unicode decimal digits. A leading `+` is accepted, as Java 7 and later do.
- `CsvWriteSupport.ValueEventCases`: the FLOAT and DOUBLE cases state acceptance through `parsesFloating`, not through Java's floating-point grammar.
