/** parquet-compat `Utils`: the directory filters of the compatibility runs, where the
    Parquet and CSV artifacts of a module live, and the two `verify`s, the unordered one
    sorting with `Collections.sort`. The directories are given without the trailing '/'
    that `java.io.File` drops. */
module CompatUtils {
  import opened Wrappers
  import opened JavaText
  import opened Files
  import opened Naming
  import opened Equivalence

  /** The entries of a directory listing that a `FilenameFilter` accepts, in listing order. */
  function Filter(entries: seq<string>, accept: string -> bool): (r: seq<string>)
    ensures |r| <= |entries|
    ensures forall n :: n in r <==> n in entries && accept(n)
  {
    if |entries| == 0 then []
    else
      var rest := Filter(entries[1..], accept);
      assert forall n :: n in entries <==> n == entries[0] || n in entries[1..];
      if accept(entries[0]) then [entries[0]] + rest else rest
  }

  /** `getAllPreviousVersionDirs`'s filter: a version directory named at most like the
      current one, by plain `String.compareTo`. */
  predicate IsPreviousVersion(currentVersion: string, name: string) {
    StartsWith(name, "parquet-compat-") && AtMost(name, currentVersion)
  }

  /** `getAllPreviousVersionDirs` over the listing of "..", given the current directory's name. */
  function PreviousVersionDirs(entries: seq<string>, currentVersion: string): (r: seq<string>)
    ensures forall n :: n in r <==> n in entries && StartsWith(n, "parquet-compat-") && AtMost(n, currentVersion)
  {
    Filter(entries, n => IsPreviousVersion(currentVersion, n))
  }

  /** The current version's own directory is one of the previous versions. */
  lemma CurrentVersionIncluded(entries: seq<string>, currentVersion: string)
    requires currentVersion in entries && StartsWith(currentVersion, "parquet-compat-")
    ensures currentVersion in PreviousVersionDirs(entries, currentVersion)
  {
    CompareToZero(currentVersion, currentVersion);
  }

  /** The order is that of the characters, not of the version numbers: "1.10" sorts before
      "1.9", so version 1.10 counts as previous to version 1.9. */
  lemma PlainStringOrder()
    ensures IsPreviousVersion("parquet-compat-1.9", "parquet-compat-1.10")
  {
    var p := "parquet-compat-1.";
    assert "parquet-compat-1.10" == p + "10" && "parquet-compat-1.9" == p + "9";
    CompareToCommonPrefix(p, "10", "9");
    assert StartsWith("parquet-compat-1.10", "parquet-compat-");
  }

  /** A common prefix does not change the comparison. */
  lemma {:induction false} CompareToCommonPrefix(p: string, x: string, y: string)
    ensures CompareTo(p + x, p + y) == CompareTo(x, y)
  {
    if |p| > 0 {
      assert (p + x)[1..] == p[1..] + x && (p + y)[1..] == p[1..] + y;
      CompareToCommonPrefix(p[1..], x, y);
    } else {
      assert p + x == x && p + y == y;
    }
  }

  /** `getImpalaDirectories` over the listing of the Impala test data: no hidden entry. */
  function ImpalaDirectories(entries: seq<string>): (r: seq<string>)
    ensures forall n :: n in r <==> n in entries && !StartsWith(n, ".")
  {
    Filter(entries, n => !StartsWith(n, "."))
  }

  /** `getParquetFileName(name, module)`. */
  function ParquetFileName(name: string, moduleName: Option<string>): (r: string)
    ensures EndsWith(r, ".parquet")
    ensures '.' !in name ==> FileNamePrefix(r) == Some(name)
  {
    PrefixOfArtifact(name, moduleName, ".parquet");
    ArtifactName(name, moduleName, ".parquet")
  }

  /** `getParquetOutputFile(name, module, deleteIfExists)`: `target/parquet/<name>[.<module>].parquet`,
      deleted first when asked. */
  method GetParquetOutputFile(fs: FileSystem, name: string, moduleName: Option<string>, deleteIfExists: bool)
    returns (f: FilePath)
    modifies fs
    ensures f == FilePath("target/parquet", ParquetFileName(name, moduleName))
    ensures fs.files == if deleteIfExists then old(fs.files) - {f} else old(fs.files)
  {
    f := PrepareFile(fs, "target/parquet", ParquetFileName(name, moduleName), deleteIfExists);
  }

  /** `getParquetFile(name, version, module, failIfNotExist)`: the artifact another version
      wrote; a missing one fails only when asked to (otherwise it is only logged). */
  function GetParquetFile(files: map<FilePath, Content>, name: string, version: string,
                          moduleName: Option<string>, failIfNotExist: bool): (r: Result<FilePath, FilePath>)
    ensures var p := FilePath("../" + version + "/target/parquet", ParquetFileName(name, moduleName));
      && (r.Err? <==> failIfNotExist && p !in files)
      && (r.Ok? ==> r.value == p) && (r.Err? ==> r.error == p)
  {
    var p := FilePath("../" + version + "/target/parquet", ParquetFileName(name, moduleName));
    if p !in files && failIfNotExist then Err(p) else Ok(p)
  }

  /** The Parquet file another version wrote for a CSV file is named by the CSV file's
      prefix: its own prefix is that prefix again. */
  lemma ParquetFileOfCsv(files: map<FilePath, Content>, csvFile: FilePath, version: string,
                         moduleName: Option<string>, failIfNotExist: bool)
    requires '.' in csvFile.name
    ensures var prefix := FileNamePrefix(csvFile.name).value;
      var r := GetParquetFile(files, prefix, version, moduleName, failIfNotExist);
      r.Ok? ==> FileNamePrefix(r.value.name) == FileNamePrefix(csvFile.name)
  {
  }

  /** `getParquetImpalaFile(name, impalaVersion)`: `<name>.impala.parquet` under the
      Impala version's directory; a missing file always fails, naming the file. */
  function GetParquetImpalaFile(files: map<FilePath, Content>, name: string, impalaVersion: string)
    : (r: Result<FilePath, string>)
    ensures var p := FilePath("../parquet-testdata/impala/" + impalaVersion, name + ".impala.parquet");
      && (r.Ok? <==> p in files)
      && (r.Ok? ==> r.value == p) && (r.Err? ==> r.error == p.name)
  {
    var fileName := name + ".impala.parquet";
    var p := FilePath("../parquet-testdata/impala/" + impalaVersion, fileName);
    if p !in files then Err(fileName) else Ok(p)
  }

  /** `getCsvTestFile(name, module, deleteIfExists)`: `target/test/csv/<name>[.<module>].csv`. */
  method GetCsvTestFile(fs: FileSystem, name: string, moduleName: Option<string>, deleteIfExists: bool)
    returns (f: FilePath)
    modifies fs
    ensures f == FilePath("target/test/csv", ArtifactName(name, moduleName, ".csv"))
    ensures fs.files == if deleteIfExists then old(fs.files) - {f} else old(fs.files)
  {
    f := PrepareFile(fs, "target/test/csv", ArtifactName(name, moduleName, ".csv"), deleteIfExists);
  }

  /** `getParquetTestFile(name, module, deleteIfExists)`: under `target/test/parquet`, with
      the ".csv" extension the source gives it. */
  method GetParquetTestFile(fs: FileSystem, name: string, moduleName: Option<string>, deleteIfExists: bool)
    returns (f: FilePath)
    modifies fs
    ensures f == FilePath("target/test/parquet", ArtifactName(name, moduleName, ".csv"))
    ensures fs.files == if deleteIfExists then old(fs.files) - {f} else old(fs.files)
  {
    f := PrepareFile(fs, "target/test/parquet", ArtifactName(name, moduleName, ".csv"), deleteIfExists);
  }

  /** `verify(expected, output, orderMatters)`: unless order matters, both files are sorted
      into their `.sorted` siblings first, and those are compared. */
  method VerifyWithOrder(fs: FileSystem, e: FilePath, o: FilePath, orderMatters: bool) returns (v: Verdict)
    requires Readable(fs.files, e) && Readable(fs.files, o)
    modifies fs
    ensures orderMatters ==> fs.files == old(fs.files) && v == VerifyFiles(old(fs.files), e, o)
    ensures !orderMatters ==> var r := VerifyUnorderedFiles(old(fs.files), e, o);
      fs.files == r.files && v == r.verdict
  {
    if orderMatters {
      v := Verify(fs, e, o);
      return;
    }
    var sortedExpected := SortFile(fs, e);
    if sortedExpected.None? {
      return NotFound(e);
    }
    var sortedOutput := SortFile(fs, o);
    if sortedOutput.None? {
      return NotFound(o);
    }
    v := Verify(fs, sortedExpected.value, sortedOutput.value);
  }
}
