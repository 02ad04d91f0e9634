/** parquet-mr-tests `Utils`: where the TPC-H artifacts live, and the two `verify`s, the
    unordered one sorting with `ExternalSort`. */
module MrUtils {
  import opened Wrappers
  import opened JavaText
  import opened Files
  import opened Naming
  import opened Equivalence

  /** `getParquetVersionedFile(prefix, version, failIfNotExist)`: `<prefix>.java.parquet`
      under the version's TPC-H directory; a missing file fails only when asked to. */
  function GetParquetVersionedFile(files: map<FilePath, Content>, prefix: string, version: string,
                                   failIfNotExist: bool): (r: Result<FilePath, FilePath>)
    ensures var p := FilePath("../testdata/tpch/" + version, prefix + ".java.parquet");
      && (r.Err? <==> failIfNotExist && p !in files)
      && (r.Ok? ==> r.value == p) && (r.Err? ==> r.error == p)
  {
    var p := FilePath("../testdata/tpch/" + version, prefix + ".java.parquet");
    if failIfNotExist && p !in files then Err(p) else Ok(p)
  }

  /** `getParquetImpalaFile(prefix)`: `<prefix>.impala.parquet` beside the TPC-H CSV files;
      a missing file always fails, naming the file. */
  function GetParquetImpalaFile(files: map<FilePath, Content>, prefix: string): (r: Result<FilePath, string>)
    ensures var p := FilePath("../testdata/tpch", prefix + ".impala.parquet");
      && (r.Ok? <==> p in files)
      && (r.Ok? ==> r.value == p) && (r.Err? ==> r.error == p.name)
  {
    var fileName := prefix + ".impala.parquet";
    var p := FilePath("../testdata/tpch", fileName);
    if p !in files then Err(fileName) else Ok(p)
  }

  /** The TPC-H files of one table share its prefix: the Parquet files named after a
      prefix without '.' (as `getFileNamePrefix` returns) have that prefix again. */
  lemma TpchFilesSharePrefix(prefix: string)
    requires '.' !in prefix
    ensures FileNamePrefix(prefix + ".java.parquet") == Some(prefix)
    ensures FileNamePrefix(prefix + ".impala.parquet") == Some(prefix)
  {
    PrefixBeforeDot(prefix, ".java.parquet");
    PrefixBeforeDot(prefix, ".impala.parquet");
  }

  /** `getParquetTestFile(name, module, deleteIfExists)`: `target/test/fromExampleFiles/<name>[.<module>].parquet`. */
  method GetParquetTestFile(fs: FileSystem, name: string, moduleName: Option<string>, deleteIfExists: bool)
    returns (f: FilePath)
    modifies fs
    ensures f == FilePath("target/test/fromExampleFiles", ArtifactName(name, moduleName, ".parquet"))
    ensures fs.files == if deleteIfExists then old(fs.files) - {f} else old(fs.files)
  {
    f := PrepareFile(fs, "target/test/fromExampleFiles", ArtifactName(name, moduleName, ".parquet"), deleteIfExists);
  }

  /** `getCsvTestFile(name, module, deleteIfExists)`: `target/test/fromExampleFiles/<name>[.<module>].csv`. */
  method GetCsvTestFile(fs: FileSystem, name: string, moduleName: Option<string>, deleteIfExists: bool)
    returns (f: FilePath)
    modifies fs
    ensures f == FilePath("target/test/fromExampleFiles", ArtifactName(name, moduleName, ".csv"))
    ensures fs.files == if deleteIfExists then old(fs.files) - {f} else old(fs.files)
  {
    f := PrepareFile(fs, "target/test/fromExampleFiles", ArtifactName(name, moduleName, ".csv"), deleteIfExists);
  }

  /** The ordered comparison of two existing files fails at the first (1-based) line where
      the expected line and the stripped output line differ, or, when every line of the
      shorter file matched, at the last line of the shorter file. */
  lemma FirstDifferingLine(files: map<FilePath, Content>, e: FilePath, o: FilePath)
    requires e in files && files[e].Text? && o in files && files[o].Text?
    ensures var le, lo := LinesOf(files, e), Stripped(LinesOf(files, o));
      match VerifyFiles(files, e, o)
      case Pass => le == lo
      case LineDiffers(n, x, y) =>
        1 <= n <= |le| && n <= |lo| && le[..n - 1] == lo[..n - 1] && x == le[n - 1] && y == lo[n - 1] && x != y
      case ExpectedLonger(n) => n == |lo| < |le| && le[..n] == lo
      case OutputLonger(n) => n == |le| < |lo| && le == lo[..n]
      case NotFound(_) => false
  {
    LockstepPass(LinesOf(files, e), LinesOf(files, o));
    LockstepFailure(LinesOf(files, e), LinesOf(files, o));
  }

  /** `sortFile(inFile)` with `ExternalSort.sortInBatch` and `mergeSortedFiles`: the
      external sort is a parameter, of which only its promise is known, that it returns the
      lines ascending by the comparator (`compareTo`) and as many times as they occur. */
  method SortFile(fs: FileSystem, inFile: FilePath, externalSort: seq<string> -> seq<string>)
    returns (sorted: Option<FilePath>)
    requires Readable(fs.files, inFile)
    requires forall lines :: Sorted(externalSort(lines)) && multiset(externalSort(lines)) == multiset(lines)
    modifies fs
    ensures inFile !in old(fs.files) ==> sorted.None? && fs.files == old(fs.files)
    ensures inFile in old(fs.files) ==> sorted == Some(SortedPath(inFile)) && fs.files == SortInto(old(fs.files), inFile)
  {
    if inFile !in fs.files {
      return None;
    }
    var lines := LinesOf(fs.files, inFile);
    var merged := externalSort(lines);
    SortedUnique(merged, SortLines(lines));
    fs.Store(SortedPath(inFile), Text(PrintLines(merged)));
    return Some(SortedPath(inFile));
  }

  /** `sortFileOld(inFile)` is parquet-compat's `sortFile`; what it leaves in the `.sorted`
      sibling is a sorted permutation of the input's lines. */
  lemma SortedFileIsPermutation(files: map<FilePath, Content>, f: FilePath)
    requires f in files && files[f].Text?
    ensures var s := LinesOf(SortInto(files, f), SortedPath(f));
      Sorted(s) && multiset(s) == multiset(LinesOf(files, f))
  {
    ReadSortedFile(files, f);
  }

  /** `verify(expected, output, orderMatters)`: unless order matters, both files are sorted
      with the external sort into their `.sorted` siblings first, and those are compared. */
  method VerifyWithOrder(fs: FileSystem, e: FilePath, o: FilePath, orderMatters: bool,
                         externalSort: seq<string> -> seq<string>) returns (v: Verdict)
    requires Readable(fs.files, e) && Readable(fs.files, o)
    requires forall lines :: Sorted(externalSort(lines)) && multiset(externalSort(lines)) == multiset(lines)
    modifies fs
    ensures orderMatters ==> fs.files == old(fs.files) && v == VerifyFiles(old(fs.files), e, o)
    ensures !orderMatters ==> var r := VerifyUnorderedFiles(old(fs.files), e, o);
      fs.files == r.files && v == r.verdict
  {
    if orderMatters {
      v := Verify(fs, e, o);
      return;
    }
    var sortedExpected := SortFile(fs, e, externalSort);
    if sortedExpected.None? {
      return NotFound(e);
    }
    var sortedOutput := SortFile(fs, o, externalSort);
    if sortedOutput.None? {
      return NotFound(o);
    }
    v := Verify(fs, sortedExpected.value, sortedOutput.value);
  }
}
