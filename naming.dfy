/** The file-name rules of the compatibility tests: the schema beside a CSV file, the CSV
    beside a Parquet file, the prefix of a name up to its first '.', and the artifact
    names `<name>[.<module>]<extension>`. */
module Naming {
  import opened Wrappers
  import opened JavaText
  import opened Files

  /** `name.substring(0, name.length() - n)`: `None` when the end index is negative, which
      throws in Java. */
  function DropLast(name: string, n: nat): (r: Option<string>)
    ensures r.Some? <==> n <= |name|
    ensures r.Some? ==> |r.value| == |name| - n && r.value <= name
  {
    if n <= |name| then Some(name[..|name| - n]) else None
  }

  /** `getSchema`'s schema file: the CSV file's name without its last four characters
      (the length of ".csv"), plus ".schema", in the same directory. */
  function SchemaFile(csvFile: FilePath): (r: Option<FilePath>)
    ensures r.Some? <==> |csvFile.name| >= 4
    ensures r.Some? ==> r.value.dir == csvFile.dir && EndsWith(r.value.name, ".schema")
  {
    match DropLast(csvFile.name, 4)
    case None => None
    case Some(base) => Some(FilePath(csvFile.dir, base + ".schema"))
  }

  /** The schema of `<base>.csv` is the sibling `<base>.schema`. */
  lemma SchemaOfCsv(dir: string, base: string)
    ensures SchemaFile(FilePath(dir, base + ".csv")) == Some(FilePath(dir, base + ".schema"))
  {
    assert (base + ".csv")[..|base|] == base;
  }

  /** The expected CSV file of a Parquet file: its name without the last eight
      characters (the length of ".parquet"), plus ".csv", in the same directory. */
  function ExpectedCsvFile(parquetFile: FilePath): (r: Option<FilePath>)
    ensures r.Some? <==> |parquetFile.name| >= 8
    ensures r.Some? ==> r.value.dir == parquetFile.dir && EndsWith(r.value.name, ".csv")
  {
    match DropLast(parquetFile.name, 8)
    case None => None
    case Some(base) => Some(FilePath(parquetFile.dir, base + ".csv"))
  }

  /** The expected CSV of `<base>.parquet` is the sibling `<base>.csv`. */
  lemma ExpectedCsvOfParquet(dir: string, base: string)
    ensures ExpectedCsvFile(FilePath(dir, base + ".parquet")) == Some(FilePath(dir, base + ".csv"))
  {
    assert (base + ".parquet")[..|base|] == base;
  }

  /** `getFileNamePrefix`: the name up to, not including, its first '.'; `None` when the
      name has no '.', as `substring(0, -1)` throws. */
  function FileNamePrefix(name: string): (r: Option<string>)
    ensures r.Some? <==> '.' in name
    ensures r.Some? ==> '.' !in r.value && StartsWith(name, r.value + ".")
  {
    var k := IndexOf(name, '.');
    if k < 0 then None
    else
      assert name[..k + 1] == name[..k] + ".";
      Some(name[..k])
  }

  /** `name + (module != null ? "." + module : "") + extension`. */
  function ArtifactName(name: string, moduleName: Option<string>, extension: string): (r: string)
    ensures StartsWith(r, name) && EndsWith(r, extension)
    ensures |r| == |name| + |extension| + if moduleName.Some? then |moduleName.value| + 1 else 0
  {
    name + (if moduleName.Some? then "." + moduleName.value else "") + extension
  }

  /** An artifact name ends with its extension, and its prefix is the name it was built
      from when that name has no '.' and the extension starts with one. */
  lemma PrefixOfArtifact(name: string, moduleName: Option<string>, extension: string)
    ensures EndsWith(ArtifactName(name, moduleName, extension), extension)
    ensures '.' !in name && |extension| > 0 && extension[0] == '.' ==>
      FileNamePrefix(ArtifactName(name, moduleName, extension)) == Some(name)
  {
    var a := ArtifactName(name, moduleName, extension);
    var tail := (if moduleName.Some? then "." + moduleName.value else "") + extension;
    assert a == name + tail;
    assert a[|a| - |extension|..] == extension;
    if '.' !in name && |extension| > 0 && extension[0] == '.' {
      assert tail[0] == '.';
      PrefixBeforeDot(name, tail);
    }
  }

  /** The prefix of a name without '.' followed by a text starting with '.' is that name. */
  lemma PrefixBeforeDot(name: string, tail: string)
    requires '.' !in name && |tail| > 0 && tail[0] == '.'
    ensures FileNamePrefix(name + tail) == Some(name)
  {
    var a := name + tail;
    assert a[|name|] == '.';
    assert a[..|name|] == name;
    IndexOfAt(a, '.', |name|);
  }
}
