/** The text form of a Parquet record that the `writeGroup` serialisers produce: the value
    strings of the top-level fields in schema order, joined with '|' and ended by "\n",
    optionally with the ".0" of FLOAT and DOUBLE values stripped. The records themselves
    come from the Parquet reader, which is not part of this model: a record is the value
    string `Group.getValueToString(j, 0)` gives for each field `j`. */
module RowFormat {
  import opened JavaText
  import opened Files
  import opened CsvWriteSupport

  /** The CSV field delimiter, `CSV_DELIMITER`. */
  const Delimiter: char := '|'

  /** A top-level field of a schema: a primitive column or a nested group. */
  datatype FieldType = Primitive(kind: PrimitiveKind) | GroupField

  /** A record as the serialisers see it: the value string of each field index. */
  type Group = nat -> string

  /** What the Parquet reader yields for a file: the footer schema's top-level fields and
      the records of each row group in order. */
  datatype ParquetData = ParquetData(fields: seq<FieldType>, rowGroups: seq<seq<Group>>)

  predicate IsFloating(t: FieldType) {
    t.Primitive? && (t.kind.Float? || t.kind.Double?)
  }

  /** The ".0" rule: a FLOAT or DOUBLE value ending in ".0" loses those two characters,
      once; every other value is kept. */
  function Normalise(t: FieldType, v: string): (r: string)
    ensures r <= v
    ensures |v| - |r| == 2 <==> IsFloating(t) && EndsWith(v, ".0")
    ensures |v| - |r| != 2 ==> r == v
  {
    if IsFloating(t) && EndsWith(v, ".0") then v[..|v| - 2] else v
  }

  /** The strings written for the fields of `g`, normalised when `normalise` is set. */
  function Values(fields: seq<FieldType>, g: Group, normalise: bool): (r: seq<string>)
    ensures |r| == |fields|
    ensures forall j :: 0 <= j < |fields| ==> r[j] == if normalise then Normalise(fields[j], g(j)) else g(j)
  {
    seq(|fields|, j requires 0 <= j < |fields| => if normalise then Normalise(fields[j], g(j)) else g(j))
  }

  /** The line (without its "\n") written for each record. */
  function RowLines(fields: seq<FieldType>, groups: seq<Group>, normalise: bool): (r: seq<string>)
    ensures |r| == |groups|
  {
    seq(|groups|, i requires 0 <= i < |groups| => Join(Values(fields, groups[i], normalise), Delimiter))
  }

  /** One more record adds one more line. */
  lemma RowLinesSnoc(fields: seq<FieldType>, groups: seq<Group>, g: Group, normalise: bool)
    ensures RowLines(fields, groups + [g], normalise)
         == RowLines(fields, groups, normalise) + [Join(Values(fields, g, normalise), Delimiter)]
  {
  }

  /** A joined line holds no line terminator when none of its values does. */
  lemma {:induction false} JoinIsLine(values: seq<string>)
    requires forall j :: 0 <= j < |values| ==> IsLine(values[j])
    ensures IsLine(Join(values, Delimiter))
  {
    if |values| > 1 {
      JoinIsLine(values[1..]);
      var rest := Join(values[1..], Delimiter);
      var s := Join(values, Delimiter);
      assert s == values[0] + [Delimiter] + rest;
      forall i | 0 <= i < |s|
        ensures !IsTerminator(s[i])
      {
        if i < |values[0]| {
          assert s[i] == values[0][i];
        } else if i > |values[0]| {
          assert s[i] == rest[i - |values[0]| - 1];
        }
      }
    }
  }

  /** Reading the written text back with `readLine` gives one line per record, provided no
      value holds a line terminator. */
  lemma ReadWrittenRows(fields: seq<FieldType>, groups: seq<Group>, normalise: bool)
    requires forall i, j :: 0 <= i < |groups| && 0 <= j < |fields| ==> IsLine(groups[i](j))
    ensures ReadLines(PrintLines(RowLines(fields, groups, normalise))) == RowLines(fields, groups, normalise)
  {
    var lines := RowLines(fields, groups, normalise);
    forall i | 0 <= i < |lines|
      ensures IsLine(lines[i])
    {
      var vs := Values(fields, groups[i], normalise);
      forall j | 0 <= j < |vs|
        ensures IsLine(vs[j])
      {
        assert IsLine(groups[i](j));
        assert vs[j] <= groups[i](j);
      }
      JoinIsLine(vs);
    }
    ReadPrintedLines(lines);
  }

  /** Splitting a written line on the delimiter gives the written values back without their
      trailing empty ones, provided no value holds the delimiter and the line is not a single
      empty value. */
  lemma SplitWrittenRow(fields: seq<FieldType>, g: Group, normalise: bool)
    requires forall j :: 0 <= j < |fields| ==> Delimiter !in g(j)
    requires |fields| >= 2 || (|fields| == 1 && Values(fields, g, normalise)[0] != "")
    ensures Split(Join(Values(fields, g, normalise), Delimiter), Delimiter)
         == DropTrailingEmpty(Values(fields, g, normalise))
  {
    var vs := Values(fields, g, normalise);
    forall j | 0 <= j < |vs|
      ensures Delimiter !in vs[j]
    {
      assert vs[j] <= g(j);
    }
    SplitOfJoin(vs, Delimiter);
  }

  /** A written line whose last value is empty (a NULL in the last column) does not load
      back: it splits into fewer fields than the schema has columns, so `CsvWriteSupport`
      rejects it for its field count. */
  lemma TrailingNullDoesNotLoad(cols: seq<ColumnDescriptor>, values: seq<string>, pf: string -> bool)
    requires |cols| == |values| >= 2
    requires forall j :: 0 <= j < |values| ==> Delimiter !in values[j]
    requires values[|values| - 1] == ""
    ensures var w := Encode(cols, Split(Join(values, Delimiter), Delimiter), pf);
      w.emitted == [] && w.error.Some? && w.error.value.FieldCountMismatch?
  {
    var parts := Split(Join(values, Delimiter), Delimiter);
    SplitOfJoin(values, Delimiter);
    DropTrailingEmptyShortens(values);
    FieldCountRejection(cols, parts, pf);
  }
}
