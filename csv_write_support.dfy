/** CsvWriteSupport (parquet-mr-tests): the WriteSupport that turns the text fields of one
    CSV row into the record-consumer calls of one Parquet record. */
module CsvWriteSupport {
  import opened Wrappers
  import opened JavaText
  import opened RecordConsumer

  /** Parquet's PrimitiveTypeName. */
  datatype PrimitiveKind = Int64 | Int32 | Boolean | Binary | Float | Double | Int96 | FixedLenByteArray

  /** A leaf column of a flat schema: the first element of its path and its primitive type. */
  datatype ColumnDescriptor = ColumnDescriptor(name: string, kind: PrimitiveKind)

  /** The exceptions `write` raises: ParquetEncodingException for a wrong field count or an
      unsupported column type, NumberFormatException for a number that does not parse. */
  datatype WriteError =
    | FieldCountMismatch(expected: nat, actual: nat)
    | NumberFormat(column: nat, text: string)
    | UnsupportedColumnType(column: nat, kind: PrimitiveKind)

  /** The calls one `write` made on the consumer, and the exception it ended with, if any. */
  datatype WriteOutcome = WriteOutcome(emitted: seq<Event>, error: Option<WriteError>)

  /** The `add*` call for the non-empty field `v` of column `i`, or the exception the type
      switch raises for it. `parsesFloating` says whether `Float.parseFloat` and
      `Double.parseDouble` accept a text; floating-point parsing is not modelled. */
  function ValueEvent(kind: PrimitiveKind, i: nat, v: string, parsesFloating: string -> bool): Result<Event, WriteError>
  {
    match kind
    case Boolean => Ok(AddBoolean(ParseBoolean(v)))
    case Float => if parsesFloating(v) then Ok(AddFloat(v)) else Err(NumberFormat(i, v))
    case Double => if parsesFloating(v) then Ok(AddDouble(v)) else Err(NumberFormat(i, v))
    case Int32 =>
      (match ParseInteger(v, IntMin, IntMax)
       case Some(n) => Ok(AddInteger(n))
       case None => Err(NumberFormat(i, v)))
    case Int64 =>
      (match ParseInteger(v, LongMin, LongMax)
       case Some(n) => Ok(AddLong(n))
       case None => Err(NumberFormat(i, v)))
    case Binary => Ok(AddBinary(v))
    case Int96 => Err(UnsupportedColumnType(i, kind))
    case FixedLenByteArray => Err(UnsupportedColumnType(i, kind))
  }

  /** What the type switch does for each column type: BOOLEAN never fails and is true
      exactly for "true" in any case, BINARY passes the text on, INT32 and INT64 fail
      exactly when the text is not a decimal in range, FLOAT and DOUBLE exactly when the
      floating-point parser rejects the text, and the other types always fail. */
  lemma ValueEventCases(kind: PrimitiveKind, i: nat, v: string, parsesFloating: string -> bool)
    ensures var r := ValueEvent(kind, i, v, parsesFloating);
      && (r.Err? ==> !r.error.FieldCountMismatch? && r.error.column == i)
      && (r.Err? && r.error.UnsupportedColumnType? <==> kind.Int96? || kind.FixedLenByteArray?)
      && (kind.Boolean? ==> r.Ok? && r.value.AddBoolean? && (r.value.boolValue <==> EqualsIgnoreCase(v, "true")))
      && (kind.Binary? ==> r == Ok(AddBinary(v)))
      && (kind.Int32? ==> (r.Ok? <==> ParseInteger(v, IntMin, IntMax).Some?))
      && (kind.Int64? ==> (r.Ok? <==> ParseInteger(v, LongMin, LongMax).Some?))
      && (kind.Int32? && r.Ok? ==> r.value.AddInteger? && IntMin <= r.value.intValue <= IntMax)
      && (kind.Int64? && r.Ok? ==> r.value.AddLong? && LongMin <= r.value.longValue <= LongMax)
      && (kind.Int32? && r.Ok? ==> r == Ok(AddInteger(ParseInteger(v, IntMin, IntMax).value)))
      && (kind.Int64? && r.Ok? ==> r == Ok(AddLong(ParseInteger(v, LongMin, LongMax).value)))
      && ((kind.Float? || kind.Double?) ==> (r.Ok? <==> parsesFloating(v)))
  {
  }

  /** The calls for column `i` holding `v`: none for an empty (NULL) field, otherwise
      startField, the add call and endField, or startField and the exception. */
  function ColumnStep(c: ColumnDescriptor, i: nat, v: string, parsesFloating: string -> bool): WriteOutcome
  {
    if |v| == 0 then WriteOutcome([], None)
    else
      match ValueEvent(c.kind, i, v, parsesFloating)
      case Ok(e) => WriteOutcome([StartField(c.name, i), e, EndField(c.name, i)], None)
      case Err(err) => WriteOutcome([StartField(c.name, i)], Some(err))
  }

  /** The calls for columns 0..n-1 in order, stopping at the first exception. */
  function Columns(cols: seq<ColumnDescriptor>, values: seq<string>, n: nat, parsesFloating: string -> bool): WriteOutcome
    requires n <= |cols| == |values|
  {
    if n == 0 then WriteOutcome([], None)
    else
      var prev := Columns(cols, values, n - 1, parsesFloating);
      if prev.error.Some? then prev
      else
        var step := ColumnStep(cols[n - 1], n - 1, values[n - 1], parsesFloating);
        WriteOutcome(prev.emitted + step.emitted, step.error)
  }

  /** What `write(values)` does to the consumer: nothing for a wrong field count, otherwise
      startMessage, the columns' calls and, unless a column failed, endMessage. */
  function Encode(cols: seq<ColumnDescriptor>, values: seq<string>, parsesFloating: string -> bool): WriteOutcome
  {
    if |values| != |cols| then WriteOutcome([], Some(FieldCountMismatch(|cols|, |values|)))
    else
      var body := Columns(cols, values, |cols|, parsesFloating);
      if body.error.Some? then WriteOutcome([Event.StartMessage] + body.emitted, body.error)
      else WriteOutcome([Event.StartMessage] + body.emitted + [Event.EndMessage], None)
  }

  class CsvWriteSupport {
    const cols: seq<ColumnDescriptor>
    var recordConsumer: EventLog?
    const parsesFloating: string -> bool

    /** `new CsvWriteSupport(schema)`: the columns of the (flat) schema. */
    constructor (schema: seq<ColumnDescriptor>, parsesFloating: string -> bool)
      ensures cols == schema && recordConsumer == null && this.parsesFloating == parsesFloating
    {
      cols := schema;
      recordConsumer := null;
      this.parsesFloating := parsesFloating;
    }

    /** `prepareForWrite(r)`: the Parquet writer hands over its record consumer. */
    method PrepareForWrite(r: EventLog)
      modifies this
      ensures recordConsumer == r
    {
      recordConsumer := r;
    }

    /** `write(values)`: the calls it makes are those `Encode` gives, and it raises what
        `Encode` says. */
    method Write(values: seq<string>) returns (error: Option<WriteError>)
      requires recordConsumer != null
      modifies recordConsumer
      ensures recordConsumer.events == old(recordConsumer.events) + Encode(cols, values, parsesFloating).emitted
      ensures error == Encode(cols, values, parsesFloating).error
    {
      var cs, pf := cols, parsesFloating;
      if |values| != |cs| {
        return Some(FieldCountMismatch(|cs|, |values|));
      }
      var consumer := recordConsumer;
      consumer.Receive(Event.StartMessage);
      ghost var started := consumer.events;
      var i := 0;
      while i < |cs|
        invariant i <= |cs|
        invariant Columns(cs, values, i, pf).error.None?
        invariant consumer.events == started + Columns(cs, values, i, pf).emitted
      {
        ColumnsSnoc(cs, values, i, pf);
        ghost var done := Columns(cs, values, i, pf).emitted;
        ghost var step := ColumnStep(cs[i], i, values[i], pf).emitted;
        error := WriteField(consumer, cs[i], i, values[i], pf);
        ConcatAssoc(started, done, step);
        if error.Some? {
          FailurePersists(cs, values, i + 1, |cs|, pf);
          ConcatAssoc(old(consumer.events), [Event.StartMessage], Columns(cs, values, |cs|, pf).emitted);
          return;
        }
        i := i + 1;
      }
      consumer.Receive(Event.EndMessage);
      ConcatAssoc(old(consumer.events), [Event.StartMessage], Columns(cs, values, |cs|, pf).emitted);
      ConcatAssoc(old(consumer.events), [Event.StartMessage] + Columns(cs, values, |cs|, pf).emitted, [Event.EndMessage]);
      return None;
    }
  }

  /** The loop body of `write` for column `i`: nothing for an empty field, otherwise
      startField, then the type switch's add call and endField, or its exception. */
  method WriteField(consumer: EventLog, c: ColumnDescriptor, i: nat, val: string, pf: string -> bool)
    returns (error: Option<WriteError>)
    modifies consumer
    ensures consumer.events == old(consumer.events) + ColumnStep(c, i, val, pf).emitted
    ensures error == ColumnStep(c, i, val, pf).error
  {
    if |val| > 0 {
      consumer.Receive(StartField(c.name, i));
      // the type switch and its parse
      var call := ValueEvent(c.kind, i, val, pf);
      if call.Err? {
        return Some(call.error);
      }
      consumer.Receive(call.value);
      consumer.Receive(EndField(c.name, i));
    }
    return None;
  }

  lemma ConcatAssoc(a: seq<Event>, b: seq<Event>, c: seq<Event>)
    ensures a + b + c == a + (b + c)
  {
  }

  /** One more column adds its calls to those of the columns before it, when those did
      not fail. */
  lemma ColumnsSnoc(cols: seq<ColumnDescriptor>, values: seq<string>, i: nat, pf: string -> bool)
    requires i < |cols| == |values|
    requires Columns(cols, values, i, pf).error.None?
    ensures Columns(cols, values, i + 1, pf)
         == WriteOutcome(Columns(cols, values, i, pf).emitted + ColumnStep(cols[i], i, values[i], pf).emitted,
                         ColumnStep(cols[i], i, values[i], pf).error)
  {
  }

  // ----- what Encode promises -----

  /** Once a column failed, the later columns add nothing. */
  lemma {:induction false} FailurePersists(cols: seq<ColumnDescriptor>, values: seq<string>, n: nat, m: nat, pf: string -> bool)
    requires n <= m <= |cols| == |values|
    requires Columns(cols, values, n, pf).error.Some?
    ensures Columns(cols, values, m, pf) == Columns(cols, values, n, pf)
    decreases m - n
  {
    if n < m {
      FailurePersists(cols, values, n, m - 1, pf);
    }
  }

  /** Column failures are never field-count failures, and no column call is a message call. */
  lemma {:induction false} ColumnsShape(cols: seq<ColumnDescriptor>, values: seq<string>, n: nat, pf: string -> bool)
    requires n <= |cols| == |values|
    ensures var c := Columns(cols, values, n, pf);
      && (c.error.Some? ==> !c.error.value.FieldCountMismatch?)
      && (forall k :: 0 <= k < |c.emitted| ==> !c.emitted[k].StartMessage? && !c.emitted[k].EndMessage?)
  {
    if n > 0 {
      ColumnsShape(cols, values, n - 1, pf);
    }
  }

  /** A row is rejected for its field count exactly when the count differs from the
      schema's, and then no consumer call has been made. */
  lemma FieldCountRejection(cols: seq<ColumnDescriptor>, values: seq<string>, pf: string -> bool)
    ensures var w := Encode(cols, values, pf);
      (w.error.Some? && w.error.value.FieldCountMismatch?) <==> |values| != |cols|
    ensures |values| != |cols| ==> Encode(cols, values, pf).emitted == []
  {
    if |values| == |cols| {
      ColumnsShape(cols, values, |cols|, pf);
    }
  }

  /** A successful write is bracketed: startMessage first, endMessage last, and neither
      anywhere in between, so each occurs exactly once. */
  lemma WriteIsBracketed(cols: seq<ColumnDescriptor>, values: seq<string>, pf: string -> bool)
    requires Encode(cols, values, pf).error.None?
    ensures var e := Encode(cols, values, pf).emitted;
      && |e| >= 2 && e[0] == Event.StartMessage && e[|e| - 1] == Event.EndMessage
      && forall k :: 0 < k < |e| - 1 ==> e[k] != Event.StartMessage && e[k] != Event.EndMessage
  {
    ColumnsShape(cols, values, |cols|, pf);
    var body := Columns(cols, values, |cols|, pf).emitted;
    var e := Encode(cols, values, pf).emitted;
    assert forall k :: 0 < k < |e| - 1 ==> e[k] == body[k - 1];
  }

  /** A write that fails after the count check has started the record (startMessage is
      first), never ends it, and its last call is the startField of the failing
      column; the failing column is the first non-empty one whose value is rejected. */
  lemma WriteFailsInsideRecord(cols: seq<ColumnDescriptor>, values: seq<string>, pf: string -> bool)
    requires |values| == |cols|
    requires Encode(cols, values, pf).error.Some?
    ensures !Encode(cols, values, pf).error.value.FieldCountMismatch?
    ensures var w := Encode(cols, values, pf); var i := w.error.value.column;
      && i < |cols| && values[i] != ""
      && ValueEvent(cols[i].kind, i, values[i], pf) == Err(w.error.value)
      && (forall j :: 0 <= j < i ==> values[j] == "" || ValueEvent(cols[j].kind, j, values[j], pf).Ok?)
      && |w.emitted| >= 2 && w.emitted[0] == Event.StartMessage
      && w.emitted[|w.emitted| - 1] == StartField(cols[i].name, i)
      && Event.EndMessage !in w.emitted
  {
    ColumnsShape(cols, values, |cols|, pf);
    FirstFailure(cols, values, |cols|, pf);
  }

  /** The failing column of a failed prefix and what the calls look like. */
  lemma {:induction false} FirstFailure(cols: seq<ColumnDescriptor>, values: seq<string>, n: nat, pf: string -> bool)
    requires n <= |cols| == |values|
    requires Columns(cols, values, n, pf).error.Some?
    ensures var c := Columns(cols, values, n, pf); var err := c.error.value;
      && !err.FieldCountMismatch? && err.column < n && values[err.column] != ""
      && ValueEvent(cols[err.column].kind, err.column, values[err.column], pf) == Err(err)
      && (forall j :: 0 <= j < err.column ==> values[j] == "" || ValueEvent(cols[j].kind, j, values[j], pf).Ok?)
      && |c.emitted| >= 1 && c.emitted[|c.emitted| - 1] == StartField(cols[err.column].name, err.column)
  {
    var prev := Columns(cols, values, n - 1, pf);
    if prev.error.Some? {
      FirstFailure(cols, values, n - 1, pf);
    } else {
      NoFailureBefore(cols, values, n - 1, pf);
    }
  }

  /** In a prefix without failure every non-empty field was accepted. */
  lemma {:induction false} NoFailureBefore(cols: seq<ColumnDescriptor>, values: seq<string>, n: nat, pf: string -> bool)
    requires n <= |cols| == |values|
    requires Columns(cols, values, n, pf).error.None?
    ensures forall j :: 0 <= j < n ==> values[j] == "" || ValueEvent(cols[j].kind, j, values[j], pf).Ok?
  {
    if n > 0 {
      NoFailureBefore(cols, values, n - 1, pf);
    }
  }

  /** Each prefix of a failure-free run of columns extends the shorter ones. */
  lemma {:induction false} ColumnsGrow(cols: seq<ColumnDescriptor>, values: seq<string>, i: nat, n: nat, pf: string -> bool)
    requires i <= n <= |cols| == |values|
    requires Columns(cols, values, n, pf).error.None?
    ensures Columns(cols, values, i, pf).error.None?
    ensures Columns(cols, values, i, pf).emitted <= Columns(cols, values, n, pf).emitted
    decreases n - i
  {
    if i < n {
      ColumnsGrow(cols, values, i, n - 1, pf);
    }
  }

  /** The startField/endField calls of one column name that column, and only when its
      field is non-empty. */
  lemma StepMentions(c: ColumnDescriptor, i: nat, v: string, pf: string -> bool)
    ensures var step := ColumnStep(c, i, v, pf).emitted;
      forall k :: 0 <= k < |step| && (step[k].StartField? || step[k].EndField?) ==> step[k].index == i && v != ""
  {
    if |v| > 0 {
      var r := ValueEvent(c.kind, i, v, pf);
      if r.Ok? {
        assert !r.value.StartField? && !r.value.EndField? by {
          match c.kind
          case Int32 => {
          }
          case Int64 => {
          }
          case _ => {
          }
        }
      }
    }
  }

  /** Every startField/endField call in `c` names one of the first `n` columns, and one
      whose field is non-empty. */
  predicate MentionsOnlyNonEmpty(c: seq<Event>, values: seq<string>, n: nat)
    requires n <= |values|
  {
    forall k :: 0 <= k < |c| && (c[k].StartField? || c[k].EndField?) ==>
      c[k].index < n && values[c[k].index] != ""
  }

  /** Only non-empty fields of the columns processed get startField/endField calls. */
  lemma {:induction false} ColumnsMentionNonEmpty(cols: seq<ColumnDescriptor>, values: seq<string>, n: nat, pf: string -> bool)
    requires n <= |cols| == |values|
    ensures MentionsOnlyNonEmpty(Columns(cols, values, n, pf).emitted, values, n)
  {
    if n > 0 {
      ColumnsMentionNonEmpty(cols, values, n - 1, pf);
      var prev := Columns(cols, values, n - 1, pf).emitted;
      assert MentionsOnlyNonEmpty(prev, values, n - 1);
      if Columns(cols, values, n - 1, pf).error.None? {
        var step := ColumnStep(cols[n - 1], n - 1, values[n - 1], pf).emitted;
        StepMentions(cols[n - 1], n - 1, values[n - 1], pf);
        var c := Columns(cols, values, n, pf).emitted;
        assert c == prev + step;
        forall k | 0 <= k < |c| && (c[k].StartField? || c[k].EndField?)
          ensures c[k].index < n && values[c[k].index] != ""
        {
          if k < |prev| {
            assert c[k] == prev[k];
          } else {
            assert c[k] == step[k - |prev|];
          }
        }
      }
    }
  }

  /** After a successful write, the calls for a non-empty field `i` are startField, the
      add call `ValueEvent` gives, and endField, at the offset where column `i` starts. */
  lemma FieldCalls(cols: seq<ColumnDescriptor>, values: seq<string>, pf: string -> bool, i: nat)
    requires |values| == |cols| && i < |cols| && values[i] != ""
    requires Encode(cols, values, pf).error.None?
    ensures var e := Encode(cols, values, pf).emitted; var p := FieldOffset(cols, values, i, pf);
      && p + 3 <= |e|
      && e[p] == StartField(cols[i].name, i)
      && ValueEvent(cols[i].kind, i, values[i], pf).Ok?
      && e[p + 1] == ValueEvent(cols[i].kind, i, values[i], pf).value
      && e[p + 2] == EndField(cols[i].name, i)
  {
    ColumnsGrow(cols, values, i + 1, |cols|, pf);
    var before := Columns(cols, values, i, pf).emitted;
    var upto := Columns(cols, values, i + 1, pf).emitted;
    var all := Columns(cols, values, |cols|, pf).emitted;
    var e := Encode(cols, values, pf).emitted;
    var v := ValueEvent(cols[i].kind, i, values[i], pf);
    StepLayout(cols, values, i, pf);
    var p := 1 + |before|;
    assert e == [Event.StartMessage] + all + [Event.EndMessage];
    assert upto <= all;
    assert e[p] == upto[|before|] && e[p + 1] == upto[|before| + 1] && e[p + 2] == upto[|before| + 2];
  }

  /** A non-empty column that did not fail adds startField, its add call and endField. */
  lemma StepLayout(cols: seq<ColumnDescriptor>, values: seq<string>, i: nat, pf: string -> bool)
    requires i < |cols| == |values| && values[i] != ""
    requires Columns(cols, values, i + 1, pf).error.None?
    ensures ValueEvent(cols[i].kind, i, values[i], pf).Ok?
    ensures Columns(cols, values, i + 1, pf).emitted == Columns(cols, values, i, pf).emitted
      + [StartField(cols[i].name, i), ValueEvent(cols[i].kind, i, values[i], pf).value, EndField(cols[i].name, i)]
  {
  }

  /** Where the calls of column `i` start in a successful write. */
  function FieldOffset(cols: seq<ColumnDescriptor>, values: seq<string>, i: nat, pf: string -> bool): nat
    requires i <= |cols| == |values|
  {
    1 + |Columns(cols, values, i, pf).emitted|
  }

  /** Fields are written in increasing column order. */
  lemma FieldsInOrder(cols: seq<ColumnDescriptor>, values: seq<string>, pf: string -> bool, i: nat, j: nat)
    requires |values| == |cols| && i < j < |cols| && values[i] != ""
    requires Encode(cols, values, pf).error.None?
    ensures FieldOffset(cols, values, i, pf) + 3 <= FieldOffset(cols, values, j, pf)
  {
    ColumnsGrow(cols, values, j, |cols|, pf);
    ColumnsGrow(cols, values, i + 1, j, pf);
    StepLayout(cols, values, i, pf);
  }

  /** An empty field is NULL: after a successful write no startField or endField call
      names its column, while a non-empty field's column is named. */
  lemma EmptyFieldIsNull(cols: seq<ColumnDescriptor>, values: seq<string>, pf: string -> bool, i: nat)
    requires |values| == |cols| && i < |cols|
    requires Encode(cols, values, pf).error.None?
    ensures var e := Encode(cols, values, pf).emitted;
      values[i] == "" <==> forall k :: 0 <= k < |e| ==> !(e[k] == StartField(cols[i].name, i) || e[k] == EndField(cols[i].name, i))
  {
    var e := Encode(cols, values, pf).emitted;
    var body := Columns(cols, values, |cols|, pf).emitted;
    if values[i] == "" {
      ColumnsMentionNonEmpty(cols, values, |cols|, pf);
      assert MentionsOnlyNonEmpty(body, values, |cols|);
      assert e == [Event.StartMessage] + body + [Event.EndMessage];
      forall k | 0 <= k < |e|
        ensures !(e[k] == StartField(cols[i].name, i) || e[k] == EndField(cols[i].name, i))
      {
        if 0 < k < |e| - 1 {
          assert e[k] == body[k - 1];
        }
      }
    } else {
      FieldCalls(cols, values, pf, i);
    }
  }

  /** A schema of BOOLEAN and BINARY columns accepts every row of the right length:
      `Boolean.parseBoolean` and `Binary.fromString` never fail. */
  lemma TextualColumnsNeverFail(cols: seq<ColumnDescriptor>, values: seq<string>, pf: string -> bool)
    requires |values| == |cols|
    requires forall j :: 0 <= j < |cols| ==> cols[j].kind.Boolean? || cols[j].kind.Binary?
    ensures Encode(cols, values, pf).error.None?
  {
    if Encode(cols, values, pf).error.Some? {
      WriteFailsInsideRecord(cols, values, pf);
    }
  }
}
