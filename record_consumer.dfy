/** The Parquet library's RecordConsumer, which a WriteSupport drives with calls that
    bracket one record and its fields. The library is not part of this model: the
    consumer is the append-only log of the calls it received. */
module RecordConsumer {

  /** One call on the consumer. Floating-point values are carried as the field text they
      were parsed from, binary values as the string handed to `Binary.fromString`. */
  datatype Event =
    | StartMessage
    | EndMessage
    | StartField(field: string, index: nat)
    | EndField(field: string, index: nat)
    | AddBoolean(boolValue: bool)
    | AddInteger(intValue: int)
    | AddLong(longValue: int)
    | AddFloat(floatText: string)
    | AddDouble(doubleText: string)
    | AddBinary(binaryText: string)

  class EventLog {
    var events: seq<Event>

    constructor ()
      ensures events == []
    {
      events := [];
    }

    /** Appends one call to the log. */
    method Receive(e: Event)
      modifies this
      ensures events == old(events) + [e]
    {
      events := events + [e];
    }
  }
}
