/** One call of the device's call log, and how a row of the call-log cursor becomes one. */
module CallLog {

  datatype CallType = Incoming | Outgoing | Missed

  /** A call: when it started (epoch milliseconds), the other party, its length in seconds
      and its direction. */
  datatype CallLogEntry = CallLogEntry(date: int, number: string, duration: int, callType: CallType)

  /** One cursor row of the projection (DATE, NUMBER, DURATION, TYPE). */
  datatype Row = Row(date: int, number: string, duration: int, typeCode: int)

  /** The platform's call-log type codes that the app distinguishes. */
  const INCOMING_TYPE: int := 1
  const OUTGOING_TYPE: int := 2
  const MISSED_TYPE: int := 3

  /** The direction of a type code: incoming and outgoing are recognised, everything else
      (missed, voicemail, rejected, blocked, unknown codes) is reported as missed. */
  function CallTypeOf(code: int): (t: CallType)
    ensures t == Incoming <==> code == INCOMING_TYPE
    ensures t == Outgoing <==> code == OUTGOING_TYPE
    ensures t == Missed <==> code != INCOMING_TYPE && code != OUTGOING_TYPE
  {
    if code == INCOMING_TYPE then Incoming
    else if code == OUTGOING_TYPE then Outgoing
    else Missed
  }

  /** The platform code of a direction. */
  function CodeOf(t: CallType): int
  {
    match t
    case Incoming => INCOMING_TYPE
    case Outgoing => OUTGOING_TYPE
    case Missed => MISSED_TYPE
  }

  /** Reading back the code of a direction gives the same direction. */
  lemma CallTypeOfCodeOf(t: CallType)
    ensures CallTypeOf(CodeOf(t)) == t
  {
  }

  /** The entry built from a cursor row: every field copied, the type code mapped. */
  function EntryOf(row: Row): (e: CallLogEntry)
    ensures e.date == row.date && e.number == row.number && e.duration == row.duration
    ensures e.callType == CallTypeOf(row.typeCode)
  {
    CallLogEntry(row.date, row.number, row.duration, CallTypeOf(row.typeCode))
  }

  function Duration(c: CallLogEntry): int
  {
    c.duration
  }

  /** The predicate "started at or after `anchor`". */
  function AtOrAfter(anchor: int): CallLogEntry -> bool
  {
    (c: CallLogEntry) => c.date >= anchor
  }
}
