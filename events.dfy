/** The parts of a data-acquisition event that the collectors look at, and
    the connections events arrive on. Events are values here: a collector
    keeps them in its queues and hands them on unchanged. */
module Events {
  import opened Bytes

  type Word64 = x: int | 0 <= x < 0x1_0000_0000_0000_0000

  datatype Option<T> = None | Some(value: T)

  /** A producer connection. Connections are told apart by handle; the
      name is what a producer calls itself. */
  datatype Connection = Connection(handle: nat, name: string)

  /** Trigger number, begin and end time stamps, the begin-of-run flag, the
      trigger flag, and the numeric tags the event carries. */
  datatype Event = Event(
    triggerN: Word32,
    tsBegin: Word64,
    tsEnd: Word64,
    bore: bool,
    flagTrigger: bool,
    tags: map<string, Word64>)

  /** The value of a tag, or the default when the event has no such tag. */
  function GetTag(ev: Event, name: string, default: Word64): (v: Word64)
    ensures v == default || (name in ev.tags && v == ev.tags[name])
    ensures name !in ev.tags ==> v == default
  {
    if name in ev.tags then ev.tags[name] else default
  }
}
