/** Values shared by the emitter and the benchmark: the event vocabulary of
    src/types.ts and the `Event` record of src/event.ts. */
module Types {

  datatype Option<T> = None | Some(value: T)

  /** A JavaScript number that may have overflowed to `Infinity`. */
  datatype Extended<T> = Finite(value: T) | Infinity

  /** `'abort' | 'complete' | 'cycle' | 'error' | 'reset' | 'start'` */
  datatype EventType = Abort | Complete | Cycle | Error | Reset | Start

  /** `1 | -1 | 0` */
  type CompareResult = r: int | -1 <= r <= 1

  /** A listener function, identified by an opaque id. */
  type Listener = nat

  /** What a listener returns; only an exact `false` cancels an event. */
  datatype Value = Undefined | Bool(b: bool) | Other(tag: int)

  /** The fields of an `Event`. `kind` is `type` in the source; `None` is an
      event whose `type` was never set. The targets are the emitter that
      dispatched it, or `null` before any dispatch. */
  datatype Event = Event(
    kind: Option<EventType>,
    aborted: bool,
    cancelled: bool,
    currentTarget: object?,
    target: object?,
    result: Value,
    timeStamp: int)

  /** An event of the given type, with both flags clear and no result. */
  function NewEvent(t: EventType): (e: Event)
    ensures e.kind == Some(t) && !e.aborted && !e.cancelled && e.result == Undefined
  {
    Event(Some(t), false, false, null, null, Undefined, 0)
  }

  /** `new Event(t)` as the constructor is written: its body is empty, so the
      argument is dropped and `type` stays undefined (the two flags read as
      falsy). */
  function EventAsWritten(t: EventType): (e: Event)
    ensures e.kind == None && !e.aborted && !e.cancelled
  {
    Event(None, false, false, null, null, Undefined, 0)
  }
}
