/** The two asyncio primitives the token filter is handed by its caller:
    an unbounded queue that it only ever feeds with `put_nowait`, and an
    event that it only ever clears or sets.  Only the parts of their
    behaviour that the filter relies on are modelled. */
module Asyncio {

  /** An unbounded `asyncio.Queue`.  A consumer may take items out while
      producers run, so `items` is every item put so far, in the order it
      was put, not what is left in the queue. */
  class Queue<T> {
    var items: seq<T>

    constructor ()
      ensures items == []
    {
      items := [];
    }

    /** `put_nowait` on an unbounded queue never raises: it appends. */
    method PutNowait(item: T)
      modifies this
      ensures items == old(items) + [item]
    {
      items := items + [item];
    }
  }

  /** An `asyncio.Event`; `flag` is what `is_set()` reports. */
  class Event {
    var flag: bool

    constructor ()
      ensures !flag
    {
      flag := false;
    }

    method Set()
      modifies this
      ensures flag
    {
      flag := true;
    }

    method Clear()
      modifies this
      ensures !flag
    {
      flag := false;
    }
  }
}
