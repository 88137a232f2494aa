/** The data of the browser client's page and how its two message
    listeners update it. */
module Client {
  import opened Lists
  import opened Records

  /** `(item) => item.isActive === false` */
  predicate IsStopped(r: Row) { !r.timer.isActive }

  /** The stopped timers of an `all_timers` message, exactly and in message order. */
  function StoppedRows(rows: seq<Row>): (r: seq<Row>)
    ensures forall x :: x in r <==> x in rows && !x.timer.isActive
  {
    Filter(rows, IsStopped)
  }

  /** The filter keeps the order of the message: it acts piecewise on any
      split of the message. */
  lemma StoppedRowsInOrder(a: seq<Row>, b: seq<Row>)
    ensures StoppedRows(a + b) == StoppedRows(a) + StoppedRows(b)
  {
    FilterAppend(a, b, IsStopped);
  }

  /** The page's reactive data (`activeTimers`, `oldTimers`). */
  class TimerBoard {
    var activeTimers: seq<Row>
    var oldTimers: seq<Row>

    constructor ()
      ensures activeTimers == [] && oldTimers == []
    {
      activeTimers, oldTimers := [], [];
    }

    /** The listener of public/main.js:123-135: an `all_timers` message replaces
        `oldTimers` by its stopped timers; any other message changes nothing. */
    method OnHistoryMessage(msg: Message)
      modifies this
      ensures activeTimers == old(activeTimers)
      ensures oldTimers == if msg.AllTimers? then StoppedRows(msg.rows) else old(oldTimers)
    {
      if msg.AllTimers? {
        oldTimers := StoppedRows(msg.rows);
      }
    }

    /** The listener of public/main.js:151-161: an `active_timers` message replaces
        `activeTimers` wholesale; `oldTimers` is never touched. */
    method OnTickMessage(msg: Message)
      modifies this
      ensures oldTimers == old(oldTimers)
      ensures activeTimers == if msg.ActiveTimers? then msg.rows else old(activeTimers)
    {
      if msg.ActiveTimers? {
        activeTimers := msg.rows;
      }
    }
  }
}
