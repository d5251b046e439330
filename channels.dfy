/** A Kotlin coroutine `Channel` as the analyzers use it: many senders, one receiver, values
    delivered in the order they were sent. Concurrency is abstracted away: `pending` holds the
    values whose senders have completed their `send`, oldest first. */
module Channels {
  import opened Wrappers

  class Channel<T> {
    var pending: seq<T>
    var closed: bool

    constructor ()
      ensures pending == [] && !closed
    {
      pending := [];
      closed := false;
    }

    /** A send on a closed channel throws in Kotlin; the analyzers never do it. */
    method Send(x: T)
      requires !closed
      modifies this
      ensures pending == old(pending) + [x] && !closed
    {
      pending := pending + [x];
    }

    /** Receives the oldest pending value. `None` stands for a receive that can never complete
        because no sender is left; in the analyzers this happens only once their scope has been
        cancelled, which makes `receive` throw. */
    method Receive() returns (x: Option<T>)
      modifies this
      ensures old(pending) == [] ==> x.None? && pending == []
      ensures old(pending) != [] ==> x == Some(old(pending)[0]) && pending == old(pending)[1..]
      ensures closed == old(closed)
    {
      if pending == [] {
        x := None;
      } else {
        x := Some(pending[0]);
        pending := pending[1..];
      }
    }

    method Close()
      modifies this
      ensures closed && pending == old(pending)
    {
      closed := true;
    }
  }
}
