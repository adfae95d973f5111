/** The shutdown side of the client: `disconnect` shuts the socket down and,
    if that worked, sends `true` on the channel that the receiving loop polls
    at the top of every iteration. */
module Client {

  /** What `try_recv` gives the loop: a message, or nothing yet. */
  datatype TryRecvResult = Empty | Got(value: bool)

  /** `try_recv` on the queued messages: the oldest one, if any. */
  function TryRecv(queue: seq<bool>): (m: TryRecvResult)
    ensures m.Empty? <==> queue == []
    ensures m.Got? ==> m.value == queue[0]
  {
    if queue == [] then Empty else Got(queue[0])
  }

  /** The messages left after one `try_recv`. */
  function AfterRecv(queue: seq<bool>): (rest: seq<bool>)
    ensures queue == [] ==> rest == []
    ensures queue != [] ==> [queue[0]] + rest == queue
  {
    if queue == [] then [] else queue[1..]
  }

  /** The loop breaks exactly when `try_recv` hands it `true`. */
  predicate Stops(queue: seq<bool>)
  {
    TryRecv(queue) == Got(true)
  }

  /** Only `disconnect` sends, and it only ever sends `true`. */
  predicate OnlyTrue(queue: seq<bool>)
  {
    forall i :: 0 <= i < |queue| ==> queue[i]
  }

  /** The state `disconnect` and the loop share: the socket (shut down or
      not) and the channel's queued messages. */
  class Connection {
    var shutDown: bool
    var channel: seq<bool>

    constructor ()
      ensures !shutDown && channel == []
    {
      shutDown := false;
      channel := [];
    }

    /** `disconnect`: `shutdownOk` is the outcome of
        `socket.shutdown(Shutdown::Both)`. On success the socket is shut down,
        `true` is queued on the channel and the call returns `true`; on
        failure nothing changes and it returns `false`. */
    method Disconnect(shutdownOk: bool) returns (r: bool)
      modifies this
      ensures r == shutdownOk
      ensures shutDown == (old(shutDown) || shutdownOk)
      ensures channel == old(channel) + (if shutdownOk then [true] else [])
    {
      if shutdownOk {
        shutDown := true;
        channel := channel + [true];
        return true;
      } else {
        return false;
      }
    }

    /** The poll at the top of the loop: take at most one message and say
        whether the loop breaks. */
    method Poll() returns (stop: bool)
      modifies this
      ensures stop == Stops(old(channel))
      ensures channel == AfterRecv(old(channel))
      ensures shutDown == old(shutDown)
    {
      if channel != [] {
        stop := channel[0];
        channel := channel[1..];
      } else {
        stop := false;
      }
    }
  }

  /** A queue holding only `true` stops the loop at the next poll exactly
      when it holds a message at all. */
  lemma StopsIffQueued(queue: seq<bool>)
    requires OnlyTrue(queue)
    ensures Stops(queue) <==> queue != []
  {
  }

  /** A `disconnect` keeps the channel holding only `true`, whatever the
      shutdown returned. */
  lemma DisconnectKeepsOnlyTrue(queue: seq<bool>, shutdownOk: bool)
    requires OnlyTrue(queue)
    ensures OnlyTrue(queue + (if shutdownOk then [true] else []))
  {
  }

  /** After a successful `disconnect` the next poll of the loop breaks it,
      and a failed one leaves an empty channel empty: the loop goes on. */
  lemma DisconnectStopsNextPoll(queue: seq<bool>, shutdownOk: bool)
    requires OnlyTrue(queue)
    ensures Stops(queue + (if shutdownOk then [true] else [])) <==> shutdownOk || queue != []
  {
    DisconnectKeepsOnlyTrue(queue, shutdownOk);
    StopsIffQueued(queue + (if shutdownOk then [true] else []));
  }
}
