/** One elevator's command channel: an unbounded FIFO queue written by the
    dispatcher and drained by the worker. Only its ordering is modelled. */
module Channels {
  import opened Common

  class Channel {
    /** The commands sent and not yet received, oldest first. */
    var queue: seq<Command>

    constructor ()
      ensures queue == []
    {
      queue := [];
    }

    /** `sender.send(cmd)`: the command joins the back of the queue. */
    method Send(cmd: Command)
      modifies this
      ensures queue == old(queue) + [cmd]
    {
      queue := queue + [cmd];
    }

    /** `receiver.try_recv()`: the oldest queued command, or nothing when the
        queue is empty; it never waits. */
    method TryRecv() returns (cmd: Option<Command>)
      modifies this
      ensures old(queue) == [] ==> cmd == None && queue == []
      ensures old(queue) != [] ==> cmd == Some(old(queue)[0]) && queue == old(queue)[1..]
    {
      if queue == [] {
        cmd := None;
      } else {
        cmd := Some(queue[0]);
        queue := queue[1..];
      }
    }
  }
}
