/**
 What the transfer code shares with other tasks: the cancellation flag and the channel to the client.

 Both are driven from outside, so each carries a budget that is fixed in advance but unknown to the
 code: how many more checks of the flag answer false, and how many more messages the receiver takes.
 A contract that holds for every budget holds for every moment of cancellation or disconnection.
 */
module Environment {
  import opened Prelude

  class CancelFlag {
    /** The checks that still answer false. The flag is never lowered again once it was raised. */
    var checks: nat

    constructor (checks: nat)
      ensures this.checks == checks
    {
      this.checks := checks;
    }

    method IsCancelled() returns (cancelled: bool)
      modifies this
      ensures cancelled <==> old(checks) == 0
      ensures checks == if cancelled then 0 else old(checks) - 1
    {
      cancelled := checks == 0;
      if !cancelled {
        checks := checks - 1;
      }
    }
  }

  class Channel {
    var sent: seq<seq<byte>>
    /** The messages that the receiver still takes before it goes away. */
    var room: nat

    constructor (room: nat)
      ensures sent == [] && this.room == room
    {
      sent, this.room := [], room;
    }

    method Send(message: seq<byte>) returns (ok: bool)
      modifies this
      ensures ok <==> old(room) > 0
      ensures sent == if ok then old(sent) + [message] else old(sent)
      ensures room == if ok then old(room) - 1 else 0
    {
      ok := room > 0;
      if ok {
        sent, room := sent + [message], room - 1;
      }
    }
  }
}
