/**
 The transmit side of src/runtime/network/network_handler.c: diagnostic responses are framed
 and wait in a ring of 16 slots, one of which always stays empty.
 */
module NetworkHandler {
  import opened Basics
  import opened FrameStream

  const QUEUE_SIZE: nat := 16

  class Transmitter {
    const txQueue: array<seq<Byte>>
    var txHead: nat
    var txTail: nat
    ghost var pending: seq<seq<Byte>>   // the queued frames, oldest first

    ghost predicate Valid()
      reads this, txQueue
    {
      && txQueue.Length == QUEUE_SIZE && txTail < QUEUE_SIZE
      && |pending| < QUEUE_SIZE && txHead == (txTail + |pending|) % QUEUE_SIZE
      && forall i :: 0 <= i < |pending| ==> txQueue[(txTail + i) % QUEUE_SIZE] == pending[i]
    }

    constructor ()
      ensures Valid() && fresh(txQueue) && pending == []
    {
      txQueue := new seq<Byte>[QUEUE_SIZE](_ => []);
      txHead, txTail, pending := 0, 0, [];
    }

    /** NetworkHandler_Send: refused when 15 frames wait, cut at 255 bytes. */
    method Send(data: seq<Byte>) returns (ok: bool)
      requires Valid()
      modifies this, txQueue
      ensures Valid() && ok == (data != [] && |old(pending)| < 15)
      ensures pending == old(pending) +
        (if !ok then [] else if |data| > MAX_SEND then [data[..MAX_SEND]] else [data])
    {
      if |data| == 0 { return false; }
      if (txHead + 1) % QUEUE_SIZE == txTail { return false; }
      var frame := if |data| > MAX_SEND then data[..MAX_SEND] else data;
      txQueue[txHead] := frame;
      txHead := (txHead + 1) % QUEUE_SIZE;
      pending := pending + [frame];
      return true;
    }

    /** send_diagnostic_response; its local buffer of 270 bytes bounds the payload. */
    method SendDiagnosticResponse(data: Message) returns (ok: bool)
      requires Valid() && |data| + 4 <= 270
      modifies this, txQueue
      ensures Valid() && ok == (|old(pending)| < 15)
      ensures pending == old(pending) + if ok then [Printed(data)] else []
    {
      var buffer := new Byte[270](_ => 0);
      buffer[0] := START;
      buffer[1] := |data| % 256;
      forall i | 0 <= i < |data| { buffer[2 + i] := data[i]; }
      ghost var body := buffer[..|data| + 2];
      assert body == [START, |data| % 256] + data;
      var n := (|data| + 2) % 256;
      assert buffer[..n] == body[..n];
      var sum := CalcChecksum(buffer, n);
      buffer[|data| + 2] := sum;
      buffer[|data| + 3] := END;
      assert buffer[..|data| + 4] == Framed(data);
      ok := Send(buffer[..|data| + 4]);
    }

    /** The sending step of NetworkHandler_Process; `accepted` is the answer of the CAN driver. */
    method Process(due: bool, accepted: bool) returns (sent: seq<seq<Byte>>)
      requires Valid()
      modifies this
      ensures Valid() && old(pending) == sent + pending
      ensures |sent| == if due && accepted && old(pending) != [] then 1 else 0
    {
      sent := [];
      if txHead != txTail && due {
        if accepted {
          sent := [txQueue[txTail]];
          txTail := (txTail + 1) % QUEUE_SIZE;
          pending := pending[1..];
        }
      }
    }
  }

  method CalcChecksum(data: array<Byte>, length: nat) returns (sum: Byte)
    requires length <= data.Length
    ensures sum == Sum(data[..length])
  {
    sum := 0;
    for i := 0 to length
      invariant sum == Sum(data[..i])
    {
      SumAppend(data[..i], data[i]);
      assert data[..i + 1] == data[..i] + [data[i]];
      var a: int, b: int := sum, data[i];
      sum := (a + b) % 256;
    }
  }
}
