/**
 The receive buffer of src/runtime/network/message_handler.c: bytes are appended, complete
 frames are taken off the front, and the rest is moved down.
 */
module MessageHandler {
  import opened Basics
  import opened FrameStream

  class Receiver {
    const rxBuffer: array<Byte>
    var rxLen: nat
    var routed: seq<Message>   // handed to the router so far

    ghost predicate Valid()
      reads this, rxBuffer
    {
      rxBuffer.Length == RX_SIZE && rxLen <= RX_SIZE
    }

    ghost function Waiting(): seq<Byte>
      reads this, rxBuffer
      requires Valid()
    {
      rxBuffer[..rxLen]
    }

    constructor ()
      ensures Valid() && fresh(rxBuffer) && Waiting() == [] && routed == []
    {
      rxBuffer := new Byte[RX_SIZE](_ => 0);
      rxLen, routed := 0, [];
    }

    method HandleResponse(data: seq<Byte>)
      requires Valid()
      modifies this, rxBuffer
      ensures Valid()
      ensures routed == old(routed) + Handle(old(Waiting()), data).0
      ensures Waiting() == Handle(old(Waiting()), data).1
    {
      if |data| == 0 { return; }
      if rxLen + |data| > RX_SIZE {
        rxLen := 0;
        return;
      }
      forall i | 0 <= i < |data| { rxBuffer[rxLen + i] := data[i]; }
      rxLen := rxLen + |data|;
      assert Waiting() == old(Waiting()) + data;
      ProcessRxBuffer();
    }

    method ProcessRxBuffer()
      requires Valid()
      modifies this, rxBuffer
      ensures Valid()
      ensures routed == old(routed) + Parse(old(Waiting())).0
      ensures Waiting() == Parse(old(Waiting())).1
    {
      ghost var all := Waiting();
      var processed := 0;
      var waiting := false;
      assert all[0..] == all;
      while rxLen - processed >= 4 && !waiting
        invariant 0 <= processed <= rxLen == old(rxLen) && Valid()
        invariant Waiting() == all
        invariant Parse(all).1 == Parse(all[processed..]).1
        invariant old(routed) + Parse(all).0 == routed + Parse(all[processed..]).0
        invariant waiting ==> Undecided(all[processed..])
        decreases rxLen - processed, !waiting
      {
        processed, waiting := Examine(processed);
      }
      assert Undecided(all[processed..]);
      Discard(processed);
    }

    /** One turn of the loop: a frame is routed, an incomplete one waited for, any other byte passed over. */
    method Examine(processed: nat) returns (next: nat, waiting: bool)
      requires Valid() && processed + 4 <= rxLen
      modifies this`routed
      ensures processed <= next <= rxLen && (waiting <==> next == processed)
      ensures waiting ==> Undecided(Waiting()[processed..])
      ensures Parse(Waiting()[processed..]).1 == Parse(Waiting()[next..]).1
      ensures old(routed) + Parse(Waiting()[processed..]).0 == routed + Parse(Waiting()[next..]).0
    {
      ghost var s := Waiting()[processed..];
      TurnParses(s);
      var turn := Decide(processed);
      match turn
      case Wait => next, waiting := processed, true;
      case Skip =>
        next, waiting := processed + 1, false;
        Dropped(Waiting(), processed, 1);
      case Take =>
        HandOver(routed, s[2..Named(s) + 2], Parse(s[Named(s) + 4..]).0);
        waiting := false;
        next := Route(processed);
    }

    /** Hands the frame at `processed` to the router and moves behind it. */
    method Route(processed: nat) returns (next: nat)
      requires Valid() && processed + 4 <= rxLen && FrameAhead(Waiting()[processed..])
      modifies this`routed
      ensures
        var s := Waiting()[processed..];
        && routed == old(routed) + [s[2..Named(s) + 2]]
        && processed < next <= rxLen && Waiting()[next..] == s[Named(s) + 4..]
    {
      assert Waiting()[processed..][1] == rxBuffer[processed + 1];
      var msgLen: int := rxBuffer[processed + 1];
      Sliced(rxBuffer[..], rxLen, processed, 2, msgLen + 2);
      Dropped(Waiting(), processed, msgLen + 4);
      routed := routed + [rxBuffer[..][processed + 2..processed + msgLen + 2]];
      next := processed + msgLen + 4;
    }

    /** The tests of the loop, which change nothing. */
    method Decide(processed: nat) returns (turn: Turn)
      requires Valid() && processed + 4 <= rxLen
      ensures turn == TurnOf(Waiting()[processed..])
    {
      ghost var s := Waiting()[processed..];
      assert s[0] == rxBuffer[processed] && s[1] == rxBuffer[processed + 1];
      if rxBuffer[processed] != START { return Skip; }
      var msgLen: int := rxBuffer[processed + 1];
      if rxLen - processed < msgLen + 4 { return Wait; }
      Sliced(rxBuffer[..], rxLen, processed, 0, msgLen + 2);
      var checksum := Checksum(processed, msgLen + 2);
      assert s[msgLen + 2] == rxBuffer[processed + msgLen + 2];
      turn := if checksum == rxBuffer[processed + msgLen + 2] then Take else Skip;
    }

    method Checksum(from: nat, length: nat) returns (sum: Byte)
      requires from + length <= rxBuffer.Length
      ensures sum == Sum(rxBuffer[from..from + length])
    {
      sum := 0;
      ghost var s := rxBuffer[from..from + length];
      for i := 0 to length
        invariant sum == Sum(s[..i])
      {
        SumAppend(s[..i], s[i]);
        assert s[..i + 1] == s[..i] + [s[i]];
        var a: int, b: int := sum, rxBuffer[from + i];
        sum := (a + b) % 256;
      }
      assert s[..length] == s;
    }

    /** The memmove at the end of the pass. */
    method Discard(processed: nat)
      requires Valid() && processed <= rxLen
      modifies this`rxLen, rxBuffer
      ensures Valid() && Waiting() == old(Waiting())[processed..]
    {
      if processed > 0 {
        if processed < rxLen {
          forall i | 0 <= i < rxLen - processed { rxBuffer[i] := rxBuffer[processed + i]; }
          rxLen := rxLen - processed;
        } else {
          rxLen := 0;
        }
      }
    }
  }

  /** A slice of the buffer, seen from the bytes that wait from `at` on. */
  lemma Sliced(buffer: seq<Byte>, length: nat, at: nat, from: nat, to: nat)
    requires from <= to && at + to <= length <= |buffer|
    ensures buffer[at + from..at + to] == buffer[..length][at..][from..to]
  {
    var slice, waiting := buffer[at + from..at + to], buffer[..length][at..];
    assert |slice| == |waiting[from..to]|;
    forall i | 0 <= i < |slice|
      ensures slice[i] == waiting[from..to][i]
    {
      assert slice[i] == buffer[at + from + i] == waiting[from + i];
    }
  }

  lemma Dropped(s: seq<Byte>, at: nat, n: nat)
    requires at + n <= |s|
    ensures s[at..][n..] == s[at + n..]
  {
  }

  lemma HandOver(routed: seq<Message>, m: Message, rest: seq<Message>)
    ensures routed + ([m] + rest) == (routed + [m]) + rest
  {
  }
}
