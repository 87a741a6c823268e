/**
 src/runtime/diagnostic/diag_transport.c: the receiver, which reassembles transport frames
 into requests and starts over on every sequence error, the sender of responses, which waits
 for flow control, and the error code they share. `DiagDelivery` says what the receiver
 delivers when frames are lost, repeated, reordered or mixed.
 */
module DiagTransport {
  import opened Basics
  import opened IsoTpFrames

  const BUFFER_SIZE: nat := 4096
  const U16: int := 0x1_0000
  const U8: int := 0x100

  // ----- The receiver

  /** The reception state, and how many flow-control frames were sent. */
  datatype Rx = Rx(
    receiving: bool,
    buffer: seq<Byte>,
    index: nat,
    expected: nat,
    sequence: nat,
    blockCounter: nat,
    flowControls: nat)

  ghost predicate RxValid(rx: Rx) {
    && |rx.buffer| == BUFFER_SIZE
    && rx.expected <= MAX_PAYLOAD && rx.sequence < 16 && rx.blockCounter < U8
    && (rx.receiving ==> rx.index == 6 || 6 < rx.index < rx.expected)
  }

  function Reset(rx: Rx): Rx {
    rx.(receiving := false, index := 0, expected := 0, sequence := 0, blockCounter := 0)
  }

  /** How many bytes of a consecutive frame are copied; the difference is 16-bit unsigned. */
  function CopyLength(rx: Rx): nat {
    Min((rx.expected - rx.index) % U16, 7)
  }

  /** What one frame does to the reception state, and the request it completes. */
  function Step(rx: Rx, f: CanFrame, blockSize: nat): (r: (Rx, seq<Message>))
    requires RxValid(rx)
    ensures RxValid(r.0)
  {
    if f.dlc == 0 then (rx, [])
    else match FrameType(f)
      case 0 =>
        if 0 < LowNibble(f) <= 7 then (rx, [f.data[1..1 + LowNibble(f)]]) else (rx, [])
      case 1 => (
        rx.(receiving := true, buffer := Overwrite(rx.buffer, 0, f.data[2..8]), index := 6,
            expected := TotalLength(f), sequence := 1, flowControls := rx.flowControls + 1),
        [])
      case 2 => if Rejects(rx, f) then (Reset(rx), []) else Accept(rx, f, blockSize)
      case _ => (rx, [])
  }

  predicate Rejects(rx: Rx, f: CanFrame) { !rx.receiving || LowNibble(f) != rx.sequence }

  function Accept(rx: Rx, f: CanFrame, blockSize: nat): (r: (Rx, seq<Message>))
    requires RxValid(rx) && rx.receiving
    ensures RxValid(r.0)
  {
    var n := CopyLength(rx);
    Advance(rx.(buffer := Overwrite(rx.buffer, rx.index, f.data[1..1 + n]), index := rx.index + n), blockSize)
  }

  /** After the bytes of an accepted frame are in: the message is complete, or the next frame is due. */
  function Advance(rx: Rx, blockSize: nat): (r: (Rx, seq<Message>))
    requires |rx.buffer| == BUFFER_SIZE && rx.expected <= MAX_PAYLOAD && rx.sequence < 16 && 6 <= rx.index
    ensures RxValid(r.0)
  {
    if rx.expected <= rx.index then (Reset(rx), [rx.buffer[..rx.expected]])
    else
      var counter := (rx.blockCounter + 1) % U8;
      var full := blockSize <= counter;
      (rx.(sequence := (rx.sequence + 1) % 16,
           blockCounter := if full then 0 else counter,
           flowControls := rx.flowControls + if full then 1 else 0),
       [])
  }

  ghost function Run(rx: Rx, fs: seq<CanFrame>, blockSize: nat): (r: (Rx, seq<Message>))
    requires RxValid(rx)
    ensures RxValid(r.0)
    decreases |fs|
  {
    if fs == [] then (rx, [])
    else
      var (next, out) := Step(rx, fs[0], blockSize);
      var (last, rest) := Run(next, fs[1..], blockSize);
      (last, out + rest)
  }

  lemma {:induction false} RunConcat(rx: Rx, fs: seq<CanFrame>, gs: seq<CanFrame>, blockSize: nat)
    requires RxValid(rx)
    ensures
      var (mid, out) := Run(rx, fs, blockSize);
      var (last, rest) := Run(mid, gs, blockSize);
      Run(rx, fs + gs, blockSize) == (last, out + rest)
    decreases |fs|
  {
    if fs == [] {
      assert fs + gs == gs;
      assert [] + Run(rx, gs, blockSize).1 == Run(rx, gs, blockSize).1;
    } else {
      assert (fs + gs)[0] == fs[0] && (fs + gs)[1..] == fs[1..] + gs;
      var (next, out) := Step(rx, fs[0], blockSize);
      RunConcat(next, fs[1..], gs, blockSize);
      var (mid, out') := Run(next, fs[1..], blockSize);
      assert out + (out' + Run(mid, gs, blockSize).1) == (out + out') + Run(mid, gs, blockSize).1;
    }
  }

  // ----- The sender and the error code

  datatype Error = NoError | SequenceError | OverflowError | BusyError

  /** The sender is idle, waits for flow control, or may send. Nothing sends the remaining frames. */
  datatype Phase = Idle | Waiting | Sending

  datatype Tx = Tx(phase: Phase, length: nat)

  const QUIET := Tx(Idle, 0)

  datatype Station = Station(rx: Rx, tx: Tx, lastError: Error)

  /** What the UDS handler answers to a request: a response of some length, or a refusal sent elsewhere. */
  datatype Reply = Positive(length: nat) | Negative

  /** A frame arrives, with the answer to the request it may complete; or a call of the interface. */
  datatype Event = Arrive(f: CanFrame, reply: Reply) | Send(length: nat) | Abort

  /** Diag_Transport_SendResponse */
  function SendResponse(s: Station, length: nat): (Station, bool) {
    if length == 0 then (s, false)
    else if s.tx.phase != Idle then (s.(lastError := BusyError), false)
    else if length <= 7 then (s, true)
    else (s.(tx := Tx(Waiting, length)), true)
  }

  function Respond(s: Station, reply: Reply): Station {
    if reply.Positive? then SendResponse(s, reply.length).0 else s
  }

  /** A flow-control frame; it counts only while one is waited for. */
  function FlowControl(s: Station, f: CanFrame): Station {
    if s.tx.phase != Waiting then s
    else match LowNibble(f)
      case 0 => s.(tx := s.tx.(phase := Sending))
      case 2 => s.(tx := QUIET, lastError := OverflowError)
      case _ => s
  }

  /** Diag_Transport_ProcessReceived: a complete multi-frame request is answered before the reset. */
  function Handle(s: Station, f: CanFrame, reply: Reply, blockSize: nat): (Station, seq<Message>)
    requires RxValid(s.rx)
  {
    var (rx, out) := Step(s.rx, f, blockSize);
    if f.dlc == 0 then (s, [])
    else match FrameType(f)
      case 0 => (if out == [] then s else Respond(s, reply), out)
      case 2 =>
        if Rejects(s.rx, f) then (s.(rx := rx, lastError := NoError), [])
        else if out == [] then (s.(rx := rx), [])
        else (Respond(s, reply).(rx := rx, lastError := NoError), out)
      case 3 => (FlowControl(s, f), [])
      case _ => (s.(rx := rx), out)
  }

  function On(s: Station, e: Event, blockSize: nat): (Station, seq<Message>)
    requires RxValid(s.rx)
  {
    match e
    case Arrive(f, reply) => Handle(s, f, reply, blockSize)
    case Send(length) => (SendResponse(s, length).0, [])
    case Abort => (s.(tx := QUIET), [])
  }

  /** Whatever the sender does, the receiver does what `Step` says. */
  lemma ReceiverIsStep(s: Station, e: Event, blockSize: nat)
    requires RxValid(s.rx)
    ensures
      var (s', out) := On(s, e, blockSize);
      (s'.rx, out) == if e.Arrive? then Step(s.rx, e.f, blockSize) else (s.rx, [])
  {
  }

  ghost function RunOn(s: Station, es: seq<Event>, blockSize: nat): (r: (Station, seq<Message>))
    requires RxValid(s.rx)
    ensures RxValid(r.0.rx)
    decreases |es|
  {
    if es == [] then (s, [])
    else
      ReceiverIsStep(s, es[0], blockSize);
      var (next, out) := On(s, es[0], blockSize);
      var (last, rest) := RunOn(next, es[1..], blockSize);
      (last, out + rest)
  }

  /** The frames that arrive. */
  function FramesIn(es: seq<Event>): seq<CanFrame> {
    if es == [] then [] else (if es[0].Arrive? then [es[0].f] else []) + FramesIn(es[1..])
  }

  /** Over every run the requests are those of the receiver alone. */
  lemma {:induction false} RunIsReceiverRun(s: Station, es: seq<Event>, blockSize: nat)
    requires RxValid(s.rx)
    ensures
      var (last, out) := RunOn(s, es, blockSize);
      (last.rx, out) == Run(s.rx, FramesIn(es), blockSize)
    decreases |es|
  {
    if es != [] {
      ReceiverIsStep(s, es[0], blockSize);
      var (next, out) := On(s, es[0], blockSize);
      RunIsReceiverRun(next, es[1..], blockSize);
      var fs := FramesIn(es);
      if es[0].Arrive? {
        assert fs[0] == es[0].f && fs[1..] == FramesIn(es[1..]);
      } else {
        assert fs == FramesIn(es[1..]);
        assert [] + RunOn(next, es[1..], blockSize).1 == RunOn(next, es[1..], blockSize).1;
      }
    }
  }

  // ----- Which error is visible

  /** What an event does to the error code. */
  datatype Mark = Untouched | Cleared | Refused | Overflowed

  predicate Busy(s: Station) { s.tx.phase != Idle }

  /**
   Cleared by a consecutive frame that is rejected or completes a request, even if the answer to
   it was refused; set when a single-frame request or a call meets a busy sender, or when the
   peer reports an overflow that was waited for.
   */
  ghost function MarkOf(s: Station, e: Event, blockSize: nat): Mark
    requires RxValid(s.rx)
  {
    match e
    case Send(length) => if 0 < length && Busy(s) then Refused else Untouched
    case Abort => Untouched
    case Arrive(f, reply) =>
      if f.dlc == 0 then Untouched
      else if FrameType(f) == 2 then
        if Rejects(s.rx, f) || Step(s.rx, f, blockSize).1 != [] then Cleared else Untouched
      else if FrameType(f) == 3 then
        if s.tx.phase == Waiting && LowNibble(f) == 2 then Overflowed else Untouched
      else if Step(s.rx, f, blockSize).1 != [] && reply.Positive? && 0 < reply.length && Busy(s) then Refused
      else Untouched
  }

  ghost function Marks(s: Station, es: seq<Event>, blockSize: nat): seq<Mark>
    requires RxValid(s.rx)
    decreases |es|
  {
    if es == [] then []
    else
      ReceiverIsStep(s, es[0], blockSize);
      [MarkOf(s, es[0], blockSize)] + Marks(On(s, es[0], blockSize).0, es[1..], blockSize)
  }

  function ErrorOf(mark: Mark): Error
    requires !mark.Untouched?
  {
    match mark case Cleared => NoError case Refused => BusyError case Overflowed => OverflowError
  }

  lemma MarkDecides(s: Station, e: Event, blockSize: nat)
    requires RxValid(s.rx)
    ensures
      var mark := MarkOf(s, e, blockSize);
      On(s, e, blockSize).0.lastError == if mark.Untouched? then s.lastError else ErrorOf(mark)
  {
  }

  /** Nothing from index `j` on touches the error. */
  ghost predicate QuietFrom(marks: seq<Mark>, j: nat) {
    forall l :: j <= l < |marks| ==> marks[l].Untouched?
  }

  /** `last` is what the last event to touch the error left, or the error before if none did. */
  ghost predicate Decided(before: Error, marks: seq<Mark>, last: Error) {
    && (QuietFrom(marks, 0) ==> last == before)
    && forall j: nat :: j < |marks| && !marks[j].Untouched? && QuietFrom(marks, j + 1) ==> last == ErrorOf(marks[j])
  }

  /** Every run ends with the error of the last event to touch it; a sequence error is never visible. */
  lemma {:induction false} LastMarkDecides(s: Station, es: seq<Event>, blockSize: nat)
    requires RxValid(s.rx)
    ensures Decided(s.lastError, Marks(s, es, blockSize), RunOn(s, es, blockSize).0.lastError)
    ensures s.lastError != SequenceError ==> RunOn(s, es, blockSize).0.lastError != SequenceError
    decreases |es|
  {
    if es != [] {
      ReceiverIsStep(s, es[0], blockSize);
      MarkDecides(s, es[0], blockSize);
      var next := On(s, es[0], blockSize).0;
      LastMarkDecides(next, es[1..], blockSize);
      DecidedFirst(s.lastError, MarkOf(s, es[0], blockSize), Marks(next, es[1..], blockSize),
                   RunOn(s, es, blockSize).0.lastError);
    }
  }

  lemma DecidedFirst(before: Error, first: Mark, rest: seq<Mark>, last: Error)
    requires Decided(if first.Untouched? then before else ErrorOf(first), rest, last)
    ensures Decided(before, [first] + rest, last)
  {
    var marks := [first] + rest;
    assert forall l :: 0 <= l < |rest| ==> rest[l] == marks[l + 1];
    forall j: nat | QuietFrom(marks, j)
      ensures QuietFrom(rest, if j == 0 then 0 else j - 1)
      ensures j == 0 ==> first.Untouched?
    {
      assert j == 0 ==> marks[0].Untouched?;
    }
    forall j: nat | j < |marks| && !marks[j].Untouched? && QuietFrom(marks, j + 1)
      ensures last == ErrorOf(marks[j])
    {
      if j > 0 {
        assert marks[j] == rest[j - 1];
        assert QuietFrom(rest, j);
      }
    }
  }

  /** Two requests, the first answered at length, leave the code of a busy sender. */
  lemma BusyErrorSurvives(s: Station, f: CanFrame, length: nat, blockSize: nat)
    requires RxValid(s.rx) && !Busy(s) && f.dlc != 0 && FrameType(f) == 0 && 0 < LowNibble(f) <= 7 && 7 < length
    ensures RunOn(s, [Arrive(f, Positive(length)), Arrive(f, Positive(length))], blockSize).0.lastError == BusyError
  {
    var e := Arrive(f, Positive(length));
    var next := On(s, e, blockSize).0;
    assert [e, e][1..] == [e] && [e][1..] == [];
    assert RunOn(next, [e], blockSize).0 == On(next, e, blockSize).0;
  }

  /**
   A multi-frame response that was allowed to continue is never finished: until an abort the
   sender stays busy, and every further response is refused.
   */
  lemma {:induction false} NeverIdleAgain(s: Station, es: seq<Event>, blockSize: nat, length: nat)
    requires RxValid(s.rx) && s.tx.phase == Sending && Abort !in es && 0 < length
    ensures RunOn(s, es, blockSize).0.tx == s.tx
    ensures !SendResponse(RunOn(s, es, blockSize).0, length).1
    decreases |es|
  {
    if es != [] {
      ReceiverIsStep(s, es[0], blockSize);
      assert On(s, es[0], blockSize).0.tx == s.tx;
      NeverIdleAgain(On(s, es[0], blockSize).0, es[1..], blockSize, length);
    }
  }

  // ----- The object

  class Transport {
    var receiving: bool
    const buffer: array<Byte>
    var index: nat
    var expected: nat
    var sequence: nat
    var blockCounter: nat
    var flowControls: nat
    var phase: Phase
    var responseLength: nat
    var lastError: Error
    const blockSize: nat
    var requests: seq<Message>   // handed to the UDS handler so far

    ghost function Reception(): Rx
      reads this, buffer
    {
      Rx(receiving, buffer[..], index, expected, sequence, blockCounter, flowControls)
    }

    ghost function Value(): Station
      reads this, buffer
    {
      Station(Reception(), Tx(phase, responseLength), lastError)
    }

    constructor (blockSize: nat)
      ensures RxValid(Reception()) && fresh(buffer)
      ensures Value() == Station(Reset(Reception()), QUIET, NoError)
      ensures requests == [] && this.blockSize == blockSize
    {
      receiving, index, expected, sequence, blockCounter, lastError := false, 0, 0, 0, 0, NoError;
      phase, responseLength := Idle, 0;
      flowControls, this.blockSize, requests := 0, blockSize, [];
      buffer := new Byte[BUFFER_SIZE](_ => 0);
    }

    method ResetRxState()
      modifies this
      ensures Value() == Station(Reset(old(Reception())), old(Value()).tx, NoError) && requests == old(requests)
    {
      receiving, index, expected, sequence, blockCounter, lastError := false, 0, 0, 0, 0, NoError;
    }

    method ResetTxState()
      modifies this`phase, this`responseLength
      ensures Value() == old(Value()).(tx := QUIET)
    {
      phase, responseLength := Idle, 0;
    }

    method Send(length: nat) returns (ok: bool)
      modifies this`phase, this`responseLength, this`lastError
      ensures (Value(), ok) == SendResponse(old(Value()), length)
    {
      if length == 0 { return false; }
      if phase != Idle {
        lastError := BusyError;
        return false;
      }
      if length <= 7 { return true; }
      responseLength := length;
      phase := Sending;
      phase := Waiting;
      return true;
    }

    method AbortTransmission()
      requires RxValid(Reception())
      modifies this`phase, this`responseLength
      ensures Value() == On(old(Value()), Abort, blockSize).0
    {
      ResetTxState();
    }

    method Copy(f: CanFrame, from: nat, n: nat, to: nat)
      requires from + n <= 8 && to + n <= buffer.Length
      modifies buffer
      ensures buffer[..] == Overwrite(old(buffer[..]), to, f.data[from..from + n])
    {
      forall i | 0 <= i < n {
        buffer[to + i] := f.data[from + i];
      }
    }

    /** The request goes to the UDS handler, whose answer goes to the sender. */
    method Serve(request: Message, reply: Reply)
      modifies this`phase, this`responseLength, this`lastError, this`requests
      ensures Value() == Respond(old(Value()), reply) && requests == old(requests) + [request]
    {
      requests := requests + [request];
      if reply.Positive? {
        var _ := Send(reply.length);
      }
    }

    method ProcessReceived(f: CanFrame, reply: Reply)
      requires RxValid(Reception())
      modifies this, buffer
      ensures RxValid(Reception())
      ensures Value() == Handle(old(Value()), f, reply, blockSize).0
      ensures requests == old(requests) + Handle(old(Value()), f, reply, blockSize).1
    {
      if f.dlc == 0 { return; }
      match f.data[0] / 16
      case 0 =>
        var dataLength := f.data[0] % 16;
        if 0 < dataLength <= 7 {
          Serve(f.data[1..1 + dataLength], reply);
        }
      case 1 =>
        ProcessFirst(f);
      case 2 =>
        if !receiving || f.data[0] % 16 != sequence {
          lastError := SequenceError;
          ResetRxState();
        } else {
          AcceptConsecutive(f, reply);
        }
      case 3 => ProcessFlowControl(f);
      case _ =>
    }

    method ProcessFirst(f: CanFrame)
      requires RxValid(Reception()) && f.dlc != 0 && FrameType(f) == 1
      modifies this, buffer
      ensures Value() == old(Value()).(rx := Step(old(Reception()), f, blockSize).0) && requests == old(requests)
    {
      var high: int, low: int := f.data[0] % 16, f.data[1];
      var totalLength := high * 256 + low;
      assert totalLength <= BUFFER_SIZE;  // twelve bits: the overflow answer is never sent
      Copy(f, 2, 6, 0);
      index, expected, sequence, receiving := 6, totalLength, 1, true;
      flowControls := flowControls + 1;
    }

    method ProcessFlowControl(f: CanFrame)
      modifies this`phase, this`responseLength, this`lastError
      ensures Value() == FlowControl(old(Value()), f)
    {
      if phase != Waiting { return; }
      match f.data[0] % 16
      case 0 => phase := Sending;
      case 2 =>
        lastError := OverflowError;
        ResetTxState();
      case _ =>
    }

    method AcceptConsecutive(f: CanFrame, reply: Reply)
      requires RxValid(Reception()) && receiving
      modifies this, buffer
      ensures RxValid(Reception())
      ensures
        var (rx, out) := Accept(old(Reception()), f, blockSize);
        && requests == old(requests) + out
        && Value() == if out == [] then old(Value()).(rx := rx)
                      else Respond(old(Value()), reply).(rx := rx, lastError := NoError)
    {
      CopyBytes(f);
      AdvanceOrDeliver(reply);
    }

    method CopyBytes(f: CanFrame)
      requires RxValid(Reception()) && receiving
      modifies this`index, buffer
      ensures
        var rx := old(Reception());
        var n := CopyLength(rx);
        && rx.index + n <= BUFFER_SIZE
        && Reception() == rx.(buffer := Overwrite(rx.buffer, rx.index, f.data[1..1 + n]), index := rx.index + n)
    {
      var remaining := (expected - index) % U16;
      var copyLength := if remaining > 7 then 7 else remaining;
      assert copyLength == CopyLength(Reception()) && index + copyLength <= BUFFER_SIZE;
      Copy(f, 1, copyLength, index);
      index := index + copyLength;
    }

    method AdvanceOrDeliver(reply: Reply)
      requires buffer.Length == BUFFER_SIZE && expected <= MAX_PAYLOAD && sequence < 16 && 6 <= index
      modifies this
      ensures
        var (rx, out) := Advance(old(Reception()), blockSize);
        && requests == old(requests) + out
        && Value() == if out == [] then old(Value()).(rx := rx)
                      else Respond(old(Value()), reply).(rx := rx, lastError := NoError)
    {
      if index >= expected {
        assert buffer[..expected] == buffer[..][..expected];
        Serve(buffer[..expected], reply);
        ResetRxState();
      } else {
        sequence := (sequence + 1) % 16;
        blockCounter := (blockCounter + 1) % U8;
        if blockCounter >= blockSize {
          blockCounter := 0;
          flowControls := flowControls + 1;
        }
      }
    }
  }
}
