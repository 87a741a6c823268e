/**
 src/runtime/protocols/isotp.c: the sender that cuts a payload into frames, the receiver
 that puts them together again, and the call that fetches a received payload.
 */
module IsoTp {
  import opened Basics
  import opened IsoTpFrames

  const SIZE_T: int := 0x1_0000_0000_0000_0000

  // ----- Reception

  datatype Rx = Rx(buffer: seq<Byte>, length: nat, offset: nat, sequence: nat, multi: bool)

  ghost predicate RxValid(rx: Rx) {
    && |rx.buffer| == MAX_PAYLOAD && rx.length <= MAX_PAYLOAD && rx.sequence < 16
    && (rx.multi ==> rx.offset == 6 || 6 < rx.offset < rx.length)
  }

  /** How many bytes of a consecutive frame are copied; the difference is a 64-bit size. */
  function SegmentSize(rx: Rx): nat {
    Min((rx.length - rx.offset) % SIZE_T, 7)
  }

  /** What one frame does to the reception state. */
  function Process(rx: Rx, f: CanFrame): (r: Rx)
    requires RxValid(rx)
    ensures RxValid(r)
  {
    match FrameType(f)
    case 0 =>
      if 0 < LowNibble(f) <= 7
      then rx.(buffer := Overwrite(rx.buffer, 0, f.data[1..1 + LowNibble(f)]), length := LowNibble(f), multi := false)
      else rx
    case 1 =>
      if 0 < TotalLength(f)
      then rx.(buffer := Overwrite(rx.buffer, 0, f.data[2..8]), length := TotalLength(f), offset := 6,
               sequence := 1, multi := true)
      else rx
    case 2 =>
      if !rx.multi then rx
      else if LowNibble(f) != rx.sequence then rx.(multi := false)
      else
        var n := SegmentSize(rx);
        rx.(buffer := Overwrite(rx.buffer, rx.offset, f.data[1..1 + n]), offset := rx.offset + n,
            sequence := (rx.sequence + 1) % 16, multi := rx.offset + n < rx.length)
    case _ => rx
  }

  ghost function ProcessAll(rx: Rx, fs: seq<CanFrame>): (r: Rx)
    requires RxValid(rx)
    ensures RxValid(r)
    decreases |fs|
  {
    if fs == [] then rx else ProcessAll(Process(rx, fs[0]), fs[1..])
  }

  /** What isotp_receive hands out. */
  function Fetched(rx: Rx): Option<seq<Byte>>
    requires RxValid(rx)
  {
    if !rx.multi && 0 < rx.length then Some(rx.buffer[..rx.length]) else None
  }

  // ----- The round trip

  /** The receiver holds exactly what the first frame and `k` consecutive frames carry. */
  ghost predicate Synced(rx: Rx, p: seq<Byte>, k: nat) {
    && MultiFrame(p) && RxValid(rx) && k <= ConsecutiveCount(|p|)
    && rx.length == |p| && rx.offset == Carried(|p|, k) && rx.sequence == (k + 1) % 16
    && (rx.multi <==> k < ConsecutiveCount(|p|))
    && rx.buffer[..rx.offset] == p[..rx.offset]
  }

  lemma FirstFrameSyncs(rx: Rx, p: seq<Byte>)
    requires RxValid(rx) && MultiFrame(p)
    ensures Synced(Process(rx, FirstFrame(p)), p, 0)
  {
    FirstFrameFields(p);
  }

  lemma SegmentReaches(rx: Rx, p: seq<Byte>, k: nat)
    requires Synced(rx, p, k) && k < ConsecutiveCount(|p|)
    ensures rx.offset + SegmentSize(rx) == Carried(|p|, k + 1)
  {
    CarriedAllIff(|p|, k);
  }

  lemma DueFrameBytes(rx: Rx, p: seq<Byte>, k: nat)
    requires Synced(rx, p, k) && k < ConsecutiveCount(|p|)
    ensures
      var bytes := ConsecutiveFrame(p, k + 1).data[1..1 + SegmentSize(rx)];
      Overwrite(rx.buffer, rx.offset, bytes)[..Carried(|p|, k + 1)] == p[..Carried(|p|, k + 1)]
  {
    ConsecutiveFrameFields(p, k + 1);
    SegmentReaches(rx, p, k);
    var from, to := Carried(|p|, k), Carried(|p|, k + 1);
    assert ConsecutiveFrame(p, k + 1).data[1..1 + SegmentSize(rx)] == p[from..to];
    OverwritePrefix(rx.buffer, from, p[from..to]);
    PrefixGrows(p, from, to);
  }

  lemma DueFrameSyncs(rx: Rx, p: seq<Byte>, k: nat)
    requires Synced(rx, p, k) && k < ConsecutiveCount(|p|)
    ensures Synced(Process(rx, ConsecutiveFrame(p, k + 1)), p, k + 1)
  {
    ConsecutiveFrameFields(p, k + 1);
    DueFrameCopies(rx, p, k, ConsecutiveFrame(p, k + 1));
  }

  lemma DueFrameCopies(rx: Rx, p: seq<Byte>, k: nat, f: CanFrame)
    requires Synced(rx, p, k) && k < ConsecutiveCount(|p|) && f == ConsecutiveFrame(p, k + 1)
    ensures
      var n := SegmentSize(rx);
      Synced(rx.(buffer := Overwrite(rx.buffer, rx.offset, f.data[1..1 + n]), offset := rx.offset + n,
                 sequence := (rx.sequence + 1) % 16, multi := rx.offset + n < rx.length), p, k + 1)
  {
    CarriedAllIff(|p|, k + 1);
    SegmentReaches(rx, p, k);
    DueFrameBytes(rx, p, k);
  }

  lemma {:induction false} ProcessConcat(rx: Rx, fs: seq<CanFrame>, f: CanFrame)
    requires RxValid(rx)
    ensures ProcessAll(rx, fs + [f]) == Process(ProcessAll(rx, fs), f)
    decreases |fs|
  {
    if fs == [] {
      assert [f][1..] == [];
      assert fs + [f] == [f];
    } else {
      assert (fs + [f])[0] == fs[0] && (fs + [f])[1..] == fs[1..] + [f];
      ProcessConcat(Process(rx, fs[0]), fs[1..], f);
    }
  }

  lemma {:induction false} InOrderSyncs(rx: Rx, p: seq<Byte>, k: nat)
    requires RxValid(rx) && MultiFrame(p) && k <= ConsecutiveCount(|p|)
    ensures Synced(ProcessAll(rx, Segmented(p)[..k + 1]), p, k)
  {
    var fs := Segmented(p);
    if k == 0 {
      assert fs[..1] == [] + [FirstFrame(p)];
      ProcessConcat(rx, [], FirstFrame(p));
      FirstFrameSyncs(rx, p);
    } else {
      InOrderSyncs(rx, p, k - 1);
      assert fs[..k + 1] == fs[..k] + [ConsecutiveFrame(p, k)];
      ProcessConcat(rx, fs[..k], ConsecutiveFrame(p, k));
      DueFrameSyncs(ProcessAll(rx, fs[..k]), p, k - 1);
    }
  }

  /** Every payload comes back, from any state of the receiver, however often the number wraps. */
  lemma RoundTrip(rx: Rx, p: seq<Byte>)
    requires RxValid(rx) && 0 < |p| <= MAX_PAYLOAD
    ensures Fetched(ProcessAll(rx, Segmented(p))) == Some(p)
  {
    if |p| <= 7 {
      SingleFrameFields(p);
      ProcessConcat(rx, [], SingleFrame(p));
      assert Overwrite(rx.buffer, 0, p)[..|p|] == p;
      assert [] + [SingleFrame(p)] == Segmented(p);
    } else {
      var n := ConsecutiveCount(|p|);
      InOrderSyncs(rx, p, n);
      assert Segmented(p)[..n + 1] == Segmented(p);
      CarriedAllIff(|p|, n);
      assert p[..|p|] == p;
    }
  }

  // ----- What a lost frame does

  /** In the middle of a transfer, a payload can be fetched exactly after the last frame or a wrong number. */
  lemma FetchableIff(rx: Rx, p: seq<Byte>, k: nat, i: nat)
    requires Synced(rx, p, k) && k < ConsecutiveCount(|p|) && 0 < i <= ConsecutiveCount(|p|)
    ensures Fetched(Process(rx, ConsecutiveFrame(p, i))).Some? <==>
            i % 16 != (k + 1) % 16 || k + 1 == ConsecutiveCount(|p|)
  {
    ConsecutiveFrameFields(p, i);
    CarriedAllIff(|p|, k);
    CarriedAllIff(|p|, k + 1);
  }

  /**
   After a wrong number the unfinished payload is handed out at full length: the part that
   arrived, followed by whatever the buffer held before.
   */
  lemma WrongNumberHandsOutLeftovers(rx: Rx, p: seq<Byte>, k: nat, i: nat)
    requires Synced(rx, p, k) && k < ConsecutiveCount(|p|) && 0 < i <= ConsecutiveCount(|p|)
    requires i % 16 != (k + 1) % 16
    ensures Fetched(Process(rx, ConsecutiveFrame(p, i))) ==
            Some(p[..Carried(|p|, k)] + rx.buffer[Carried(|p|, k)..|p|])
  {
    ConsecutiveFrameFields(p, i);
    var c := Carried(|p|, k);
    assert rx.buffer[..|p|] == rx.buffer[..c] + rx.buffer[c..|p|];
  }

  // ----- What the driver takes

  /** The frames for which the driver answers that it has sent them; frame `j` gets answer `from + j`. */
  ghost function Taken(fs: seq<CanFrame>, answers: nat -> bool, from: nat): seq<CanFrame> {
    if fs == [] then [] else (if answers(from) then [fs[0]] else []) + Taken(fs[1..], answers, from + 1)
  }

  lemma {:induction false} TakenMore(fs: seq<CanFrame>, f: CanFrame, answers: nat -> bool, from: nat)
    ensures Taken(fs + [f], answers, from) == Taken(fs, answers, from) + if answers(from + |fs|) then [f] else []
  {
    if fs == [] {
      assert fs + [f] == [f] && [f][1..] == [];
    } else {
      assert (fs + [f])[0] == fs[0] && (fs + [f])[1..] == fs[1..] + [f];
      TakenMore(fs[1..], f, answers, from + 1);
      Regroup(if answers(from) then [fs[0]] else [], Taken(fs[1..], answers, from + 1),
              if answers(from + |fs|) then [f] else []);
    }
  }

  lemma Regroup(a: seq<CanFrame>, b: seq<CanFrame>, c: seq<CanFrame>)
    ensures a + (b + c) == (a + b) + c
  {
  }

  lemma PrefixSlice(buffer: seq<Byte>, payload: seq<Byte>, from: nat, to: nat)
    requires from <= to <= |payload| <= |buffer| && buffer[..|payload|] == payload
    ensures buffer[from..to] == payload[from..to]
  {
    forall i | 0 <= i < to - from
      ensures buffer[from..to][i] == payload[from..to][i]
    {
      assert buffer[..|payload|][from + i] == payload[from + i];
    }
  }

  /** The next segment in the transmit buffer makes the next consecutive frame. */
  lemma NextSegment(buffer: seq<Byte>, payload: seq<Byte>, k: nat)
    requires MultiFrame(payload) && k < ConsecutiveCount(|payload|)
    requires |payload| <= |buffer| && buffer[..|payload|] == payload
    ensures
      var from, to := Carried(|payload|, k), Carried(|payload|, k + 1);
      && from <= to <= |buffer| && to - from == Min(|payload| - from, 7)
      && Padded([32 + (k + 1) % 16] + buffer[from..to]) == ConsecutiveFrame(payload, k + 1)
  {
    PrefixSlice(buffer, payload, Carried(|payload|, k), Carried(|payload|, k + 1));
  }

  /** A driver that takes every frame takes all of them. */
  lemma {:induction false} AllTaken(fs: seq<CanFrame>, answers: nat -> bool, from: nat)
    requires forall j :: from <= j < from + |fs| ==> answers(j)
    ensures Taken(fs, answers, from) == fs
  {
    if fs != [] {
      AllTaken(fs[1..], answers, from + 1);
    }
  }

  lemma AppendParts(bus: seq<CanFrame>, fs: seq<CanFrame>, answers: nat -> bool)
    requires fs != [] && answers(0)
    ensures (bus + fs[..1]) + Taken(fs[1..], answers, 1) == bus + Taken(fs, answers, 0)
  {
    Regroup(bus, fs[..1], Taken(fs[1..], answers, 1));
  }

  /**
   The sender moves on although the driver refused a frame, so the number that follows is the
   wrong one: after any frame but the last is skipped, the receiver hands out leftovers.
   */
  lemma SkippedFrameHandsOutLeftovers(rx: Rx, p: seq<Byte>, k: nat)
    requires Synced(rx, p, k) && k + 1 < ConsecutiveCount(|p|)
    ensures Fetched(Process(rx, ConsecutiveFrame(p, k + 2))) ==
            Some(p[..Carried(|p|, k)] + rx.buffer[Carried(|p|, k)..|p|])
  {
    WrongNumberHandsOutLeftovers(rx, p, k, k + 2);
  }

  // ----- The object

  class Isotp {
    const txBuffer: array<Byte>
    var txLength: nat
    var txOffset: nat
    var txSequence: nat
    var waitingFc: bool
    const rxBuffer: array<Byte>
    var rxLength: nat
    var rxOffset: nat
    var rxSequence: nat
    var receivingMulti: bool
    var bus: seq<CanFrame>   // the payload frames transmitted so far

    ghost predicate Valid()
      reads this, rxBuffer, txBuffer
    {
      RxValid(Reception()) && txBuffer.Length == MAX_PAYLOAD && txBuffer != rxBuffer
    }

    ghost function Reception(): Rx
      reads this, rxBuffer
    {
      Rx(rxBuffer[..], rxLength, rxOffset, rxSequence, receivingMulti)
    }

    constructor ()
      ensures Valid() && fresh(txBuffer) && fresh(rxBuffer)
      ensures bus == [] && Fetched(Reception()) == None
    {
      txBuffer := new Byte[MAX_PAYLOAD](_ => 0);
      rxBuffer := new Byte[MAX_PAYLOAD](_ => 0);
      txLength, txOffset, txSequence, waitingFc := 0, 0, 0, false;
      rxLength, rxOffset, rxSequence, receivingMulti := 0, 0, 0, false;
      bus := [];
    }

    /** `k` frames after the first one of `payload`, this is what remains to be sent. */
    ghost predicate Sending(payload: seq<Byte>, k: nat)
      reads this, txBuffer
    {
      && MultiFrame(payload) && txBuffer.Length == MAX_PAYLOAD && txBuffer[..|payload|] == payload
      && txLength == |payload| && txOffset == Carried(|payload|, k) && txSequence == (k + 1) % 16
    }

    /** isotp_transmit: the single frame, or the first one. `taken` is the answer of the driver. */
    method Transmit(data: seq<Byte>, taken: bool) returns (ok: bool)
      requires Valid()
      modifies this, txBuffer
      ensures Valid() && Reception() == old(Reception())
      ensures ok <==> 0 < |data| <= MAX_PAYLOAD && taken
      ensures bus == old(bus) + (if ok then Segmented(data)[..1] else [])
      ensures 7 < |data| <= MAX_PAYLOAD ==> Sending(data, 0)
    {
      if |data| == 0 || |data| > MAX_PAYLOAD { return false; }
      var f;
      if |data| <= 7 {
        f := Padded([|data|] + data);
      } else {
        forall i | 0 <= i < |data| { txBuffer[i] := data[i]; }
        f := Padded([16 + |data| / 256 % 16, |data| % 256] + data[..6]);
        txLength, txOffset, txSequence, waitingFc := |data|, 6, 1, true;
      }
      if taken {
        bus := bus + [f];
      }
      return taken;
    }

    /** The offset and the number move on whether or not the driver takes the frame. */
    method SendConsecutiveFrame(taken: bool, ghost payload: seq<Byte>, ghost k: nat) returns (ok: bool)
      requires Valid() && Sending(payload, k) && k < ConsecutiveCount(|payload|)
      modifies this
      ensures Valid() && Reception() == old(Reception()) && Sending(payload, k + 1) && ok == taken
      ensures bus == old(bus) + if taken then [ConsecutiveFrame(payload, k + 1)] else []
    {
      NextSegment(txBuffer[..], payload, k);
      var remaining := txLength - txOffset;
      var segmentSize := if remaining > 7 then 7 else remaining;
      var f := Padded([32 + txSequence] + txBuffer[..][txOffset..txOffset + segmentSize]);
      txOffset := txOffset + segmentSize;
      txSequence := (txSequence + 1) % 16;
      if taken {
        bus := bus + [f];
      }
      return taken;
    }

    /** A whole transmission: once the first frame is out, consecutive frames follow while bytes remain. */
    method TransmitAll(data: seq<Byte>, answers: nat -> bool) returns (ok: bool)
      requires Valid()
      modifies this, txBuffer
      ensures Valid() && Reception() == old(Reception())
      ensures ok <==> 0 < |data| <= MAX_PAYLOAD && answers(0)
      ensures bus == old(bus) + (if ok then Taken(Segmented(data), answers, 0) else [])
    {
      ok := Transmit(data, answers(0));
      if ok {
        AppendParts(old(bus), Segmented(data), answers);
        if |data| > 7 {
          SendRest(data, answers);
        }
      }
    }

    method SendRest(ghost data: seq<Byte>, answers: nat -> bool)
      requires Valid() && Sending(data, 0)
      modifies this
      ensures Valid() && Reception() == old(Reception())
      ensures bus == old(bus) + Taken(Segmented(data)[1..], answers, 1)
    {
      var k := 0;
      ghost var rest := Segmented(data)[1..];
      while txOffset < txLength
        invariant Valid() && Reception() == old(Reception())
        invariant k <= ConsecutiveCount(|data|) && Sending(data, k)
        invariant bus == old(bus) + Taken(rest[..k], answers, 1)
        decreases ConsecutiveCount(|data|) - k
      {
        CarriedAllIff(|data|, k);
        assert rest[..k + 1] == rest[..k] + [ConsecutiveFrame(data, k + 1)];
        TakenMore(rest[..k], ConsecutiveFrame(data, k + 1), answers, 1);
        var _ := SendConsecutiveFrame(answers(k + 1), data, k);
        k := k + 1;
      }
      CarriedAllIff(|data|, k);
      assert rest[..k] == rest;
    }

    method Copy(f: CanFrame, from: nat, n: nat, to: nat)
      requires from + n <= 8 && to + n <= rxBuffer.Length
      modifies rxBuffer
      ensures rxBuffer[..] == Overwrite(old(rxBuffer[..]), to, f.data[from..from + n])
    {
      forall i | 0 <= i < n {
        rxBuffer[to + i] := f.data[from + i];
      }
    }

    /** The body of isotp_process for one received frame. */
    method ProcessFrame(f: CanFrame)
      requires Valid()
      modifies this, rxBuffer
      ensures Valid() && Reception() == Process(old(Reception()), f) && bus == old(bus)
    {
      match f.data[0] / 16
      case 0 =>
        var length := f.data[0] % 16;
        if 0 < length <= 7 {
          Copy(f, 1, length, 0);
          rxLength, receivingMulti := length, false;
        }
      case 1 =>
        var high: int, low: int := f.data[0] % 16, f.data[1];
        var length := high * 256 + low;
        if 0 < length <= MAX_PAYLOAD {
          Copy(f, 2, 6, 0);
          rxLength, rxOffset, rxSequence, receivingMulti := length, 6, 1, true;
        }
      case 2 =>
        ProcessConsecutive(f);
      case _ =>
    }

    method ProcessConsecutive(f: CanFrame)
      requires Valid() && FrameType(f) == 2
      modifies this, rxBuffer
      ensures Valid() && Reception() == Process(old(Reception()), f) && bus == old(bus)
    {
      if !receivingMulti { return; }
      if f.data[0] % 16 != rxSequence {
        receivingMulti := false;
        return;
      }
      var remaining := (rxLength - rxOffset) % SIZE_T;
      var segmentSize := if remaining > 7 then 7 else remaining;
      assert segmentSize == SegmentSize(Reception()) && rxOffset + segmentSize <= MAX_PAYLOAD;
      Copy(f, 1, segmentSize, rxOffset);
      rxOffset := rxOffset + segmentSize;
      rxSequence := (rxSequence + 1) % 16;
      if rxOffset >= rxLength {
        receivingMulti := false;
      }
    }

    /** isotp_receive: a payload is handed out once. */
    method Receive() returns (r: Option<seq<Byte>>)
      requires Valid()
      modifies this`rxLength
      ensures Valid() && r == Fetched(old(Reception()))
      ensures Reception() == old(Reception()).(length := if r.Some? then 0 else old(rxLength))
    {
      if !receivingMulti && rxLength > 0 {
        assert rxBuffer[..rxLength] == rxBuffer[..][..rxLength];
        r := Some(rxBuffer[..rxLength]);
        rxLength := 0;
        return;
      }
      r := None;
    }
  }
}
