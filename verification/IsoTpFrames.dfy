/**
 The frames of the transport protocol of section 9.6 of ISO 15765-2:2016 as
 src/runtime/protocols/isotp.c builds them: how a payload is cut into a single frame, or
 into a first frame and numbered consecutive frames.
 */
module IsoTpFrames {
  import opened Basics

  const MAX_PAYLOAD: nat := 4095

  type Message = seq<Byte>

  /** The part of a CAN frame the protocol reads and writes: eight data bytes and a length. */
  datatype Frame = Frame(data: seq<Byte>, dlc: nat)
  type CanFrame = f: Frame | |f.data| == 8 && f.dlc <= 8
    witness Frame([0, 0, 0, 0, 0, 0, 0, 0], 0)

  function FrameType(f: CanFrame): nat { f.data[0] / 16 }

  function LowNibble(f: CanFrame): nat { f.data[0] % 16 }

  function TotalLength(f: CanFrame): nat { LowNibble(f) * 256 + f.data[1] }

  function Min(a: nat, b: nat): nat { if a < b then a else b }

  function Zeros(n: nat): (z: seq<Byte>)
    ensures |z| == n
  {
    seq(n, i => 0)
  }

  /** A memory copy into a buffer. */
  function Overwrite(buffer: seq<Byte>, at: nat, bytes: seq<Byte>): (r: seq<Byte>)
    requires at + |bytes| <= |buffer|
    ensures |r| == |buffer|
  {
    buffer[..at] + bytes + buffer[at + |bytes|..]
  }

  lemma OverwritePrefix(buffer: seq<Byte>, at: nat, bytes: seq<Byte>)
    requires at + |bytes| <= |buffer|
    ensures Overwrite(buffer, at, bytes)[..at + |bytes|] == buffer[..at] + bytes
  {
  }

  lemma PrefixGrows(p: seq<Byte>, at: nat, end: nat)
    requires at <= end <= |p|
    ensures p[..at] + p[at..end] == p[..end]
  {
  }

  /** Frame bytes, filled up with the zeros of an initialised frame. */
  function Padded(bytes: seq<Byte>): (f: CanFrame)
    requires |bytes| <= 8
    ensures f.data[..|bytes|] == bytes
  {
    Frame(bytes + Zeros(8 - |bytes|), |bytes|)
  }

  /** How many payload bytes the first frame and `k` consecutive frames carry. */
  function Carried(length: nat, k: nat): nat { Min(length, 6 + 7 * k) }

  /** How many consecutive frames a payload longer than a single frame needs. */
  function ConsecutiveCount(length: nat): nat
    requires 6 <= length
  {
    length / 7
  }

  predicate MultiFrame(payload: seq<Byte>) { 7 < |payload| <= MAX_PAYLOAD }

  function SingleFrame(payload: seq<Byte>): CanFrame
    requires |payload| <= 7
  {
    Padded([|payload|] + payload)
  }

  function FirstFrame(payload: seq<Byte>): CanFrame
    requires MultiFrame(payload)
  {
    Padded([16 + |payload| / 256, |payload| % 256] + payload[..6])
  }

  /** The `k`-th consecutive frame, counted from 1. */
  function ConsecutiveFrame(payload: seq<Byte>, k: nat): CanFrame
    requires MultiFrame(payload) && 0 < k <= ConsecutiveCount(|payload|)
  {
    Padded([32 + k % 16] + payload[Carried(|payload|, k - 1)..Carried(|payload|, k)])
  }

  /** Frame `i` of a multi-frame payload: the first frame, then the consecutive ones. */
  function FrameAt(payload: seq<Byte>, i: nat): CanFrame
    requires MultiFrame(payload) && i <= ConsecutiveCount(|payload|)
  {
    if i == 0 then FirstFrame(payload) else ConsecutiveFrame(payload, i)
  }

  /** Everything the sender puts on the bus for a payload. */
  function Segmented(payload: seq<Byte>): seq<CanFrame>
    requires 0 < |payload| <= MAX_PAYLOAD
  {
    if |payload| <= 7 then [SingleFrame(payload)]
    else seq(ConsecutiveCount(|payload|) + 1, i requires 0 <= i <= ConsecutiveCount(|payload|) => FrameAt(payload, i))
  }

  /** `k` consecutive frames carry everything exactly when `k` reaches the count. */
  lemma CarriedAllIff(length: nat, k: nat)
    requires 7 < length
    ensures Carried(length, k) == length <==> ConsecutiveCount(length) <= k
  {
  }

  lemma SingleFrameFields(p: seq<Byte>)
    requires 0 < |p| <= 7
    ensures
      var f := SingleFrame(p);
      FrameType(f) == 0 && LowNibble(f) == |p| && f.data[1..1 + |p|] == p
  {
    var f := SingleFrame(p);
    assert f.data[..1 + |p|] == [|p|] + p;
    assert f.data[0] == |p|;
    assert f.data[1..1 + |p|] == f.data[..1 + |p|][1..];
  }

  lemma FirstFrameFields(payload: seq<Byte>)
    requires MultiFrame(payload)
    ensures FrameType(FirstFrame(payload)) == 1 && TotalLength(FirstFrame(payload)) == |payload|
    ensures FirstFrame(payload).data[2..8] == payload[..6]
  {
    var bytes := [16 + |payload| / 256, |payload| % 256] + payload[..6];
    assert FirstFrame(payload).data == bytes;
  }

  lemma ConsecutiveFrameFields(payload: seq<Byte>, k: nat)
    requires MultiFrame(payload) && 0 < k <= ConsecutiveCount(|payload|)
    ensures
      var f := ConsecutiveFrame(payload, k);
      var segment := payload[Carried(|payload|, k - 1)..Carried(|payload|, k)];
      FrameType(f) == 2 && LowNibble(f) == k % 16 && |segment| <= 7 && f.data[1..1 + |segment|] == segment
  {
    var segment := payload[Carried(|payload|, k - 1)..Carried(|payload|, k)];
    var f := ConsecutiveFrame(payload, k);
    assert f.data[..1 + |segment|] == [32 + k % 16] + segment;
    assert f.data[0] == 32 + k % 16;
    assert f.data[1..1 + |segment|] == f.data[..1 + |segment|][1..];
  }

  // ----- What the frames carry

  /** The bytes behind the header of a frame, as far as its length says. */
  function Body(f: CanFrame): seq<Byte> {
    var header := if FrameType(f) == 1 then 2 else 1;
    if header <= f.dlc then f.data[header..f.dlc] else []
  }

  ghost function Bodies(fs: seq<CanFrame>): seq<Byte>
    decreases |fs|
  {
    if fs == [] then [] else Bodies(fs[..|fs| - 1]) + Body(fs[|fs| - 1])
  }

  /** Behind its length a frame is filled with zeros. */
  predicate ZeroFilled(f: CanFrame) {
    forall i :: f.dlc <= i < 8 ==> f.data[i] == 0
  }

  lemma FrameBody(p: Message, i: nat)
    requires MultiFrame(p) && i <= ConsecutiveCount(|p|)
    ensures ZeroFilled(FrameAt(p, i))
    ensures Body(FrameAt(p, i)) == if i == 0 then p[..6] else p[Carried(|p|, i - 1)..Carried(|p|, i)]
  {
    if i == 0 {
      FirstFrameFields(p);
    } else {
      ConsecutiveFrameFields(p, i);
    }
  }

  lemma {:induction false} BodiesInOrder(p: Message, k: nat)
    requires MultiFrame(p) && k <= ConsecutiveCount(|p|)
    ensures Bodies(Segmented(p)[..k + 1]) == p[..Carried(|p|, k)]
  {
    var fs := Segmented(p)[..k + 1];
    FrameBody(p, k);
    assert fs[..k] == Segmented(p)[..k] && fs[k] == FrameAt(p, k);
    if k == 0 {
      assert fs[..0] == [] && [] + p[..6] == p[..6];
    } else {
      BodiesInOrder(p, k - 1);
      PrefixGrows(p, Carried(|p|, k - 1), Carried(|p|, k));
    }
  }

  /** The frames of a payload carry it exactly, by their own lengths, and are zero behind them. */
  lemma SegmentedCarries(p: Message)
    requires 0 < |p| <= MAX_PAYLOAD
    ensures Bodies(Segmented(p)) == p && forall f :: f in Segmented(p) ==> ZeroFilled(f)
  {
    var fs := Segmented(p);
    if |p| <= 7 {
      SingleFrameFields(p);
      assert fs[..0] == [] && [] + p == p;
    } else {
      var n := ConsecutiveCount(|p|);
      BodiesInOrder(p, n);
      CarriedAllIff(|p|, n);
      assert fs[..n + 1] == fs && p[..|p|] == p;
      forall f | f in fs
        ensures ZeroFilled(f)
      {
        var i :| 0 <= i < |fs| && fs[i] == f;
        FrameBody(p, i);
      }
    }
  }

  // ----- What frames put together

  /** The first six bytes of a message, and what consecutive frames bring up to its length. */
  ghost function Assembled(p: Message, fs: seq<CanFrame>): (bytes: seq<Byte>)
    requires MultiFrame(p)
    ensures |bytes| == Carried(|p|, |fs|)
    decreases |fs|
  {
    if fs == [] then p[..6]
    else
      var k := |fs| - 1;
      Assembled(p, fs[..k]) + Chunk(p, k, fs[k])
  }

  /** What a frame brings when `k` consecutive frames are already in. */
  function Chunk(p: Message, k: nat, f: CanFrame): (bytes: seq<Byte>)
    ensures |bytes| == Carried(|p|, k + 1) - Carried(|p|, k)
  {
    f.data[1..1 + Carried(|p|, k + 1) - Carried(|p|, k)]
  }

  lemma AssembledMore(p: Message, fs: seq<CanFrame>, f: CanFrame)
    requires MultiFrame(p)
    ensures Assembled(p, fs + [f]) == Assembled(p, fs) + Chunk(p, |fs|, f)
  {
    var gs := fs + [f];
    assert gs[..|gs| - 1] == fs && gs[|gs| - 1] == f;
  }

  lemma OwnChunk(p: Message, k: nat)
    requires MultiFrame(p) && 0 < k <= ConsecutiveCount(|p|)
    ensures p[..Carried(|p|, k - 1)] + Chunk(p, k - 1, ConsecutiveFrame(p, k)) == p[..Carried(|p|, k)]
  {
    ConsecutiveFrameFields(p, k);
    PrefixGrows(p, Carried(|p|, k - 1), Carried(|p|, k));
  }
}
