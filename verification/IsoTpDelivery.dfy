/**
 What isotp_receive of src/runtime/protocols/isotp.c hands out after a first frame and any
 frames that follow it: the frames with the awaited numbers put together, or the unfinished
 part of them filled up with old bytes of the buffer, or nothing.
 */
module IsoTpDelivery {
  import opened Basics
  import opened IsoTp
  import opened IsoTpFrames

  ghost predicate AllConsecutive(c: seq<CanFrame>) {
    forall f :: f in c ==> FrameType(f) == 2
  }

  /** The first `k` frames carry the numbers a receiver awaits after a first frame. */
  predicate Fitting(c: seq<CanFrame>, k: nat)
    requires k <= |c|
  {
    forall j :: 0 <= j < k ==> LowNibble(c[j]) == (j + 1) % 16
  }

  /** The first `k` frames are taken; then the payload is complete, or the frames end, or a number is wrong. */
  predicate Takes(p: Message, c: seq<CanFrame>, k: nat)
    requires MultiFrame(p)
  {
    && k <= |c| && k <= ConsecutiveCount(|p|) && Fitting(c, k)
    && (k < |c| && k < ConsecutiveCount(|p|) ==> LowNibble(c[k]) != (k + 1) % 16)
  }

  /** There is always such a number. */
  lemma TakesSome(p: Message, c: seq<CanFrame>) returns (k: nat)
    requires MultiFrame(p)
    ensures Takes(p, c, k)
  {
    k := 0;
    while k < |c| && k < ConsecutiveCount(|p|) && LowNibble(c[k]) == (k + 1) % 16
      invariant k <= |c| && k <= ConsecutiveCount(|p|) && Fitting(c, k)
    {
      k := k + 1;
    }
  }

  /** What is handed out when `k` of the frames are taken and the buffer held `memory` before. */
  ghost function HandedOut(p: Message, c: seq<CanFrame>, k: nat, memory: seq<Byte>): Option<Message>
    requires MultiFrame(p) && |memory| == MAX_PAYLOAD && k <= |c|
  {
    if k == ConsecutiveCount(|p|) then Some(Assembled(p, c[..k]))
    else if k == |c| then None
    else Some(Assembled(p, c[..k]) + memory[Carried(|p|, k)..|p|])
  }

  // ----- One frame

  /** The receiver holds the first frame and the consecutive frames `fs`, over `memory`. */
  ghost predicate Holding(rx: Rx, p: Message, fs: seq<CanFrame>, memory: seq<Byte>) {
    && MultiFrame(p) && RxValid(rx) && |fs| <= ConsecutiveCount(|p|) && |memory| == MAX_PAYLOAD
    && rx.length == |p| && rx.offset == Carried(|p|, |fs|) && rx.sequence == (|fs| + 1) % 16
    && (rx.multi <==> |fs| < ConsecutiveCount(|p|))
    && rx.buffer == Assembled(p, fs) + memory[rx.offset..]
  }

  lemma FirstFrameHeld(rx: Rx, p: Message)
    requires RxValid(rx) && MultiFrame(p)
    ensures Holding(Process(rx, FirstFrame(p)), p, [], rx.buffer)
  {
    FirstFrameFields(p);
  }

  lemma OverwriteAppends(taken: seq<Byte>, memory: seq<Byte>, bytes: seq<Byte>)
    requires |taken| + |bytes| <= |memory|
    ensures Overwrite(taken + memory[|taken|..], |taken|, bytes) == (taken + bytes) + memory[|taken| + |bytes|..]
  {
  }

  lemma SegmentIsChunk(rx: Rx, p: Message, fs: seq<CanFrame>, f: CanFrame, memory: seq<Byte>)
    requires Holding(rx, p, fs, memory) && rx.multi
    ensures f.data[1..1 + SegmentSize(rx)] == Chunk(p, |fs|, f)
    ensures rx.offset + SegmentSize(rx) == Carried(|p|, |fs| + 1)
  {
    CarriedAllIff(|p|, |fs|);
  }

  lemma AwaitedFrameBuffer(rx: Rx, p: Message, fs: seq<CanFrame>, f: CanFrame, memory: seq<Byte>)
    requires Holding(rx, p, fs, memory) && rx.multi
    ensures Overwrite(rx.buffer, rx.offset, Chunk(p, |fs|, f)) ==
            Assembled(p, fs + [f]) + memory[Carried(|p|, |fs| + 1)..]
  {
    OverwriteAppends(Assembled(p, fs), memory, Chunk(p, |fs|, f));
    AssembledMore(p, fs, f);
  }

  lemma AwaitedFrameCopies(rx: Rx, p: Message, fs: seq<CanFrame>, f: CanFrame, memory: seq<Byte>)
    requires Holding(rx, p, fs, memory) && rx.multi
    ensures
      var n := SegmentSize(rx);
      Holding(rx.(buffer := Overwrite(rx.buffer, rx.offset, f.data[1..1 + n]), offset := rx.offset + n,
                  sequence := (rx.sequence + 1) % 16, multi := rx.offset + n < rx.length), p, fs + [f], memory)
  {
    CarriedAllIff(|p|, |fs| + 1);
    SegmentIsChunk(rx, p, fs, f, memory);
    AwaitedFrameBuffer(rx, p, fs, f, memory);
  }

  lemma AwaitedFrameHeld(rx: Rx, p: Message, fs: seq<CanFrame>, f: CanFrame, memory: seq<Byte>)
    requires Holding(rx, p, fs, memory) && rx.multi && FrameType(f) == 2 && LowNibble(f) == rx.sequence
    ensures Holding(Process(rx, f), p, fs + [f], memory)
  {
    AwaitedFrameCopies(rx, p, fs, f, memory);
  }

  lemma {:induction false} IdleIgnores(rx: Rx, fs: seq<CanFrame>)
    requires RxValid(rx) && !rx.multi && AllConsecutive(fs)
    ensures ProcessAll(rx, fs) == rx
    decreases |fs|
  {
    if fs != [] {
      IdleIgnores(rx, fs[1..]);
    }
  }

  lemma HeldFetched(rx: Rx, p: Message, fs: seq<CanFrame>, memory: seq<Byte>)
    requires Holding(rx, p, fs, memory)
    ensures
      Fetched(rx.(multi := false)) == Some(Assembled(p, fs) + memory[rx.offset..|p|])
    ensures |fs| == ConsecutiveCount(|p|) ==> Fetched(rx) == Some(Assembled(p, fs))
  {
    CarriedAllIff(|p|, |fs|);
    PrefixOver(Assembled(p, fs), memory, |p|);
  }

  lemma PrefixOver(taken: seq<Byte>, memory: seq<Byte>, length: nat)
    requires |taken| <= length <= |memory|
    ensures (taken + memory[|taken|..])[..length] == taken + memory[|taken|..length]
  {
  }

  // ----- Any frames after a first frame

  /** All frames that are taken are in. */
  lemma TakenAll(rx: Rx, p: Message, c: seq<CanFrame>, k: nat, memory: seq<Byte>)
    requires MultiFrame(p) && Takes(p, c, k) && AllConsecutive(c) && Holding(rx, p, c[..k], memory)
    ensures Fetched(ProcessAll(rx, c[k..])) == HandedOut(p, c, k, memory)
  {
    HeldFetched(rx, p, c[..k], memory);
    if k == ConsecutiveCount(|p|) {
      IdleIgnores(rx, c[k..]);
    } else if k < |c| {
      assert c[k..][0] == c[k] && c[k..][1..] == c[k + 1..];
      IdleIgnores(rx.(multi := false), c[k + 1..]);
    }
  }

  lemma {:induction false} TakenFrom(rx: Rx, p: Message, c: seq<CanFrame>, j: nat, k: nat, memory: seq<Byte>)
    requires MultiFrame(p) && Takes(p, c, k) && j <= k && AllConsecutive(c) && Holding(rx, p, c[..j], memory)
    ensures Fetched(ProcessAll(rx, c[j..])) == HandedOut(p, c, k, memory)
    decreases k - j
  {
    if j == k {
      TakenAll(rx, p, c, k, memory);
    } else {
      assert c[j..][0] == c[j] && c[j..][1..] == c[j + 1..] && c[..j] + [c[j]] == c[..j + 1];
      AwaitedFrameHeld(rx, p, c[..j], c[j], memory);
      TakenFrom(Process(rx, c[j]), p, c, j + 1, k, memory);
    }
  }

  /**
   From any receiver state, after a first frame and any consecutive frames of whatever messages:
   the frames taken are those before the first wrong number, and they decide what is handed out.
   Enough of them give their bytes under the length of the first frame; too few give nothing
   unless a wrong number follows, and then their bytes and what the buffer held before.
   */
  lemma FetchedAfter(rx: Rx, p: Message, c: seq<CanFrame>, k: nat)
    requires RxValid(rx) && MultiFrame(p) && Takes(p, c, k)
    requires AllConsecutive(c)
    ensures Fetched(ProcessAll(rx, [FirstFrame(p)] + c)) == HandedOut(p, c, k, rx.buffer)
  {
    var all := [FirstFrame(p)] + c;
    assert all[0] == FirstFrame(p) && all[1..] == c && c[0..] == c && c[..0] == [];
    FirstFrameHeld(rx, p);
    TakenFrom(Process(rx, FirstFrame(p)), p, c, 0, k, rx.buffer);
  }

  /** After a single frame consecutive frames change nothing. */
  lemma FetchedAfterSingle(rx: Rx, p: Message, c: seq<CanFrame>)
    requires RxValid(rx) && 0 < |p| <= 7 && AllConsecutive(c)
    ensures Fetched(ProcessAll(rx, [SingleFrame(p)] + c)) == Some(p)
  {
    var all := [SingleFrame(p)] + c;
    assert all[0] == SingleFrame(p) && all[1..] == c;
    SingleFrameFields(p);
    assert Overwrite(rx.buffer, 0, p)[..|p|] == p;
    IdleIgnores(Process(rx, SingleFrame(p)), c);
  }

  // ----- First frames that name fewer bytes than they need to

  /**
   A first frame may name 1 to 7 bytes. Nothing is handed out before a consecutive frame comes,
   whatever its number; then what is named is taken from the first frame, and byte 7 from a
   consecutive frame with number 1 or, after a wrong number, from the old buffer.
   */
  lemma ShortFirstFrame(rx: Rx, f: CanFrame, g: CanFrame)
    requires RxValid(rx) && FrameType(f) == 1 && 0 < TotalLength(f) < 8 && FrameType(g) == 2
    ensures Fetched(Process(rx, f)) == None
    ensures Fetched(Process(Process(rx, f), g)) ==
            Some((f.data[2..8] + [if LowNibble(g) == 1 then g.data[1] else rx.buffer[6]])[..TotalLength(f)])
  {
    var first := Process(rx, f);
    var n := TotalLength(f);
    var bytes := f.data[2..8] + [if LowNibble(g) == 1 then g.data[1] else rx.buffer[6]];
    var second := Process(first, g);
    forall i | 0 <= i < n
      ensures second.buffer[..n][i] == bytes[..n][i]
    {
    }
    assert second.buffer[..n] == bytes[..n];
  }

  // ----- Frames of one message

  /** Places of consecutive frames, each within 15 of its turn. */
  predicate NearTurn(a: seq<nat>, count: nat) {
    forall j :: 0 <= j < |a| ==> 0 < a[j] <= count && -16 < a[j] - (j + 1) < 16
  }

  /** The consecutive frames of `p` in these places. */
  ghost function Places(p: Message, a: seq<nat>): (c: seq<CanFrame>)
    requires MultiFrame(p) && NearTurn(a, ConsecutiveCount(|p|))
    ensures |c| == |a| && forall j :: 0 <= j < |a| ==> c[j] == ConsecutiveFrame(p, a[j])
  {
    seq(|a|, j requires 0 <= j < |a| => ConsecutiveFrame(p, a[j]))
  }

  /** Exactly the first `k` places are in order, as far as the payload goes. */
  predicate InTurn(a: seq<nat>, k: nat, count: nat) {
    && k <= |a| && k <= count && (forall j :: 0 <= j < k ==> a[j] == j + 1)
    && (k < |a| && k < count ==> a[k] != k + 1)
  }

  lemma PlaceNumbers(p: Message, a: seq<nat>, j: nat)
    requires MultiFrame(p) && NearTurn(a, ConsecutiveCount(|p|)) && j < |a|
    ensures FrameType(Places(p, a)[j]) == 2 && LowNibble(Places(p, a)[j]) == a[j] % 16
  {
    ConsecutiveFrameFields(p, a[j]);
  }

  /** The message, what arrived of it in order followed by old bytes, or nothing. */
  ghost function PartOf(p: Message, k: nat, more: bool, memory: seq<Byte>): Option<Message>
    requires MultiFrame(p) && |memory| == MAX_PAYLOAD
  {
    if k == ConsecutiveCount(|p|) then Some(p)
    else if more then Some(p[..Carried(|p|, k)] + memory[Carried(|p|, k)..|p|])
    else None
  }

  lemma InTurnHandedOut(p: Message, c: seq<CanFrame>, k: nat, memory: seq<Byte>)
    requires MultiFrame(p) && |memory| == MAX_PAYLOAD && k <= |c| && k <= ConsecutiveCount(|p|)
    requires forall j :: 0 <= j < k ==> c[j] == ConsecutiveFrame(p, j + 1)
    ensures HandedOut(p, c, k, memory) == PartOf(p, k, k < |c|, memory)
  {
    AssembledInTurn(p, c[..k]);
    CarriedAllIff(|p|, k);
    assert p[..|p|] == p;
  }

  /**
   The frames of one message, lost, repeated or reordered, as long as each arrives within 15
   places of its turn: the whole message is handed out, or the part that arrived in order
   followed by old bytes of the buffer, or nothing. No other part of the message gets in.
   */
  lemma WindowedFetched(rx: Rx, p: Message, a: seq<nat>, k: nat)
    requires RxValid(rx) && MultiFrame(p) && InTurn(a, k, ConsecutiveCount(|p|))
    requires NearTurn(a, ConsecutiveCount(|p|))
    ensures Fetched(ProcessAll(rx, [FirstFrame(p)] + Places(p, a))) == PartOf(p, k, k < |a|, rx.buffer)
  {
    PlacesTaken(p, a, k);
    FetchedAfter(rx, p, Places(p, a), k);
    PlacesHandedOut(p, a, k, rx.buffer);
  }

  lemma PlacesHandedOut(p: Message, a: seq<nat>, k: nat, memory: seq<Byte>)
    requires MultiFrame(p) && |memory| == MAX_PAYLOAD && InTurn(a, k, ConsecutiveCount(|p|))
    requires NearTurn(a, ConsecutiveCount(|p|))
    ensures HandedOut(p, Places(p, a), k, memory) == PartOf(p, k, k < |a|, memory)
  {
    InTurnHandedOut(p, Places(p, a), k, memory);
  }

  lemma PlacesTaken(p: Message, a: seq<nat>, k: nat)
    requires MultiFrame(p) && InTurn(a, k, ConsecutiveCount(|p|))
    requires NearTurn(a, ConsecutiveCount(|p|))
    ensures Takes(p, Places(p, a), k) && AllConsecutive(Places(p, a))
  {
    var c := Places(p, a);
    forall j | 0 <= j < |a|
      ensures FrameType(c[j]) == 2 && LowNibble(c[j]) == a[j] % 16
    {
      PlaceNumbers(p, a, j);
    }
    if k < |a| && a[k] % 16 == (k + 1) % 16 {
      NearAndCongruent(a[k], k + 1);
    }
  }

  lemma NearAndCongruent(x: nat, y: nat)
    requires -16 < x - y < 16 && x % 16 == y % 16
    ensures x == y
  {
  }

  lemma {:induction false} AssembledInTurn(p: Message, fs: seq<CanFrame>)
    requires MultiFrame(p) && |fs| <= ConsecutiveCount(|p|)
    requires forall j :: 0 <= j < |fs| ==> fs[j] == ConsecutiveFrame(p, j + 1)
    ensures Assembled(p, fs) == p[..Carried(|p|, |fs|)]
    decreases |fs|
  {
    if fs != [] {
      var k := |fs| - 1;
      AssembledInTurn(p, fs[..k]);
      OwnChunk(p, k + 1);
    }
  }

  // ----- Frames that do not matter

  /** Frames the receiver does not act on in any state. */
  predicate Ignored(f: CanFrame) {
    match FrameType(f)
    case 0 => !(0 < LowNibble(f) <= 7)
    case 1 => TotalLength(f) == 0
    case 2 => false
    case _ => true
  }

  ghost function Relevant(fs: seq<CanFrame>): seq<CanFrame> {
    if fs == [] then [] else (if Ignored(fs[0]) then [] else [fs[0]]) + Relevant(fs[1..])
  }

  /** So in every run the ignored frames may be left out, and what is left is of the three kinds above. */
  lemma {:induction false} RelevantDecides(rx: Rx, fs: seq<CanFrame>)
    requires RxValid(rx)
    ensures ProcessAll(rx, fs) == ProcessAll(rx, Relevant(fs))
    decreases |fs|
  {
    if fs != [] {
      var rest := Relevant(fs[1..]);
      if Ignored(fs[0]) {
        assert [] + rest == rest;
        RelevantDecides(rx, fs[1..]);
      } else {
        assert ([fs[0]] + rest)[0] == fs[0] && ([fs[0]] + rest)[1..] == rest;
        RelevantDecides(Process(rx, fs[0]), fs[1..]);
      }
    }
  }
}
