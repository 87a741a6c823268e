/**
 What the receiver of src/runtime/diagnostic/diag_transport.c delivers when frames of any
 messages are lost, repeated, reordered and mixed. The sequence number has four bits, so a
 frame that is not due can be taken for the one that is; the main result says exactly when
 that matters.
 */
module DiagDelivery {
  import opened Arithmetic
  import opened Basics
  import opened DiagTransport
  import opened IsoTpFrames

  // ----- Arrivals and what was really sent

  /** Frame `i` of a message: 0 the single or first frame, `i` the `i`-th consecutive one. */
  datatype Arrival = Arrival(message: Message, i: nat)

  type Sent = a: Arrival | 0 < |a.message| <= MAX_PAYLOAD && a.i <= LastFrame(a.message)
    witness Arrival([0], 0)

  function LastFrame(p: Message): nat { if |p| <= 7 then 0 else ConsecutiveCount(|p|) }

  function FrameOf(a: Sent): CanFrame {
    if |a.message| <= 7 then SingleFrame(a.message) else FrameAt(a.message, a.i)
  }

  ghost function FramesOf(s: seq<Sent>): (fs: seq<CanFrame>)
    ensures |fs| == |s|
  {
    if s == [] then [] else [FrameOf(s[0])] + FramesOf(s[1..])
  }

  /** The frames are those the sender puts on the bus. */
  lemma FrameOfSegmented(a: Sent)
    ensures a.i < |Segmented(a.message)| && FrameOf(a) == Segmented(a.message)[a.i]
  {
  }

  /** Frames `from` to `to` of a message, in order. */
  ghost function Frames(p: Message, from: nat, to: nat): (r: seq<Sent>)
    requires MultiFrame(p) && from <= to + 1 <= ConsecutiveCount(|p|) + 1
    ensures |r| == to + 1 - from && forall j :: 0 <= j < |r| ==> r[j] == Arrival(p, from + j)
  {
    seq(to + 1 - from, j requires 0 <= j < to + 1 - from => Arrival(p, from + j))
  }

  ghost function Whole(p: Message): seq<Sent>
    requires MultiFrame(p)
  {
    Frames(p, 0, ConsecutiveCount(|p|))
  }

  /** The multi-frame arrivals since the last first frame. */
  ghost function Since(h: seq<Sent>, a: Sent): seq<Sent> {
    if |a.message| <= 7 then h else if a.i == 0 then [a] else h + [a]
  }

  ghost function Emitted(h: seq<Sent>, a: Sent): seq<Message> {
    if |a.message| <= 7 || Since(h, a) == Whole(a.message) then [a.message] else []
  }

  /**
   What a receiver should deliver: every single-frame message, and every message whose frames
   have arrived in order with no frame of a multi-frame message between them.
   */
  ghost function Intact(h: seq<Sent>, s: seq<Sent>): seq<Message>
    decreases |s|
  {
    if s == [] then []
    else
      Emitted(h, s[0]) + Intact(Since(h, s[0]), s[1..])
  }

  // ----- What the receiver does, as seen from the bus

  /** Idle, or in the middle of a transfer: the message of its first frame and the frames accepted since. */
  datatype Track = Nothing | Filling(message: Message, accepted: seq<Sent>)

  ghost predicate TrackValid(t: Track) {
    t.Filling? ==> MultiFrame(t.message) && |t.accepted| < ConsecutiveCount(|t.message|)
  }

  /** The number on the frame is the expected one. */
  predicate Fits(t: Track, a: Sent) {
    t.Filling? && 7 < |a.message| && 0 < a.i && a.i % 16 == (|t.accepted| + 1) % 16
  }

  /** The frame is the last one the transfer waits for. */
  predicate Completes(t: Track, a: Sent) {
    Fits(t, a) && |t.accepted| + 1 == LastFrame(t.message)
  }

  ghost function Next(t: Track, a: Sent): (t': Track)
    requires TrackValid(t)
    ensures TrackValid(t')
  {
    if |a.message| <= 7 then t
    else if a.i == 0 then Filling(a.message, [])
    else if !Fits(t, a) || Completes(t, a) then Nothing
    else Filling(t.message, t.accepted + [a])
  }

  ghost function Delivered(t: Track, a: Sent): seq<Message>
    requires TrackValid(t)
  {
    if |a.message| <= 7 then [a.message]
    else if Completes(t, a) then [Assembled(t.message, FramesOf(t.accepted + [a]))]
    else []
  }

  ghost function Deliveries(t: Track, s: seq<Sent>): seq<Message>
    requires TrackValid(t)
    decreases |s|
  {
    if s == [] then [] else Delivered(t, s[0]) + Deliveries(Next(t, s[0]), s[1..])
  }

  lemma FramesMore(accepted: seq<Sent>, a: Sent)
    ensures FramesOf(accepted + [a]) == FramesOf(accepted) + [FrameOf(a)]
  {
    FramesOfConcat(accepted, [a]);
    assert [a][1..] == [] && FramesOf([a]) == [FrameOf(a)] + [];
  }

  lemma {:induction false} FramesOfConcat(s: seq<Sent>, s': seq<Sent>)
    ensures FramesOf(s + s') == FramesOf(s) + FramesOf(s')
  {
    if s == [] {
      assert s + s' == s' && [] + FramesOf(s') == FramesOf(s');
    } else {
      assert (s + s')[0] == s[0] && (s + s')[1..] == s[1..] + s';
      FramesOfConcat(s[1..], s');
    }
  }

  /** A transfer of its own frames assembles the message. */
  lemma {:induction false} AssembledOwn(p: Message, k: nat)
    requires MultiFrame(p) && k <= ConsecutiveCount(|p|)
    ensures Assembled(p, FramesOf(Frames(p, 1, k))) == p[..Carried(|p|, k)]
  {
    if k > 0 {
      var own := Frames(p, 1, k - 1);
      AssembledOwn(p, k - 1);
      assert Frames(p, 1, k) == own + [Arrival(p, k)];
      FramesMore(own, Arrival(p, k));
      AssembledMore(p, FramesOf(own), ConsecutiveFrame(p, k));
      OwnChunk(p, k);
    }
  }

  // ----- The receiver follows the track

  ghost predicate Holds(rx: Rx, t: Track) {
    && RxValid(rx) && TrackValid(t) && rx.receiving == t.Filling?
    && (t.Filling? ==>
          && rx.expected == |t.message| && rx.index == Carried(|t.message|, |t.accepted|)
          && rx.sequence == (|t.accepted| + 1) % 16
          && rx.buffer[..rx.index] == Assembled(t.message, FramesOf(t.accepted)))
  }

  lemma FirstFrameHolds(rx: Rx, p: Message, blockSize: nat)
    requires RxValid(rx) && MultiFrame(p)
    ensures
      var (next, out) := Step(rx, FirstFrame(p), blockSize);
      && Holds(next, Filling(p, [])) && out == []
      && next.blockCounter == rx.blockCounter && next.flowControls == rx.flowControls + 1
  {
    FirstFrameFields(p);
  }

  lemma CopyReaches(rx: Rx, t: Track)
    requires Holds(rx, t) && t.Filling?
    ensures rx.index + CopyLength(rx) == Carried(|t.message|, |t.accepted| + 1)
  {
    CarriedAllIff(|t.message|, |t.accepted|);
  }

  lemma CopyExtends(rx: Rx, t: Track, a: Sent)
    requires Holds(rx, t) && t.Filling?
    ensures
      var bytes := FrameOf(a).data[1..1 + CopyLength(rx)];
      && rx.index + |bytes| <= BUFFER_SIZE
      && Overwrite(rx.buffer, rx.index, bytes)[..rx.index + |bytes|] == Assembled(t.message, FramesOf(t.accepted + [a]))
  {
    CopyReaches(rx, t);
    FramesMore(t.accepted, a);
    AssembledMore(t.message, FramesOf(t.accepted), FrameOf(a));
    OverwritePrefix(rx.buffer, rx.index, FrameOf(a).data[1..1 + CopyLength(rx)]);
  }

  /** An accepted frame, whichever it is, adds its bytes; the last one completes the transfer. */
  lemma AcceptExtends(rx: Rx, t: Track, a: Sent, blockSize: nat)
    requires Holds(rx, t) && Fits(t, a)
    ensures
      var (next, out) := Accept(rx, FrameOf(a), blockSize);
      Holds(next, Next(t, a)) && out == Delivered(t, a)
  {
    CopyReaches(rx, t);
    CopyExtends(rx, t, a);
    var n := CopyLength(rx);
    var copied := rx.(buffer := Overwrite(rx.buffer, rx.index, FrameOf(a).data[1..1 + n]), index := rx.index + n);
    AdvanceFollows(copied, t, a, blockSize);
  }

  /** The receiver when the bytes of an accepted frame have been copied. */
  ghost predicate Copied(rx: Rx, t: Track, a: Sent) {
    && TrackValid(t) && Fits(t, a) && rx.receiving && |rx.buffer| == BUFFER_SIZE && rx.blockCounter < U8
    && rx.expected == |t.message| && rx.index == Carried(|t.message|, |t.accepted| + 1)
    && rx.sequence == (|t.accepted| + 1) % 16
    && rx.buffer[..rx.index] == Assembled(t.message, FramesOf(t.accepted + [a]))
  }

  lemma AdvanceFollows(rx: Rx, t: Track, a: Sent, blockSize: nat)
    requires Copied(rx, t, a)
    ensures
      var (next, out) := Advance(rx, blockSize);
      Holds(next, Next(t, a)) && out == Delivered(t, a)
  {
    CarriedAllIff(|t.message|, |t.accepted| + 1);
    if !Completes(t, a) {
      AdvanceContinues(rx, t, a, blockSize);
    }
  }

  lemma AdvanceContinues(rx: Rx, t: Track, a: Sent, blockSize: nat)
    requires Copied(rx, t, a) && !Completes(t, a)
    ensures
      var (next, out) := Advance(rx, blockSize);
      Holds(next, Filling(t.message, t.accepted + [a])) && out == []
  {
    var k, accepted := |t.accepted|, t.accepted + [a];
    CarriedAllIff(|t.message|, k + 1);
    AdvanceMoves(rx, k, blockSize);
    assert |accepted| == k + 1;
  }

  lemma AdvanceMoves(rx: Rx, k: nat, blockSize: nat)
    requires |rx.buffer| == BUFFER_SIZE && 6 <= rx.index < rx.expected <= MAX_PAYLOAD && rx.sequence == (k + 1) % 16
    ensures
      var (next, out) := Advance(rx, blockSize);
      && next.sequence == (k + 2) % 16 && out == [] && RxValid(next)
      && next == rx.(sequence := next.sequence, blockCounter := next.blockCounter, flowControls := next.flowControls)
  {
  }

  lemma SingleFollows(rx: Rx, t: Track, a: Sent, blockSize: nat)
    requires Holds(rx, t) && |a.message| <= 7
    ensures Step(rx, FrameOf(a), blockSize) == (rx, Delivered(t, a))
  {
    SingleFrameFields(a.message);
  }

  lemma ConsecutiveFollows(rx: Rx, t: Track, a: Sent, blockSize: nat)
    requires Holds(rx, t) && 7 < |a.message| && 0 < a.i
    ensures
      var (next, out) := Step(rx, FrameOf(a), blockSize);
      Holds(next, Next(t, a)) && out == Delivered(t, a)
  {
    ConsecutiveFrameFields(a.message, a.i);
    if Fits(t, a) {
      AcceptExtends(rx, t, a, blockSize);
    }
  }

  lemma StepFollows(rx: Rx, t: Track, a: Sent, blockSize: nat)
    requires Holds(rx, t)
    ensures
      var (next, out) := Step(rx, FrameOf(a), blockSize);
      Holds(next, Next(t, a)) && out == Delivered(t, a)
  {
    if |a.message| <= 7 {
      SingleFollows(rx, t, a, blockSize);
    } else if a.i == 0 {
      FirstFrameHolds(rx, a.message, blockSize);
    } else {
      ConsecutiveFollows(rx, t, a, blockSize);
    }
  }

  /** For any arrivals at all, the receiver delivers what the track says, byte for byte. */
  lemma {:induction false} RunFollows(rx: Rx, t: Track, s: seq<Sent>, blockSize: nat)
    requires Holds(rx, t)
    ensures Run(rx, FramesOf(s), blockSize).1 == Deliveries(t, s)
    decreases |s|
  {
    if s != [] {
      StepFollows(rx, t, s[0], blockSize);
      assert FramesOf(s)[1..] == FramesOf(s[1..]);
      RunFollows(Step(rx, FrameOf(s[0]), blockSize).0, Next(t, s[0]), s[1..], blockSize);
    }
  }

  // ----- Exactly when only intact messages are delivered

  /** A transfer is completed with other frames than its own. */
  ghost predicate Splices(t: Track, a: Sent)
    requires TrackValid(t)
  {
    Completes(t, a) && t.accepted + [a] != Frames(t.message, 1, ConsecutiveCount(|t.message|))
  }

  ghost function SpliceCount(t: Track, s: seq<Sent>): nat
    requires TrackValid(t)
    decreases |s|
  {
    if s == [] then 0 else (if Splices(t, s[0]) then 1 else 0) + SpliceCount(Next(t, s[0]), s[1..])
  }

  /** The frames `h` are the first `k + 1` of a message, but not all. */
  ghost predicate Begins(h: seq<Sent>, p: Message, k: nat) {
    MultiFrame(p) && k < ConsecutiveCount(|p|) && h == Frames(p, 0, k)
  }

  /** The frames since the last first frame are those of the transfer, or can no longer begin a message. */
  ghost predicate Matches(t: Track, h: seq<Sent>) {
    match t
    case Filling(p, accepted) => 7 < |p| <= MAX_PAYLOAD && h == [Arrival(p, 0)] + accepted
    case Nothing => forall p: Message, k: nat :: !Begins(h, p, k)
  }

  lemma BeginsLonger(h: seq<Sent>, a: Sent, p: Message, k: nat)
    requires MultiFrame(p) && k <= ConsecutiveCount(|p|) && 0 < a.i && h + [a] == Frames(p, 0, k)
    ensures 0 < k && Begins(h, p, k - 1) && a == Arrival(p, k)
  {
    assert (h + [a])[|h|] == a && a == Arrival(p, |h|);
    assert forall j :: 0 <= j < |h| ==> h[j] == (h + [a])[j];
  }

  /** The frames of the transfer are all of its message exactly if the consecutive ones are its own. */
  lemma WholeIff(p: Message, accepted: seq<Sent>, q: Message, k: nat)
    requires MultiFrame(p) && MultiFrame(q) && k <= ConsecutiveCount(|q|)
    ensures [Arrival(p, 0)] + accepted == Frames(q, 0, k) <==> p == q && accepted == Frames(p, 1, k)
  {
    var h: seq<Sent> := [Arrival(p, 0)] + accepted;
    if h == Frames(q, 0, k) {
      assert h[0] == Arrival(q, 0);
      assert forall j :: 0 <= j < |accepted| ==> accepted[j] == h[j + 1];
    }
  }

  lemma MatchesNext(t: Track, h: seq<Sent>, a: Sent)
    requires TrackValid(t) && Matches(t, h)
    ensures Matches(Next(t, a), Since(h, a))
  {
    var h' := Since(h, a);
    if 7 < |a.message| && 0 < a.i {
      if Next(t, a).Filling? {
        assert h + [a] == [Arrival(t.message, 0)] + (t.accepted + [a]);
      } else {
        forall p: Message, k: nat
          ensures !Begins(h', p, k)
        {
          if Begins(h', p, k) {
            NotContinued(t, h, a, p, k);
          }
        }
      }
    }
  }

  /** A frame that ends the transfer does not continue the beginning of a message. */
  lemma NotContinued(t: Track, h: seq<Sent>, a: Sent, p: Message, k: nat)
    requires TrackValid(t) && Matches(t, h) && 7 < |a.message| && 0 < a.i && Next(t, a).Nothing?
    requires MultiFrame(p) && k < ConsecutiveCount(|p|)
    ensures h + [a] != Frames(p, 0, k)
  {
    if h + [a] == Frames(p, 0, k) {
      BeginsLonger(h, a, p, k);
      if t.Filling? {
        WholeIff(t.message, t.accepted, p, k - 1);
      }
    }
  }

  /** A step delivers what is intact, or one message more. */
  lemma EmittedUnlessSpliced(t: Track, h: seq<Sent>, a: Sent)
    requires TrackValid(t) && Matches(t, h)
    ensures if Splices(t, a) then |Delivered(t, a)| == 1 && Emitted(h, a) == [] else Delivered(t, a) == Emitted(h, a)
  {
    var p := a.message;
    if |p| <= 7 {
    } else if a.i == 0 {
      assert |Whole(p)| > 1;
    } else if Completes(t, a) {
      CompletedIntact(t, h, a);
    } else {
      IncompleteNotWhole(t, h, a);
    }
  }

  lemma CompletedIntact(t: Track, h: seq<Sent>, a: Sent)
    requires TrackValid(t) && Matches(t, h) && Completes(t, a)
    ensures if Splices(t, a) then Emitted(h, a) == [] else Delivered(t, a) == [a.message] == Emitted(h, a)
  {
    var n := ConsecutiveCount(|t.message|);
    var accepted := t.accepted + [a];
    assert h + [a] == [Arrival(t.message, 0)] + accepted;
    WholeIff(t.message, accepted, a.message, ConsecutiveCount(|a.message|));
    if accepted == Frames(t.message, 1, n) {
      assert accepted[n - 1] == Arrival(t.message, n);
      AssembledOwn(t.message, n);
      CarriedAllIff(|t.message|, n);
      assert t.message[..|t.message|] == t.message;
    }
  }

  lemma IncompleteNotWhole(t: Track, h: seq<Sent>, a: Sent)
    requires TrackValid(t) && Matches(t, h) && 7 < |a.message| && 0 < a.i && !Completes(t, a)
    ensures h + [a] != Whole(a.message)
  {
    var p, n := a.message, ConsecutiveCount(|a.message|);
    if h + [a] == Whole(p) {
      BeginsLonger(h, a, p, n);
      if t.Filling? {
        WholeIff(t.message, t.accepted, p, n - 1);
      }
    }
  }

  /** Every spliced transfer adds one delivery, and without one the deliveries are the intact messages. */
  lemma {:induction false} SplicesCounted(t: Track, h: seq<Sent>, s: seq<Sent>)
    requires TrackValid(t) && Matches(t, h)
    ensures |Deliveries(t, s)| == |Intact(h, s)| + SpliceCount(t, s)
    ensures SpliceCount(t, s) == 0 ==> Deliveries(t, s) == Intact(h, s)
    decreases |s|
  {
    if s != [] {
      MatchesNext(t, h, s[0]);
      EmittedUnlessSpliced(t, h, s[0]);
      SplicesCounted(Next(t, s[0]), Since(h, s[0]), s[1..]);
    }
  }

  /**
   For any loss, repetition, reordering and mixing of any messages: the receiver delivers
   exactly the intact messages if and only if no transfer is completed by, or after, a frame
   taken for the one that was due; and it never delivers fewer.
   */
  lemma IntactDeliveredIff(rx: Rx, s: seq<Sent>, blockSize: nat)
    requires RxValid(rx) && !rx.receiving
    ensures
      var out := Run(rx, FramesOf(s), blockSize).1;
      && |out| == |Intact([], s)| + SpliceCount(Nothing, s)
      && (out == Intact([], s) <==> SpliceCount(Nothing, s) == 0)
  {
    RunFollows(rx, Nothing, s, blockSize);
    SplicesCounted(Nothing, [], s);
  }

  /** The same from any state, when the first arrival is a first frame. */
  lemma RestartDeliveredIff(rx: Rx, s: seq<Sent>, blockSize: nat)
    requires RxValid(rx) && s != [] && 7 < |s[0].message| && s[0].i == 0
    ensures
      var out := Run(rx, FramesOf(s), blockSize).1;
      && out == Deliveries(Nothing, s)
      && |out| == |Intact([], s)| + SpliceCount(Nothing, s)
      && (out == Intact([], s) <==> SpliceCount(Nothing, s) == 0)
  {
    FirstFrameHolds(rx, s[0].message, blockSize);
    assert FramesOf(s)[1..] == FramesOf(s[1..]);
    RunFollows(Step(rx, FrameOf(s[0]), blockSize).0, Next(Nothing, s[0]), s[1..], blockSize);
    SplicesCounted(Nothing, [], s);
  }

  // ----- Arrivals of one message

  /** Indices of frames of a message. */
  ghost predicate Indices(p: Message, a: seq<nat>) {
    MultiFrame(p) && forall j :: 0 <= j < |a| ==> a[j] <= ConsecutiveCount(|p|)
  }

  ghost function Arrivals(p: Message, a: seq<nat>): (s: seq<Sent>)
    requires Indices(p, a)
    ensures |s| == |a|
  {
    if a == [] then [] else [Arrival(p, a[0])] + Arrivals(p, a[1..])
  }

  ghost function Received(rx: Rx, p: Message, a: seq<nat>, blockSize: nat): (Rx, seq<Message>)
    requires RxValid(rx) && Indices(p, a)
  {
    Run(rx, FramesOf(Arrivals(p, a)), blockSize)
  }

  /** The numbers `k + 1` to `n`. */
  ghost function After(k: int, n: nat): (r: seq<nat>)
    requires -1 <= k <= n
    ensures |r| == n - k && forall i :: 0 <= i < |r| ==> r[i] == k + 1 + i
    decreases n - k
  {
    if k == n then [] else [k + 1] + After(k + 1, n)
  }

  /** The transfer of a message after its first `k` consecutive frames. */
  ghost function InOrder(p: Message, k: nat): (t: Track)
    requires MultiFrame(p) && k < ConsecutiveCount(|p|)
    ensures TrackValid(t)
  {
    Filling(p, Frames(p, 1, k))
  }

  lemma DueMoves(p: Message, k: nat)
    requires MultiFrame(p) && k < ConsecutiveCount(|p|)
    ensures
      var t, a := InOrder(p, k), Arrival(p, k + 1);
      if k + 1 < ConsecutiveCount(|p|) then Next(t, a) == InOrder(p, k + 1) && Delivered(t, a) == []
      else Next(t, a) == Nothing && Delivered(t, a) == [p]
  {
    var n := ConsecutiveCount(|p|);
    assert Frames(p, 1, k) + [Arrival(p, k + 1)] == Frames(p, 1, k + 1);
    AssembledOwn(p, k + 1);
    CarriedAllIff(|p|, k + 1);
    assert p[..|p|] == p;
  }

  lemma DeliveriesFirst(t: Track, p: Message, a: seq<nat>)
    requires TrackValid(t) && Indices(p, a) && a != []
    ensures
      var first := Arrival(p, a[0]);
      && TrackValid(Next(t, first))
      && Deliveries(t, Arrivals(p, a)) == Delivered(t, first) + Deliveries(Next(t, first), Arrivals(p, a[1..]))
  {
    assert Arrivals(p, a)[1..] == Arrivals(p, a[1..]);
  }

  /** A due frame that is not the last delivers nothing yet. */
  lemma DueDeliveries(p: Message, k: nat, a: seq<nat>)
    requires Indices(p, a) && a != [] && a[0] == k + 1 < ConsecutiveCount(|p|)
    ensures Deliveries(InOrder(p, k), Arrivals(p, a)) == Deliveries(InOrder(p, k + 1), Arrivals(p, a[1..]))
  {
    DeliveriesFirst(InOrder(p, k), p, a);
    DueMoves(p, k);
    var rest := Deliveries(InOrder(p, k + 1), Arrivals(p, a[1..]));
    assert [] + rest == rest;
  }

  /** Frames in order move the transfer on, whatever follows them. */
  lemma {:induction false} InOrderMoves(p: Message, k: nat, l: nat, a: seq<nat>)
    requires Indices(p, a) && k <= l < ConsecutiveCount(|p|) && l - k <= |a|
    requires forall j :: 0 <= j < l - k ==> a[j] == k + 1 + j
    ensures Deliveries(InOrder(p, k), Arrivals(p, a)) == Deliveries(InOrder(p, l), Arrivals(p, a[l - k..]))
    decreases l - k
  {
    if k == l {
      assert a[0..] == a;
    } else {
      DueDeliveries(p, k, a);
      InOrderMoves(p, k + 1, l, a[1..]);
      assert a[1..][l - k - 1..] == a[l - k..];
    }
  }

  /** Too few further frames, whichever they are, complete nothing. */
  lemma {:induction false} TooFewDeliverNothing(t: Track, p: Message, a: seq<nat>)
    requires TrackValid(t) && Indices(p, a) && forall j :: 0 <= j < |a| ==> 0 < a[j]
    requires t.Filling? ==> |a| < ConsecutiveCount(|t.message|) - |t.accepted|
    ensures Deliveries(t, Arrivals(p, a)) == []
    decreases |a|
  {
    if a != [] {
      DeliveriesFirst(t, p, a);
      TooFewDeliverNothing(Next(t, Arrival(p, a[0])), p, a[1..]);
    }
  }

  ghost predicate Increasing(a: seq<nat>) {
    forall i, j :: 0 <= i < j < |a| ==> a[i] < a[j]
  }

  /** Strictly increasing numbers above `k` and up to `n` are all of them, or fewer. */
  lemma {:induction false} FewerUnlessAll(a: seq<nat>, k: int, n: nat)
    requires -1 <= k <= n && Increasing(a) && forall j :: 0 <= j < |a| ==> k < a[j] <= n
    ensures a == After(k, n) || |a| < n - k
    decreases n - k
  {
    if k < n {
      var rest := if a != [] && a[0] == k + 1 then a[1..] else a;
      FewerUnlessAll(rest, k + 1, n);
      assert After(k, n) == [k + 1] + After(k + 1, n);
      assert a != [] ==> a == [a[0]] + a[1..];
    }
  }

  /** The remaining frames, in order, complete the transfer. */
  lemma {:induction false} InOrderCompletes(p: Message, k: nat, a: seq<nat>)
    requires Indices(p, a) && k < ConsecutiveCount(|p|) == k + |a| && forall j :: 0 <= j < |a| ==> a[j] == k + 1 + j
    ensures Deliveries(InOrder(p, k), Arrivals(p, a)) == [p]
    decreases |a|
  {
    if |a| == 1 {
      DeliveriesFirst(InOrder(p, k), p, a);
      DueMoves(p, k);
    } else {
      DueDeliveries(p, k, a);
      InOrderCompletes(p, k + 1, a[1..]);
    }
  }

  lemma FirstMoves(p: Message, a: seq<nat>)
    requires Indices(p, a) && a != [] && a[0] == 0
    ensures Deliveries(Nothing, Arrivals(p, a)) == Deliveries(InOrder(p, 0), Arrivals(p, a[1..]))
  {
    DeliveriesFirst(Nothing, p, a);
    assert Next(Nothing, Arrival(p, 0)) == InOrder(p, 0);
    var rest := Deliveries(InOrder(p, 0), Arrivals(p, a[1..]));
    assert [] + rest == rest;
  }

  /**
   Whatever state the receiver is in, and whichever consecutive frames are lost: the message
   is delivered when all its frames arrive, and otherwise nothing is.
   */
  lemma LossDelivery(rx: Rx, p: Message, a: seq<nat>, blockSize: nat)
    requires RxValid(rx) && Indices(p, a) && Increasing(a) && a != [] && a[0] == 0
    ensures Received(rx, p, a, blockSize).1 == if a == After(-1, ConsecutiveCount(|p|)) then [p] else []
  {
    RestartDeliveredIff(rx, Arrivals(p, a), blockSize);
    LossDeliveries(p, a);
  }

  lemma LossDeliveries(p: Message, a: seq<nat>)
    requires Indices(p, a) && Increasing(a) && a != [] && a[0] == 0
    ensures Deliveries(Nothing, Arrivals(p, a)) == if a == After(-1, ConsecutiveCount(|p|)) then [p] else []
  {
    FirstMoves(p, a);
    LossCases(p, a);
    if a == After(-1, ConsecutiveCount(|p|)) {
      InOrderCompletes(p, 0, a[1..]);
    } else {
      TooFewDeliverNothing(InOrder(p, 0), p, a[1..]);
    }
  }

  lemma LossCases(p: Message, a: seq<nat>)
    requires Indices(p, a) && Increasing(a) && a != [] && a[0] == 0
    ensures
      var n := ConsecutiveCount(|p|);
      && (forall j :: 0 <= j < |a[1..]| ==> 0 < a[1..][j])
      && if a == After(-1, n) then a[1..] == After(0, n) else |a[1..]| < n
  {
    var n := ConsecutiveCount(|p|);
    FewerUnlessAll(a[1..], 0, n);
    assert a == [0] + a[1..];
  }

  /** All frames in order deliver the message, whatever state the receiver is in. */
  lemma WholeDelivered(rx: Rx, p: Message, blockSize: nat)
    requires RxValid(rx) && MultiFrame(p)
    ensures Received(rx, p, After(-1, ConsecutiveCount(|p|)), blockSize).1 == [p]
  {
    LossDelivery(rx, p, After(-1, ConsecutiveCount(|p|)), blockSize);
  }

  /** Without its first frame an idle receiver delivers nothing of a message. */
  lemma LostFirstFrame(rx: Rx, p: Message, a: seq<nat>, blockSize: nat)
    requires RxValid(rx) && !rx.receiving && Indices(p, a) && forall j :: 0 <= j < |a| ==> 0 < a[j]
    ensures Received(rx, p, a, blockSize).1 == []
  {
    RunFollows(rx, Nothing, Arrivals(p, a), blockSize);
    TooFewDeliverNothing(Nothing, p, a);
  }

  // ----- Frames near their turn

  /**
   Every consecutive frame arrives within 15 places of its turn: `since` arrivals lie
   between it and the last first frame (-1 when there was none).
   */
  ghost predicate InWindow(since: int, a: seq<nat>)
    requires -1 <= since
    decreases |a|
  {
    a != [] ==>
      if a[0] == 0 then InWindow(0, a[1..])
      else if since == -1 then InWindow(-1, a[1..])
      else -16 < a[0] - (since + 1) < 16 && InWindow(since + 1, a[1..])
  }

  /** Inside the window the number tells frames apart, so nothing is spliced. */
  lemma {:induction false} WindowNeverSplices(t: Track, p: Message, a: seq<nat>, since: int)
    requires TrackValid(t) && Indices(p, a) && -1 <= since && InWindow(since, a)
    requires t.Filling? ==> 0 <= since < ConsecutiveCount(|p|) && t == InOrder(p, since)
    ensures SpliceCount(t, Arrivals(p, a)) == 0
    decreases |a|
  {
    if a != [] {
      var first := Arrival(p, a[0]);
      assert Arrivals(p, a)[1..] == Arrivals(p, a[1..]);
      var since' := if a[0] == 0 then 0 else if since == -1 then -1 else since + 1;
      WindowMoves(t, p, a[0], since);
      WindowNeverSplices(Next(t, first), p, a[1..], since');
    }
  }

  lemma WindowMoves(t: Track, p: Message, i: nat, since: int)
    requires TrackValid(t) && MultiFrame(p) && i <= ConsecutiveCount(|p|) && -1 <= since
    requires t.Filling? ==> 0 <= since < ConsecutiveCount(|p|) && t == InOrder(p, since)
    requires 0 < i && 0 <= since ==> -16 < i - (since + 1) < 16
    ensures
      var a, since' := Arrival(p, i), if i == 0 then 0 else if since == -1 then -1 else since + 1;
      && !Splices(t, a)
      && (Next(t, a).Filling? ==> 0 <= since' < ConsecutiveCount(|p|) && Next(t, a) == InOrder(p, since'))
  {
    if i == 0 {
      assert Frames(p, 1, 0) == [];
    } else if t.Filling? && i == since + 1 {
      assert Frames(p, 1, since) + [Arrival(p, i)] == Frames(p, 1, i);
    }
  }

  /** How often all frames of the message arrive in order and without a break. */
  ghost function Copies(n: nat, a: seq<nat>): nat {
    if |a| <= n then 0 else (if a[..n + 1] == After(-1, n) then 1 else 0) + Copies(n, a[1..])
  }

  ghost function Repeat(p: Message, count: nat): seq<Message> {
    if count == 0 then [] else [p] + Repeat(p, count - 1)
  }

  /** Copies still to come when `k` consecutive frames of one are already in (-1: none begun). */
  ghost function CopiesFrom(k: int, n: nat, a: seq<nat>): nat
    requires -1 <= k < n
  {
    (if 0 <= k && n - k <= |a| && a[..n - k] == After(k, n) then 1 else 0) + Copies(n, a)
  }

  /** How the position in the message moves when frame `i` arrives. */
  function NextPosition(k: int, n: nat, i: nat): int {
    if i == 0 then 0 else if 0 <= k && i == k + 1 < n then k + 1 else -1
  }

  predicate Finishes(k: int, n: nat, i: nat) { 0 <= k && i == k + 1 == n }

  lemma CopiesFromStep(k: int, n: nat, a: seq<nat>)
    requires -1 <= k < n && 0 < n && a != []
    ensures CopiesFrom(k, n, a) ==
            (if Finishes(k, n, a[0]) then 1 else 0) + CopiesFrom(NextPosition(k, n, a[0]), n, a[1..])
  {
    CopiesStep(n, a);
    if 0 <= k && n - k <= |a| {
      AfterStep(k, n, a);
    }
  }

  lemma CopiesStep(n: nat, a: seq<nat>)
    requires 0 < n && a != []
    ensures Copies(n, a) == Copies(n, a[1..]) + if a[0] == 0 && n < |a| && a[1..][..n] == After(0, n) then 1 else 0
  {
    if n < |a| {
      AfterStep(-1, n, a);
    } else {
      assert Copies(n, a[1..]) == 0;
    }
  }

  lemma AfterStep(k: int, n: nat, a: seq<nat>)
    requires -1 <= k < n && n - k <= |a|
    ensures a[..n - k] == After(k, n) <==> a[0] == k + 1 && a[1..][..n - k - 1] == After(k + 1, n)
  {
    assert a[..n - k] == [a[0]] + a[1..][..n - k - 1];
    assert After(k, n) == [k + 1] + After(k + 1, n);
  }

  ghost function TrackAt(p: Message, k: int): (t: Track)
    requires MultiFrame(p) && -1 <= k < ConsecutiveCount(|p|)
    ensures TrackValid(t)
  {
    if k < 0 then Nothing else InOrder(p, k)
  }

  /** One arrival, seen from the intact frames before it. */
  lemma IntactMoves(p: Message, k: int, h: seq<Sent>, i: nat)
    requires MultiFrame(p) && -1 <= k < ConsecutiveCount(|p|) && i <= ConsecutiveCount(|p|) && Matches(TrackAt(p, k), h)
    ensures
      var a, n := Arrival(p, i), ConsecutiveCount(|p|);
      && Matches(TrackAt(p, NextPosition(k, n, i)), Since(h, a))
      && Emitted(h, a) == if Finishes(k, n, i) then [p] else []
  {
    var t, a, n := TrackAt(p, k), Arrival(p, i), ConsecutiveCount(|p|);
    if i == 0 {
      assert Frames(p, 1, 0) == [];
      assert |Whole(p)| > 1;
    } else if 0 <= k && i == k + 1 {
      assert h + [a] == [Arrival(p, 0)] + (Frames(p, 1, k) + [a]);
      assert Frames(p, 1, k) + [a] == Frames(p, 1, i);
      WholeIff(p, Frames(p, 1, i), p, n);
      WholeBeginsNothing(p);
    } else {
      StrangerBreaks(p, k, h, a);
    }
  }

  lemma WholeBeginsNothing(p: Message)
    requires MultiFrame(p)
    ensures Matches(Nothing, [Arrival(p, 0)] + Frames(p, 1, ConsecutiveCount(|p|)))
  {
    var n := ConsecutiveCount(|p|);
    forall q: Message, l: nat | MultiFrame(q) && l < ConsecutiveCount(|q|)
      ensures [Arrival(p, 0)] + Frames(p, 1, n) != Frames(q, 0, l)
    {
      WholeIff(p, Frames(p, 1, n), q, l);
    }
  }

  lemma StrangerBreaks(p: Message, k: int, h: seq<Sent>, a: Sent)
    requires MultiFrame(p) && -1 <= k < ConsecutiveCount(|p|) && Matches(TrackAt(p, k), h)
    requires 7 < |a.message| && 0 < a.i && !(0 <= k && a == Arrival(p, k + 1))
    ensures Matches(Nothing, h + [a]) && h + [a] != Whole(a.message)
  {
    forall q: Message, l: nat | MultiFrame(q) && l <= ConsecutiveCount(|q|)
      ensures h + [a] != Frames(q, 0, l)
    {
      if h + [a] == Frames(q, 0, l) {
        BeginsLonger(h, a, q, l);
        if 0 <= k {
          WholeIff(p, Frames(p, 1, k), q, l - 1);
        }
      }
    }
  }

  /** For one message, being intact is arriving whole and without a break. */
  lemma {:induction false} IntactIsCopies(p: Message, k: int, h: seq<Sent>, a: seq<nat>)
    requires Indices(p, a) && -1 <= k < ConsecutiveCount(|p|) && Matches(TrackAt(p, k), h)
    ensures Intact(h, Arrivals(p, a)) == Repeat(p, CopiesFrom(k, ConsecutiveCount(|p|), a))
    decreases |a|
  {
    var n := ConsecutiveCount(|p|);
    if a != [] {
      IntactMoves(p, k, h, a[0]);
      CopiesFromStep(k, n, a);
      IntactIsCopies(p, NextPosition(k, n, a[0]), Since(h, Arrival(p, a[0])), a[1..]);
      IntactFirst(p, h, a);
      var rest := Repeat(p, CopiesFrom(NextPosition(k, n, a[0]), n, a[1..]));
      assert [] + rest == rest;
    }
  }

  lemma IntactFirst(p: Message, h: seq<Sent>, a: seq<nat>)
    requires Indices(p, a) && a != []
    ensures
      var first := Arrival(p, a[0]);
      Intact(h, Arrivals(p, a)) == Emitted(h, first) + Intact(Since(h, first), Arrivals(p, a[1..]))
  {
    assert Arrivals(p, a)[1..] == Arrivals(p, a[1..]);
  }

  /**
   With every consecutive frame within 15 places of its turn, loss, repetition and
   reordering cannot splice: each unbroken copy of the message is delivered, and nothing else.
   */
  lemma WindowedDelivery(rx: Rx, p: Message, a: seq<nat>, blockSize: nat)
    requires RxValid(rx) && !rx.receiving && Indices(p, a) && InWindow(-1, a)
    ensures Received(rx, p, a, blockSize).1 == Repeat(p, Copies(ConsecutiveCount(|p|), a))
  {
    IntactDeliveredIff(rx, Arrivals(p, a), blockSize);
    WindowNeverSplices(Nothing, p, a, -1);
    IntactIsCopies(p, -1, [], a);
  }

  // ----- Several messages

  /** A message and which of its frames arrive. */
  datatype Transfer = Transfer(message: Message, arrived: seq<nat>)

  /** The first frame and any selection of the others arrive, in order. */
  ghost predicate FirstFrameArrives(t: Transfer) {
    Indices(t.message, t.arrived) && Increasing(t.arrived) && t.arrived != [] && t.arrived[0] == 0
  }

  ghost function Stream(ts: seq<Transfer>): seq<Sent>
    requires forall i :: 0 <= i < |ts| ==> FirstFrameArrives(ts[i])
  {
    if ts == [] then []
    else
      assert FirstFrameArrives(ts[0]);
      Arrivals(ts[0].message, ts[0].arrived) + Stream(ts[1..])
  }

  ghost function Undamaged(ts: seq<Transfer>): seq<Message>
    requires forall i :: 0 <= i < |ts| ==> FirstFrameArrives(ts[i])
  {
    if ts == [] then []
    else
      assert FirstFrameArrives(ts[0]);
      var p := ts[0].message;
      (if ts[0].arrived == After(-1, ConsecutiveCount(|p|)) then [p] else []) + Undamaged(ts[1..])
  }

  /** A stream that loses no first frame delivers exactly its undamaged messages, in order. */
  lemma {:induction false} StreamDelivery(rx: Rx, ts: seq<Transfer>, blockSize: nat)
    requires RxValid(rx) && forall i :: 0 <= i < |ts| ==> FirstFrameArrives(ts[i])
    ensures Run(rx, FramesOf(Stream(ts)), blockSize).1 == Undamaged(ts)
    decreases |ts|
  {
    if ts != [] {
      assert FirstFrameArrives(ts[0]);
      var s := Arrivals(ts[0].message, ts[0].arrived);
      FramesOfConcat(s, Stream(ts[1..]));
      RunConcat(rx, FramesOf(s), FramesOf(Stream(ts[1..])), blockSize);
      LossDelivery(rx, ts[0].message, ts[0].arrived, blockSize);
      StreamDelivery(Run(rx, FramesOf(s), blockSize).0, ts[1..], blockSize);
    }
  }

  // ----- Where the sequence number does not suffice

  /** The last frame is taken for the due one whenever its number fits. */
  lemma LastFrameMixes(p: Message, a: Sent)
    requires MultiFrame(p) && Fits(InOrder(p, ConsecutiveCount(|p|) - 1), a)
    ensures
      var at := Carried(|p|, ConsecutiveCount(|p|) - 1);
      && |p| - at <= 7
      && Deliveries(InOrder(p, ConsecutiveCount(|p|) - 1), [a]) == [p[..at] + FrameOf(a).data[1..1 + |p| - at]]
  {
    var t := InOrder(p, ConsecutiveCount(|p|) - 1);
    AssembledOwn(p, |t.accepted|);
    FramesMore(t.accepted, a);
    AssembledMore(p, FramesOf(t.accepted), FrameOf(a));
    CarriedAllIff(|p|, |t.accepted| + 1);
    DeliveriesOne(t, a);
  }

  lemma DeliveriesOne(t: Track, a: Sent)
    requires TrackValid(t)
    ensures Deliveries(t, [a]) == Delivered(t, a)
  {
    assert [a][1..] == [] && Deliveries(Next(t, a), []) == [];
    assert Deliveries(t, [a]) == Delivered(t, a) + [];
  }

  /** When a first frame is lost, two messages of 20 bytes can be spliced into one. */
  lemma LostFirstFrameSplices(rx: Rx, p: Message, q: Message, blockSize: nat)
    requires RxValid(rx) && |p| == |q| == 20
    ensures Run(rx, FramesOf([Arrival(p, 0), Arrival(p, 1), Arrival(q, 2)]), blockSize).1 == [p[..13] + q[13..]]
  {
    var s: seq<Sent> := [Arrival(p, 0), Arrival(p, 1), Arrival(q, 2)];
    RestartDeliveredIff(rx, s, blockSize);
    MixedDeliveries(p, q, s);
  }

  lemma MixedDeliveries(p: Message, q: Message, s: seq<Sent>)
    requires |p| == |q| == 20 && s == [Arrival(p, 0), Arrival(p, 1), Arrival(q, 2)]
    ensures Deliveries(Nothing, s) == [p[..13] + q[13..]]
  {
    assert s[1..] == [Arrival(p, 1), Arrival(q, 2)];
    assert Frames(p, 1, 0) == [];
    MixedRest(p, q, s[1..]);
    DeliversNothingYet(Nothing, s);
  }

  lemma MixedRest(p: Message, q: Message, s: seq<Sent>)
    requires |p| == |q| == 20 && s == [Arrival(p, 1), Arrival(q, 2)]
    ensures Deliveries(InOrder(p, 0), s) == [p[..13] + q[13..]]
  {
    assert s[1..] == [Arrival(q, 2)];
    DueMoves(p, 0);
    MixedLast(p, q);
    DeliversNothingYet(InOrder(p, 0), s);
  }

  lemma MixedLast(p: Message, q: Message)
    requires |p| == |q| == 20
    ensures Deliveries(InOrder(p, 1), [Arrival(q, 2)]) == [p[..13] + q[13..]]
  {
    LastFrameMixes(p, Arrival(q, 2));
    ConsecutiveFrameFields(q, 2);
    assert q[13..20] == q[13..];
  }

  lemma DeliversNothingYet(t: Track, s: seq<Sent>)
    requires TrackValid(t) && s != [] && Delivered(t, s[0]) == []
    ensures Deliveries(t, s) == Deliveries(Next(t, s[0]), s[1..])
  {
    var rest := Deliveries(Next(t, s[0]), s[1..]);
    assert [] + rest == rest;
  }

  /** When frame 1 arrives again 16 places late, a message can be spliced with itself. */
  lemma LateFrameSplices(rx: Rx, p: Message, a: seq<nat>, blockSize: nat)
    requires RxValid(rx) && |p| == 6 + 7 * 17
    requires |a| == 18 && a[17] == 1 && forall j :: 0 <= j < 17 ==> a[j] == j
    ensures Received(rx, p, a, blockSize).1 == [p[..6 + 7 * 16] + p[6..13]]
  {
    RestartDeliveredIff(rx, Arrivals(p, a), blockSize);
    FirstMoves(p, a);
    InOrderMoves(p, 0, 16, a[1..]);
    assert a[1..][16..] == [1];
    LateDeliveries(p);
  }

  lemma LateDeliveries(p: Message)
    requires |p| == 6 + 7 * 17
    ensures Deliveries(InOrder(p, 16), Arrivals(p, [1])) == [p[..6 + 7 * 16] + p[6..13]]
  {
    assert Arrivals(p, [1]) == [Arrival(p, 1)];
    ConsecutiveFrameFields(p, 1);
    LastFrameMixes(p, Arrival(p, 1));
  }

  // ----- Flow control

  /**
   Flow-control frames answered during the first `k` consecutive frames when the block counter
   starts at `c`. A counter that already reaches the block size makes the first frame end a block,
   unless the increment wraps it to 0.
   */
  function Answers(c: nat, k: nat, blockSize: nat): nat {
    if k == 0 || U8 <= blockSize then 0
    else if blockSize == 0 then k
    else if c < blockSize then (c + k) / blockSize
    else (if c + 1 == U8 then 0 else 1) + (k - 1) / blockSize
  }

  /** Block counter after `k` consecutive frames when it starts at `c`. */
  function CounterAfter(c: nat, k: nat, blockSize: nat): nat {
    if k == 0 then c
    else if U8 <= blockSize then (c + k) % U8
    else if blockSize == 0 then 0
    else if c < blockSize then (c + k) % blockSize
    else (k - 1) % blockSize
  }

  /** What one more frame does to the counter and to the number of answers. */
  predicate Ticks(counter: nat, answers: nat, counter': nat, answers': nat, blockSize: nat) {
    var counted := (counter + 1) % U8;
    && counter' == (if blockSize <= counted then 0 else counted)
    && answers' == answers + if blockSize <= counted then 1 else 0
  }

  ghost predicate Counted(c: nat, k: nat, blockSize: nat) {
    Ticks(CounterAfter(c, k, blockSize), Answers(c, k, blockSize),
          CounterAfter(c, k + 1, blockSize), Answers(c, k + 1, blockSize), blockSize)
  }

  lemma TicksInBlock(counter: nat, answers: nat, counter': nat, answers': nat, blockSize: nat)
    requires counter < blockSize < U8
    requires counter' == if counter + 1 == blockSize then 0 else counter + 1
    requires answers' == answers + if counter + 1 == blockSize then 1 else 0
    ensures Ticks(counter, answers, counter', answers', blockSize)
  {
    assert (counter + 1) % U8 == counter + 1;
  }

  lemma BelowValues(c: nat, k: nat, blockSize: nat)
    requires c < blockSize < U8
    ensures CounterAfter(c, k, blockSize) == (c + k) % blockSize && Answers(c, k, blockSize) == (c + k) / blockSize
  {
    if k == 0 {
      DivModUnique(c, blockSize, 0, c);
    }
  }

  lemma NextQuotient(n: nat, blockSize: nat)
    requires 0 < blockSize < U8
    ensures Ticks(n % blockSize, n / blockSize, (n + 1) % blockSize, (n + 1) / blockSize, blockSize)
  {
    SuccDivMod(n, blockSize);
    TicksInBlock(n % blockSize, n / blockSize, (n + 1) % blockSize, (n + 1) / blockSize, blockSize);
  }

  lemma CountedBelow(c: nat, k: nat, blockSize: nat)
    requires c < blockSize < U8
    ensures Counted(c, k, blockSize)
  {
    BelowValues(c, k, blockSize);
    BelowValues(c, k + 1, blockSize);
    NextQuotient(c + k, blockSize);
  }

  lemma CountedAbove(c: nat, k: nat, blockSize: nat)
    requires 0 < blockSize <= c < U8
    ensures Counted(c, k, blockSize)
  {
    if 0 < k {
      NextQuotient(k - 1, blockSize);
    } else {
      DivModUnique(0, blockSize, 0, 0);
    }
  }

  lemma CounterStep(c: nat, k: nat, blockSize: nat)
    requires c < U8
    ensures Counted(c, k, blockSize)
  {
    if U8 <= blockSize {
      SuccDivMod(c + k, U8);
    } else if c < blockSize {
      CountedBelow(c, k, blockSize);
    } else if 0 < blockSize {
      CountedAbove(c, k, blockSize);
    }
  }

  /** A due frame that is not the last advances the block counter, and is answered when a block is full. */
  lemma DueFrameCounts(rx: Rx, p: Message, k: nat, blockSize: nat)
    requires MultiFrame(p) && k + 1 < ConsecutiveCount(|p|) && Holds(rx, InOrder(p, k))
    ensures
      var next := Step(rx, FrameAt(p, k + 1), blockSize).0;
      && Holds(next, InOrder(p, k + 1))
      && Ticks(rx.blockCounter, rx.flowControls, next.blockCounter, next.flowControls, blockSize)
  {
    var t := InOrder(p, k);
    StepFollows(rx, t, Arrival(p, k + 1), blockSize);
    DueMoves(p, k);
    ConsecutiveFrameFields(p, k + 1);
    CarriedAllIff(|p|, k + 1);
    CopyReaches(rx, t);
  }

  lemma {:induction false} FlowControlsCount(rx: Rx, p: Message, c: nat, k: nat, l: nat, blockSize: nat)
    requires MultiFrame(p) && k <= l < ConsecutiveCount(|p|) && Holds(rx, InOrder(p, k))
    requires c < U8 && rx.blockCounter == CounterAfter(c, k, blockSize)
    ensures
      var next := Received(rx, p, After(k, l), blockSize).0;
      && next.flowControls + Answers(c, k, blockSize) == rx.flowControls + Answers(c, l, blockSize)
      && next.blockCounter == CounterAfter(c, l, blockSize)
    decreases l - k
  {
    if k < l {
      var a := After(k, l);
      assert a[0] == k + 1 && a[1..] == After(k + 1, l);
      CounterStep(c, k, blockSize);
      DueFrameCounts(rx, p, k, blockSize);
      FlowControlsCount(Step(rx, FrameAt(p, k + 1), blockSize).0, p, c, k + 1, l, blockSize);
      ReceivedFirst(rx, p, a, blockSize);
    }
  }

  /**
   A block size of 0 has every consecutive frame but the last answered, a block size above
   255 none; otherwise one answer follows each full block. The counter is not reset by a first
   frame, so a transfer that interrupts another continues the block of that one.
   */
  lemma FlowControlAnswers(rx: Rx, p: Message, k: nat, blockSize: nat)
    requires RxValid(rx) && MultiFrame(p) && k < ConsecutiveCount(|p|)
    ensures
      var next := Received(rx, p, After(-1, k), blockSize).0;
      && next.flowControls == rx.flowControls + 1 + Answers(rx.blockCounter, k, blockSize)
      && next.blockCounter == CounterAfter(rx.blockCounter, k, blockSize)
  {
    var a := After(-1, k);
    assert a[0] == 0 && a[1..] == After(0, k);
    FirstFrameHolds(rx, p, blockSize);
    FlowControlsCount(Step(rx, FirstFrame(p), blockSize).0, p, rx.blockCounter, 0, k, blockSize);
    ReceivedFirst(rx, p, a, blockSize);
  }

  lemma ReceivedFirst(rx: Rx, p: Message, a: seq<nat>, blockSize: nat)
    requires RxValid(rx) && Indices(p, a) && a != []
    ensures Received(rx, p, a, blockSize).0 ==
            Received(Step(rx, FrameAt(p, a[0]), blockSize).0, p, a[1..], blockSize).0
  {
    var s := Arrivals(p, a);
    assert s[1..] == Arrivals(p, a[1..]) && FramesOf(s)[1..] == FramesOf(s[1..]);
  }
}
