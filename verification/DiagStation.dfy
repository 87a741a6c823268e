/**
 The station of src/runtime/diagnostic/diag_transport.c as a whole: which frames do not matter
 to a reception, so that flow control for a response can come in the middle of a request, and
 how the state of the sender follows from what happened before.
 */
module DiagStation {
  import opened Basics
  import opened DiagDelivery
  import opened DiagTransport
  import opened IsoTpFrames

  // ----- Frames that do not matter to the receiver

  /** Empty frames, single frames that name no length from 1 to 7, flow control and unknown types. */
  predicate Ignored(f: CanFrame) {
    f.dlc == 0 || f.data[0] == 0 || 8 <= f.data[0] < 16 || 48 <= f.data[0]
  }

  lemma IgnoredChangesNothing(rx: Rx, f: CanFrame, blockSize: nat)
    requires RxValid(rx) && Ignored(f)
    ensures Step(rx, f, blockSize) == (rx, [])
  {
  }

  /** Every other frame matters to some receiver. */
  lemma OthersMatter(f: CanFrame, blockSize: nat) returns (rx: Rx)
    requires !Ignored(f)
    ensures RxValid(rx) && Step(rx, f, blockSize) != (rx, [])
  {
    rx := Rx(true, Zeros(BUFFER_SIZE), 6, 8, (LowNibble(f) + 1) % 16, 0, 0);
  }

  function Relevant(fs: seq<CanFrame>): seq<CanFrame> {
    if fs == [] then [] else (if Ignored(fs[0]) then [] else [fs[0]]) + Relevant(fs[1..])
  }

  /** In every run they can be left out: reception, answers and deliveries are the same. */
  lemma {:induction false} RelevantDecides(rx: Rx, fs: seq<CanFrame>, blockSize: nat)
    requires RxValid(rx)
    ensures Run(rx, fs, blockSize) == Run(rx, Relevant(fs), blockSize)
    decreases |fs|
  {
    if fs != [] {
      var rest := Relevant(fs[1..]);
      var next := Step(rx, fs[0], blockSize).0;
      RelevantDecides(next, fs[1..], blockSize);
      if Ignored(fs[0]) {
        IgnoredChangesNothing(rx, fs[0], blockSize);
        assert [] + rest == rest && [] + Run(rx, rest, blockSize).1 == Run(rx, rest, blockSize).1;
      } else {
        assert ([fs[0]] + rest)[0] == fs[0] && ([fs[0]] + rest)[1..] == rest;
      }
    }
  }

  /**
   Any events of a station: calls, flow control, unknown and empty frames, between the arrivals
   `s` of frames of any messages. What is delivered is what arrived intact exactly if no transfer
   is completed with other frames than its own.
   */
  lemma StationDeliversIntactIff(station: Station, es: seq<Event>, s: seq<Sent>, blockSize: nat)
    requires RxValid(station.rx) && !station.rx.receiving && Relevant(FramesIn(es)) == FramesOf(s)
    ensures RunOn(station, es, blockSize).1 == Intact([], s) <==> SpliceCount(Nothing, s) == 0
  {
    RunIsReceiverRun(station, es, blockSize);
    RelevantDecides(station.rx, FramesIn(es), blockSize);
    IntactDeliveredIff(station.rx, s, blockSize);
  }

  /**
   A first frame may name fewer bytes than it carries, even none: it is answered with flow
   control, and a consecutive frame with number 1 delivers what is named, any other nothing.
   */
  lemma ShortFirstFrame(rx: Rx, f: CanFrame, g: CanFrame, blockSize: nat)
    requires RxValid(rx) && f.dlc != 0 && FrameType(f) == 1 && TotalLength(f) < 8 && g.dlc != 0 && FrameType(g) == 2
    ensures
      var (first, out) := Step(rx, f, blockSize);
      && out == [] && first.flowControls == rx.flowControls + 1
      && Step(first, g, blockSize).1 ==
         (if LowNibble(g) == 1 then [(f.data[2..8] + [g.data[1]])[..TotalLength(f)]] else [])
      && !Step(first, g, blockSize).0.receiving
  {
    var first := Step(rx, f, blockSize).0;
    var n := TotalLength(f);
    if LowNibble(g) == 1 {
      var copied := Overwrite(first.buffer, 6, g.data[1..1 + CopyLength(first)]);
      assert copied[..n] == (f.data[2..8] + [g.data[1]])[..n];
    }
  }

  // ----- What happens to the sender

  /** A response that needs flow control, the two answers of the peer, or a call that ends everything. */
  datatype Signal = Start(length: nat) | Continue | Overflow | Stop | Other

  /** What an event is to the sender; `out` are the requests it delivers. */
  function SignalOf(e: Event, out: seq<Message>): Signal {
    match e
    case Send(length) => if 7 < length then Start(length) else Other
    case Abort => Stop
    case Arrive(f, reply) =>
      if out != [] then if reply.Positive? && 7 < reply.length then Start(reply.length) else Other
      else if f.dlc == 0 then Other
      else if f.data[0] == 0x30 then Continue
      else if f.data[0] == 0x32 then Overflow
      else Other
  }

  ghost function Signals(s: Station, es: seq<Event>, blockSize: nat): (r: seq<Signal>)
    requires RxValid(s.rx)
    ensures |r| == |es|
    decreases |es|
  {
    if es == [] then []
    else
      ReceiverIsStep(s, es[0], blockSize);
      var (next, out) := On(s, es[0], blockSize);
      [SignalOf(es[0], out)] + Signals(next, es[1..], blockSize)
  }

  function Moved(tx: Tx, signal: Signal): Tx {
    match signal
    case Start(length) => if tx.phase == Idle then Tx(Waiting, length) else tx
    case Continue => if tx.phase == Waiting then tx.(phase := Sending) else tx
    case Overflow => if tx.phase == Waiting then QUIET else tx
    case Stop => QUIET
    case Other => tx
  }

  /** The sender after signals, the last one last. */
  ghost function After(tx: Tx, signals: seq<Signal>): Tx
    decreases |signals|
  {
    if signals == [] then tx else Moved(After(tx, signals[..|signals| - 1]), signals[|signals| - 1])
  }

  lemma {:induction false} AfterFirst(tx: Tx, first: Signal, rest: seq<Signal>)
    ensures After(tx, [first] + rest) == After(Moved(tx, first), rest)
    decreases |rest|
  {
    var all := [first] + rest;
    if rest == [] {
      assert all[..0] == [];
    } else {
      var k := |rest| - 1;
      assert all[..k + 1] == [first] + rest[..k] && all[k + 1] == rest[k];
      AfterFirst(tx, first, rest[..k]);
    }
  }

  lemma OneSignal(s: Station, e: Event, blockSize: nat)
    requires RxValid(s.rx)
    ensures
      var (next, out) := On(s, e, blockSize);
      next.tx == Moved(s.tx, SignalOf(e, out))
  {
  }

  lemma {:induction false} SenderFollows(s: Station, es: seq<Event>, blockSize: nat)
    requires RxValid(s.rx)
    ensures RunOn(s, es, blockSize).0.tx == After(s.tx, Signals(s, es, blockSize))
    decreases |es|
  {
    if es != [] {
      ReceiverIsStep(s, es[0], blockSize);
      OneSignal(s, es[0], blockSize);
      var (next, out) := On(s, es[0], blockSize);
      SenderFollows(next, es[1..], blockSize);
      AfterFirst(s.tx, SignalOf(es[0], out), Signals(next, es[1..], blockSize));
    }
  }

  // ----- The state of the sender as a matter of history

  /** Nothing from index `from` up to index `to` ends the waiting. */
  ghost predicate StillWaiting(signals: seq<Signal>, from: nat, to: nat) {
    forall j :: from <= j < to && j < |signals| ==> signals[j].Start? || signals[j].Other?
  }

  ghost predicate NoStop(signals: seq<Signal>, from: nat) {
    forall j :: from <= j < |signals| ==> !signals[j].Stop?
  }

  /** Signal `i` starts a response of that length, with no earlier one unfinished. */
  ghost predicate Starts(signals: seq<Signal>, i: nat, length: nat) {
    i < |signals| && signals[i] == Start(length) && After(QUIET, signals[..i]).phase == Idle
  }

  /** The response that signal `i` starts still waits for flow control at the end. */
  ghost predicate Waits(signals: seq<Signal>, i: nat, length: nat) {
    Starts(signals, i, length) && StillWaiting(signals, i + 1, |signals|)
  }

  /** The response that signal `i` starts is allowed to continue by signal `j`, and not aborted since. */
  ghost predicate Continues(signals: seq<Signal>, i: nat, j: nat, length: nat) {
    && Starts(signals, i, length) && i < j < |signals| && StillWaiting(signals, i + 1, j)
    && signals[j].Continue? && NoStop(signals, j + 1)
  }

  /** A response is under way: it waits for the peer, or it may be sent. */
  ghost predicate Unfinished(signals: seq<Signal>) {
    || (exists i: nat, length: nat :: Waits(signals, i, length))
    || (exists i: nat, j: nat, length: nat :: Continues(signals, i, j, length))
  }

  lemma {:induction false} WaitsMeansWaiting(signals: seq<Signal>, i: nat, length: nat)
    requires Waits(signals, i, length)
    ensures After(QUIET, signals) == Tx(Waiting, length)
    decreases |signals|
  {
    var k := |signals| - 1;
    var shorter := signals[..k];
    if i < k {
      assert shorter[..i] == signals[..i];
      WaitsMeansWaiting(shorter, i, length);
      assert signals[k].Start? || signals[k].Other?;
    }
  }

  lemma {:induction false} ContinuesMeansSending(signals: seq<Signal>, i: nat, j: nat, length: nat)
    requires Continues(signals, i, j, length)
    ensures After(QUIET, signals) == Tx(Sending, length)
    decreases |signals|
  {
    var k := |signals| - 1;
    var shorter := signals[..k];
    assert shorter[..i] == signals[..i];
    if j < k {
      ContinuesMeansSending(shorter, i, j, length);
      assert !signals[k].Stop?;
    } else {
      assert Waits(shorter, i, length);
      WaitsMeansWaiting(shorter, i, length);
    }
  }

  lemma {:induction false} WaitingSince(signals: seq<Signal>) returns (i: nat)
    requires After(QUIET, signals).phase == Waiting
    ensures Waits(signals, i, After(QUIET, signals).length)
    decreases |signals|
  {
    var k := |signals| - 1;
    var shorter := signals[..k];
    if After(QUIET, shorter).phase == Idle {
      i := k;
    } else {
      i := WaitingSince(shorter);
      assert shorter[..i] == signals[..i];
      assert signals[k].Start? || signals[k].Other?;
    }
  }

  lemma {:induction false} SendingSince(signals: seq<Signal>) returns (i: nat, j: nat)
    requires After(QUIET, signals).phase == Sending
    ensures Continues(signals, i, j, After(QUIET, signals).length)
    decreases |signals|
  {
    var k := |signals| - 1;
    var shorter := signals[..k];
    if After(QUIET, shorter).phase == Waiting {
      i := WaitingSince(shorter);
      j := k;
    } else {
      i, j := SendingSince(shorter);
    }
    assert shorter[..i] == signals[..i];
  }

  /**
   In every run of a quiet station the sender waits exactly if a response of more than 7 bytes
   was started while none was unfinished and the peer has not answered since, and may send
   exactly if the peer let such a response continue and it was not aborted since.
   */
  lemma SenderHistory(s: Station, es: seq<Event>, blockSize: nat, length: nat)
    requires RxValid(s.rx) && s.tx == QUIET
    ensures
      var signals, tx := Signals(s, es, blockSize), RunOn(s, es, blockSize).0.tx;
      && (tx == Tx(Waiting, length) <==> exists i: nat :: Waits(signals, i, length))
      && (tx == Tx(Sending, length) <==> exists i: nat, j: nat :: Continues(signals, i, j, length))
      && (tx.phase == Idle <==> !Unfinished(signals))
  {
    SenderFollows(s, es, blockSize);
    var signals := Signals(s, es, blockSize);
    HistoryDecides(signals, length);
    HistoryIdle(signals);
  }

  lemma HistoryDecides(signals: seq<Signal>, length: nat)
    ensures After(QUIET, signals) == Tx(Waiting, length) <==> exists i: nat :: Waits(signals, i, length)
    ensures After(QUIET, signals) == Tx(Sending, length) <==>
            exists i: nat, j: nat :: Continues(signals, i, j, length)
  {
    if i: nat :| Waits(signals, i, length) {
      WaitsMeansWaiting(signals, i, length);
    }
    if i: nat, j: nat :| Continues(signals, i, j, length) {
      ContinuesMeansSending(signals, i, j, length);
    }
    if After(QUIET, signals) == Tx(Waiting, length) {
      var i := WaitingSince(signals);
    }
    if After(QUIET, signals) == Tx(Sending, length) {
      var i, j := SendingSince(signals);
    }
  }

  lemma HistoryIdle(signals: seq<Signal>)
    ensures After(QUIET, signals).phase == Idle <==> !Unfinished(signals)
  {
    var tx := After(QUIET, signals);
    HistoryDecides(signals, tx.length);
    forall i: nat, length: nat | Waits(signals, i, length)
      ensures tx.phase == Waiting
    {
      WaitsMeansWaiting(signals, i, length);
    }
    forall i: nat, j: nat, length: nat | Continues(signals, i, j, length)
      ensures tx.phase == Sending
    {
      ContinuesMeansSending(signals, i, j, length);
    }
  }

  /** So a response is taken exactly if it is not empty and none is unfinished, and is out at once up to 7 bytes. */
  lemma ResponseTakenIff(s: Station, es: seq<Event>, blockSize: nat, length: nat)
    requires RxValid(s.rx) && s.tx == QUIET
    ensures
      var now := RunOn(s, es, blockSize).0;
      var (next, ok) := SendResponse(now, length);
      && (ok <==> 0 < length && !Unfinished(Signals(s, es, blockSize)))
      && (ok && length <= 7 ==> next == now) && (ok && 7 < length ==> next == now.(tx := Tx(Waiting, length)))
      && (!ok ==> next == if length == 0 then now else now.(lastError := BusyError))
  {
    SenderHistory(s, es, blockSize, length);
  }
}
