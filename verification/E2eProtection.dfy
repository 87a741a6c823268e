/**
 The end-to-end protection of src/runtime/safety/e2e_protection.c: a sender that numbers its
 frames modulo `maxDelta`, and a receiver that accepts a frame only with the next number, in
 time and with a matching check value. The check value is an arbitrary function of the data;
 the one computed over the header is overwritten before it is used.
 */
module E2eProtection {
  import opened Arithmetic
  import opened Basics

  datatype Config = Config(dataId: nat, minLength: nat, maxLength: nat, maxDelta: nat, timeout: nat) {
    predicate Valid() { minLength <= maxLength && maxLength != 0 && timeout != 0 }
    predicate Accepts(data: seq<Byte>) { minLength <= |data| <= maxLength }
  }

  datatype Frame = Frame(data: seq<Byte>, crc: nat, sequence: nat, dataId: nat)

  datatype Status = Ok | ErrorCrc | ErrorSequence | ErrorTimeout | ErrorConfig

  datatype Phase = Init | Valid | Invalid | Error

  /** What a state record holds once it is initialised. */
  datatype Record = Record(counter: nat, timestamp: nat, phase: Phase)

  const FRESH := Record(0, 0, Init)

  /** E2E_Check on a record. */
  function Checked(c: Config, s: Record, f: Frame, now: nat, crc: seq<Byte> -> nat): (Record, Status)
    requires c.maxDelta > 0
  {
    if !c.Valid() || !c.Accepts(f.data) then (s, ErrorConfig)
    else if (now - s.timestamp) % U32 > c.timeout then (s.(phase := Error), ErrorTimeout)
    else if f.dataId != c.dataId then (s.(phase := Error), ErrorConfig)
    else if f.sequence != (s.counter + 1) % U32 % c.maxDelta then (s.(phase := Invalid), ErrorSequence)
    else if crc(f.data) != f.crc then (s.(phase := Invalid), ErrorCrc)
    else (Record(f.sequence, now, Valid), Ok)
  }

  /** E2E_Protect on a record: the frame, unless the configuration or the data are refused. */
  function Protected(c: Config, s: Record, data: seq<Byte>, now: nat, crc: seq<Byte> -> nat): (Record, Option<Frame>)
    requires c.maxDelta > 0
  {
    if !c.Valid() || !c.Accepts(data) then (s, None)
    else
      var number := (s.counter + 1) % U32 % c.maxDelta;
      (Record(number, now, Valid), Some(Frame(data, crc(data), number, c.dataId)))
  }

  class State {
    var sequenceCounter: nat
    var lastTimestamp: nat
    var phase: Phase

    ghost function Value(): Record
      reads this
    {
      Record(sequenceCounter, lastTimestamp, phase)
    }

    constructor ()
      ensures Value() == FRESH
    {
      sequenceCounter, lastTimestamp, phase := 0, 0, Init;
    }

    method Protect(c: Config, data: seq<Byte>, now: nat, crc: seq<Byte> -> nat)
      returns (status: Status, f: Option<Frame>)
      requires c.maxDelta > 0
      modifies this
      ensures (Value(), f) == Protected(c, old(Value()), data, now, crc)
      ensures status == if f.Some? then Ok else ErrorConfig
    {
      if !c.Valid() || !c.Accepts(data) { return ErrorConfig, None; }
      sequenceCounter := (sequenceCounter + 1) % U32 % c.maxDelta;
      f := Some(Frame(data, crc(data), sequenceCounter, c.dataId));
      lastTimestamp := now;
      phase := Valid;
      status := Ok;
    }

    method Check(c: Config, f: Frame, now: nat, crc: seq<Byte> -> nat) returns (status: Status)
      requires c.maxDelta > 0
      modifies this
      ensures (Value(), status) == Checked(c, old(Value()), f, now, crc)
    {
      if !c.Valid() || !c.Accepts(f.data) { return ErrorConfig; }
      if (now - lastTimestamp) % U32 > c.timeout {
        phase := Error;
        return ErrorTimeout;
      }
      if f.dataId != c.dataId {
        phase := Error;
        return ErrorConfig;
      }
      var expected := (sequenceCounter + 1) % U32 % c.maxDelta;
      if f.sequence != expected {
        phase := Invalid;
        return ErrorSequence;
      }
      if crc(f.data) != f.crc {
        phase := Invalid;
        return ErrorCrc;
      }
      sequenceCounter, lastTimestamp, phase := f.sequence, now, Valid;
      return Ok;
    }
  }

  // ----- Frames of one sender

  /** One call of E2E_Protect. */
  datatype Call = Call(data: seq<Byte>, now: nat)

  /** The record after a run of calls, and the frames that were produced. */
  ghost function ProtectAll(c: Config, s: Record, calls: seq<Call>, crc: seq<Byte> -> nat): (Record, seq<Frame>)
    requires c.maxDelta > 0
    decreases |calls|
  {
    if calls == [] then (s, [])
    else
      var (s', f) := Protected(c, s, calls[0].data, calls[0].now, crc);
      var (last, fs) := ProtectAll(c, s', calls[1..], crc);
      (last, (if f.Some? then [f.value] else []) + fs)
  }

  /** The data of the calls that are not refused. */
  function Payloads(c: Config, calls: seq<Call>): seq<seq<Byte>> {
    if calls == [] then []
    else (if c.Valid() && c.Accepts(calls[0].data) then [calls[0].data] else []) + Payloads(c, calls[1..])
  }

  /** The frame with number `i`. */
  function Sent(c: Config, i: nat, data: seq<Byte>, crc: seq<Byte> -> nat): Frame
    requires c.maxDelta > 0
  {
    Frame(data, crc(data), i % c.maxDelta, c.dataId)
  }

  lemma NextNumber(c: Config, i: nat)
    requires 0 < c.maxDelta < U32
    ensures (i % c.maxDelta + 1) % U32 % c.maxDelta == (i + 1) % c.maxDelta
  {
    var m := c.maxDelta;
    var r := i % m;
    assert (r + 1) % U32 == r + 1;
    SuccDivMod(i, m);
    SuccDivMod(r, m);
    DivModUnique(r, m, 0, r);
  }

  /** The frames carry the payloads and the numbers from `j + 1` on. */
  ghost predicate NumberedFrom(c: Config, fs: seq<Frame>, payloads: seq<seq<Byte>>, j: nat, crc: seq<Byte> -> nat)
    requires c.maxDelta > 0
  {
    |fs| == |payloads| && forall i :: 0 <= i < |fs| ==> fs[i] == Sent(c, j + 1 + i, payloads[i], crc)
  }

  lemma NumberedFirst(c: Config, f: Frame, fs: seq<Frame>, data: seq<Byte>, payloads: seq<seq<Byte>>, j: nat,
                      crc: seq<Byte> -> nat)
    requires c.maxDelta > 0 && f == Sent(c, j + 1, data, crc) && NumberedFrom(c, fs, payloads, j + 1, crc)
    ensures NumberedFrom(c, [f] + fs, [data] + payloads, j, crc)
  {
  }

  /** However many calls are refused, the frames produced carry the accepted data and count up from `j + 1`. */
  lemma {:induction false} ProtectNumbers(c: Config, s: Record, calls: seq<Call>, j: nat, crc: seq<Byte> -> nat)
    requires 0 < c.maxDelta < U32 && s.counter == j % c.maxDelta
    ensures
      var (last, fs) := ProtectAll(c, s, calls, crc);
      NumberedFrom(c, fs, Payloads(c, calls), j, crc) && last.counter == (j + |fs|) % c.maxDelta
    decreases |calls|
  {
    if calls != [] {
      var (s', f) := Protected(c, s, calls[0].data, calls[0].now, crc);
      var rest, payloads := ProtectAll(c, s', calls[1..], crc).1, Payloads(c, calls[1..]);
      if f.Some? {
        NextNumber(c, j);
        ProtectNumbers(c, s', calls[1..], j + 1, crc);
        NumberedFirst(c, f.value, rest, calls[0].data, payloads, j, crc);
      } else {
        ProtectNumbers(c, s', calls[1..], j, crc);
        assert [] + rest == rest && [] + payloads == payloads;
      }
    }
  }

  /** Every frame has the number of its place, counted from 1, and the check value of its data. */
  ghost predicate Numbered(c: Config, fs: seq<Frame>, crc: seq<Byte> -> nat)
    requires c.maxDelta > 0
  {
    forall i :: 0 <= i < |fs| ==> fs[i] == Sent(c, i + 1, fs[i].data, crc)
  }

  /** All frames of a sender that starts fresh. */
  ghost function Produced(c: Config, calls: seq<Call>, crc: seq<Byte> -> nat): (fs: seq<Frame>)
    requires 0 < c.maxDelta < U32
    ensures Numbered(c, fs, crc)
    ensures |fs| == |Payloads(c, calls)| && forall i :: 0 <= i < |fs| ==> fs[i].data == Payloads(c, calls)[i]
  {
    ProtectNumbers(c, FRESH, calls, 0, crc);
    ProtectAll(c, FRESH, calls, crc).1
  }

  lemma AddMod(x: int, m: nat)
    requires 0 < m
    ensures (x + m) % m == x % m
  {
    var q, r := x / m, x % m;
    assert x + m == (q + 1) * m + r;
    DivModUnique(x + m, m, q + 1, r);
  }

  // ----- Any arrivals of those frames

  /** At time `now` a frame arrives that was sent in place `index` and is possibly changed on the way. */
  datatype Arrival = Arrival(index: nat, frame: Frame, now: nat)

  ghost predicate Known(fs: seq<Frame>, arrivals: seq<Arrival>) {
    forall k :: 0 <= k < |arrivals| ==> arrivals[k].index < |fs|
  }

  /** The record after the arrivals, and those that were accepted. */
  ghost function Run(c: Config, s: Record, arrivals: seq<Arrival>, crc: seq<Byte> -> nat): (Record, seq<Arrival>)
    requires c.maxDelta > 0
    decreases |arrivals|
  {
    if arrivals == [] then (s, [])
    else
      var (s', status) := Checked(c, s, arrivals[0].frame, arrivals[0].now, crc);
      var (last, accepted) := Run(c, s', arrivals[1..], crc);
      (last, (if status == Ok then [arrivals[0]] else []) + accepted)
  }

  predicate InTime(c: Config, s: Record, now: nat) { (now - s.timestamp) % U32 <= c.timeout }

  /** The frame has the number `n`, modulo the range, the right id and the check value of its own data. */
  predicate Consistent(c: Config, f: Frame, n: nat, crc: seq<Byte> -> nat)
    requires c.maxDelta > 0
  {
    f.sequence == n % c.maxDelta && f.dataId == c.dataId && f.crc == crc(f.data)
  }

  /** After `j` accepted frames, a frame is accepted exactly if it is in time and consistent with number `j + 1`. */
  lemma AcceptedIff(c: Config, s: Record, f: Frame, now: nat, j: nat, crc: seq<Byte> -> nat)
    requires 0 < c.maxDelta < U32 && s.counter == j % c.maxDelta
    ensures
      var (s', status) := Checked(c, s, f, now, crc);
      && (status == Ok <==>
            c.Valid() && c.Accepts(f.data) && InTime(c, s, now) && Consistent(c, f, j + 1, crc))
      && (status == Ok ==> s'.counter == (j + 1) % c.maxDelta && s'.timestamp == now)
      && (status != Ok ==> s'.counter == s.counter && s'.timestamp == s.timestamp)
  {
    NextNumber(c, j);
  }

  /** The configuration makes sense and the data have a length it allows. */
  predicate Usable(c: Config, data: seq<Byte>) {
    c.minLength <= c.maxLength && 0 < c.maxLength && 0 < c.timeout && c.minLength <= |data| <= c.maxLength
  }

  /** When a frame gets which answer, and the phase that is left behind. */
  lemma AnswerIff(c: Config, s: Record, f: Frame, now: nat, j: nat, crc: seq<Byte> -> nat)
    requires 0 < c.maxDelta < U32 && s.counter == j % c.maxDelta
    ensures
      var (s', answer) := Checked(c, s, f, now, crc);
      var usable, inTime := Usable(c, f.data), InTime(c, s, now);
      var ours, awaited := f.dataId == c.dataId, f.sequence == (j + 1) % c.maxDelta;
      && (answer == ErrorTimeout <==> usable && !inTime)
      && (answer == ErrorConfig <==> !usable || (inTime && !ours))
      && (answer == ErrorSequence <==> usable && inTime && ours && !awaited)
      && (answer == ErrorCrc <==> usable && inTime && ours && awaited && f.crc != crc(f.data))
      && (answer == Ok <==> usable && inTime && ours && awaited && f.crc == crc(f.data))
      && s'.phase == if !usable then s.phase
                     else if !inTime || !ours then Error
                     else if awaited && f.crc == crc(f.data) then Valid else Invalid
  {
    NextNumber(c, j);
  }

  /** Protecting fails exactly for data that are not usable; then nothing changes. */
  lemma ProtectAnswerIff(c: Config, s: Record, data: seq<Byte>, now: nat, j: nat, crc: seq<Byte> -> nat)
    requires 0 < c.maxDelta < U32 && s.counter == j % c.maxDelta
    ensures Protected(c, s, data, now, crc) ==
            if Usable(c, data)
            then (Record((j + 1) % c.maxDelta, now, Valid),
                  Some(Frame(data, crc(data), (j + 1) % c.maxDelta, c.dataId)))
            else (s, None)
  {
    NextNumber(c, j);
  }

  /** The answers to a run of arrivals. */
  ghost function Answers(c: Config, s: Record, arrivals: seq<Arrival>, crc: seq<Byte> -> nat): (r: seq<Status>)
    requires c.maxDelta > 0
    ensures |r| == |arrivals|
    decreases |arrivals|
  {
    if arrivals == [] then []
    else
      var (s', answer) := Checked(c, s, arrivals[0].frame, arrivals[0].now, crc);
      [answer] + Answers(c, s', arrivals[1..], crc)
  }

  /** No arrival from index `k` on is usable. */
  ghost predicate UnusableFrom(c: Config, arrivals: seq<Arrival>, k: nat) {
    forall l :: k <= l < |arrivals| ==> !Usable(c, arrivals[l].frame.data)
  }

  /** Arrival `k` is accepted and nothing usable came after it. */
  ghost predicate LastAccepted(c: Config, s: Record, arrivals: seq<Arrival>, k: nat, crc: seq<Byte> -> nat)
    requires c.maxDelta > 0
  {
    k < |arrivals| && Answers(c, s, arrivals, crc)[k] == Ok && UnusableFrom(c, arrivals, k + 1)
  }

  /** After any run the receiver is in the valid phase exactly if the last usable frame was accepted. */
  lemma {:induction false} ValidIff(c: Config, s: Record, arrivals: seq<Arrival>, crc: seq<Byte> -> nat)
    requires c.maxDelta > 0
    ensures Run(c, s, arrivals, crc).0.phase == Valid <==>
            || (s.phase == Valid && UnusableFrom(c, arrivals, 0))
            || exists k: nat :: LastAccepted(c, s, arrivals, k, crc)
    decreases |arrivals|
  {
    if arrivals != [] {
      var s' := Checked(c, s, arrivals[0].frame, arrivals[0].now, crc).0;
      ValidIff(c, s', arrivals[1..], crc);
      ValidFirst(c, s, arrivals, crc);
    }
  }

  lemma UnusableLater(c: Config, arrivals: seq<Arrival>, k: nat)
    requires arrivals != []
    ensures UnusableFrom(c, arrivals[1..], k) <==> UnusableFrom(c, arrivals, k + 1)
  {
    var rest := arrivals[1..];
    assert forall l :: 0 <= l < |rest| ==> rest[l] == arrivals[l + 1];
    if UnusableFrom(c, rest, k) {
      forall l | k + 1 <= l < |arrivals|
        ensures !Usable(c, arrivals[l].frame.data)
      {
        assert rest[l - 1] == arrivals[l];
      }
    }
  }

  lemma ValidFirst(c: Config, s: Record, arrivals: seq<Arrival>, crc: seq<Byte> -> nat)
    requires c.maxDelta > 0 && arrivals != []
    ensures
      var s' := Checked(c, s, arrivals[0].frame, arrivals[0].now, crc).0;
      var rest := arrivals[1..];
      ((s'.phase == Valid && UnusableFrom(c, rest, 0)) || exists k: nat :: LastAccepted(c, s', rest, k, crc)) <==>
      ((s.phase == Valid && UnusableFrom(c, arrivals, 0)) || exists k: nat :: LastAccepted(c, s, arrivals, k, crc))
  {
    var (s', answer) := Checked(c, s, arrivals[0].frame, arrivals[0].now, crc);
    var rest := arrivals[1..];
    UnusableLater(c, arrivals, 0);
    assert UnusableFrom(c, arrivals, 0) <==> !Usable(c, arrivals[0].frame.data) && UnusableFrom(c, arrivals, 1);
    forall k: nat
      ensures LastAccepted(c, s', rest, k, crc) <==> LastAccepted(c, s, arrivals, k + 1, crc)
    {
      UnusableLater(c, arrivals, k + 1);
    }
    if k: nat :| LastAccepted(c, s, arrivals, k, crc) {
      assert k == 0 || LastAccepted(c, s', rest, k - 1, crc);
    }
    if s'.phase == Valid && UnusableFrom(c, rest, 0) && answer == Ok {
      assert LastAccepted(c, s, arrivals, 0, crc);
    }
  }

  /** When only the data of a frame change, it must be a frame whose turn it is and the check value must not show it. */
  lemma DamagedDataAcceptedIff(c: Config, s: Record, fs: seq<Frame>, i: nat, data: seq<Byte>, now: nat, j: nat,
                               crc: seq<Byte> -> nat)
    requires 0 < c.maxDelta < U32 && s.counter == j % c.maxDelta && Numbered(c, fs, crc) && i < |fs|
    ensures Checked(c, s, fs[i].(data := data), now, crc).1 == Ok <==>
            && c.Valid() && c.Accepts(data) && InTime(c, s, now)
            && (i + 1) % c.maxDelta == (j + 1) % c.maxDelta && crc(data) == crc(fs[i].data)
  {
    AcceptedIff(c, s, fs[i].(data := data), now, j, crc);
  }

  /**
   The check value does not cover the number: when only the number of a frame changes, whichever
   frame it is, the frame is accepted exactly if the new number is the awaited one.
   */
  lemma DamagedNumberAcceptedIff(c: Config, s: Record, fs: seq<Frame>, i: nat, number: nat, now: nat, j: nat,
                                 crc: seq<Byte> -> nat)
    requires c.Valid() && 0 < c.maxDelta < U32 && s.counter == j % c.maxDelta && Numbered(c, fs, crc) && i < |fs|
    requires c.Accepts(fs[i].data) && InTime(c, s, now)
    ensures Checked(c, s, fs[i].(sequence := number), now, crc).1 == Ok <==> number == (j + 1) % c.maxDelta
  {
    AcceptedIff(c, s, fs[i].(sequence := number), now, j, crc);
  }

  /**
   The `k`-th accepted frame is consistent with the `k`-th awaited number. So if its number is
   the one it was sent with, it was sent in the `k`-th awaited place modulo the range.
   */
  ghost predicate CountsUp(c: Config, fs: seq<Frame>, accepted: seq<Arrival>, j: nat, crc: seq<Byte> -> nat)
    requires c.maxDelta > 0 && Known(fs, accepted)
  {
    forall k :: 0 <= k < |accepted| ==> Awaited(c, fs, accepted[k], j + 1 + k, crc)
  }

  ghost predicate Awaited(c: Config, fs: seq<Frame>, a: Arrival, n: nat, crc: seq<Byte> -> nat)
    requires c.maxDelta > 0 && a.index < |fs|
  {
    && Consistent(c, a.frame, n, crc)
    && (a.frame.sequence == fs[a.index].sequence ==> (a.index + 1) % c.maxDelta == n % c.maxDelta)
    && (a.frame.crc == fs[a.index].crc ==> crc(a.frame.data) == crc(fs[a.index].data))
  }

  lemma {:induction false} RunCountsUp(c: Config, s: Record, fs: seq<Frame>, arrivals: seq<Arrival>, j: nat,
                                       crc: seq<Byte> -> nat)
    requires 0 < c.maxDelta < U32 && s.counter == j % c.maxDelta && Numbered(c, fs, crc) && Known(fs, arrivals)
    ensures
      var (last, accepted) := Run(c, s, arrivals, crc);
      && last.counter == (j + |accepted|) % c.maxDelta
      && Known(fs, accepted) && CountsUp(c, fs, accepted, j, crc)
    decreases |arrivals|
  {
    if arrivals != [] {
      var a := arrivals[0];
      AcceptedIff(c, s, a.frame, a.now, j, crc);
      var (s', status) := Checked(c, s, a.frame, a.now, crc);
      RunCountsUp(c, s', fs, arrivals[1..], if status == Ok then j + 1 else j, crc);
      if status == Ok {
        CountsUpFirst(c, fs, a, Run(c, s', arrivals[1..], crc).1, j, crc);
      }
    }
  }

  lemma CountsUpFirst(c: Config, fs: seq<Frame>, a: Arrival, rest: seq<Arrival>, j: nat, crc: seq<Byte> -> nat)
    requires c.maxDelta > 0 && a.index < |fs| && Known(fs, rest) && CountsUp(c, fs, rest, j + 1, crc)
    requires Numbered(c, fs, crc) && Consistent(c, a.frame, j + 1, crc)
    ensures Known(fs, [a] + rest) && CountsUp(c, fs, [a] + rest, j, crc)
  {
    var all := [a] + rest;
    assert Awaited(c, fs, a, j + 1, crc);
    assert forall k :: 0 < k < |all| ==> all[k] == rest[k - 1];
  }

  /**
   Whatever of a sender's output is lost, repeated, reordered or changed in any field: the
   frames accepted are consistent, and their numbers count up by one modulo `maxDelta`.
   */
  lemma AcceptedCountUp(c: Config, calls: seq<Call>, arrivals: seq<Arrival>, crc: seq<Byte> -> nat)
    requires 0 < c.maxDelta < U32 && Known(Produced(c, calls, crc), arrivals)
    ensures
      var fs, accepted := Produced(c, calls, crc), Run(c, FRESH, arrivals, crc).1;
      Known(fs, accepted) && CountsUp(c, fs, accepted, 0, crc)
  {
    RunCountsUp(c, FRESH, Produced(c, calls, crc), arrivals, 0, crc);
  }

  /** A frame that was just accepted is rejected when it comes again. */
  lemma DuplicateRejected(c: Config, s: Record, f: Frame, now: nat, again: nat, crc: seq<Byte> -> nat)
    requires 2 <= c.maxDelta < U32 && Checked(c, s, f, now, crc).1 == Ok
    ensures Checked(c, Checked(c, s, f, now, crc).0, f, again, crc).1 != Ok
  {
    NextNumber(c, f.sequence);
    SuccDiffers(f.sequence, c.maxDelta);
  }

  lemma SuccDiffers(x: nat, m: nat)
    requires 2 <= m && x < m
    ensures (x + 1) % m != x && x % m == x
  {
    if x + 1 == m {
      assert (x + 1) % m == 0;
    } else {
      assert (x + 1) % m == x + 1;
    }
  }

  // ----- Lossless and lossy runs in order

  /** The frames from place `first` on arrive undamaged and in order. */
  ghost predicate InOrder(fs: seq<Frame>, arrivals: seq<Arrival>, first: nat) {
    first + |arrivals| <= |fs| &&
    forall k :: 0 <= k < |arrivals| ==> arrivals[k].index == first + k && arrivals[k].frame == fs[first + k]
  }

  /** No pause is longer than the timeout. */
  ghost predicate Punctual(c: Config, since: nat, arrivals: seq<Arrival>)
    decreases |arrivals|
  {
    arrivals != [] ==>
      (arrivals[0].now - since) % U32 <= c.timeout && Punctual(c, arrivals[0].now, arrivals[1..])
  }

  /** Everything arrives in order and in time: nothing is rejected. */
  lemma {:induction false} InOrderAccepted(c: Config, s: Record, fs: seq<Frame>, arrivals: seq<Arrival>, j: nat,
                                           crc: seq<Byte> -> nat)
    requires c.Valid() && 0 < c.maxDelta < U32 && s.counter == j % c.maxDelta && Numbered(c, fs, crc)
    requires forall i :: 0 <= i < |fs| ==> c.Accepts(fs[i].data)
    requires InOrder(fs, arrivals, j) && Punctual(c, s.timestamp, arrivals)
    ensures Run(c, s, arrivals, crc).1 == arrivals
    decreases |arrivals|
  {
    if arrivals != [] {
      assert arrivals[0].index == j + 0 && InTime(c, s, arrivals[0].now);
      AcceptedIff(c, s, arrivals[0].frame, arrivals[0].now, j, crc);
      var s' := Checked(c, s, arrivals[0].frame, arrivals[0].now, crc).0;
      var rest := arrivals[1..];
      assert forall k :: 0 <= k < |rest| ==> rest[k] == arrivals[k + 1];
      InOrderAccepted(c, s', fs, rest, j + 1, crc);
      assert arrivals == [arrivals[0]] + rest;
    }
  }

  /** What a sender produces and a receiver gets without loss and in time is accepted in full. */
  lemma LosslessAccepted(c: Config, calls: seq<Call>, arrivals: seq<Arrival>, crc: seq<Byte> -> nat)
    requires c.Valid() && 0 < c.maxDelta < U32 && InOrder(Produced(c, calls, crc), arrivals, 0)
    requires Punctual(c, FRESH.timestamp, arrivals)
    ensures Run(c, FRESH, arrivals, crc).1 == arrivals
  {
    PayloadsAccepted(c, calls);
    InOrderAccepted(c, FRESH, Produced(c, calls, crc), arrivals, 0, crc);
  }

  lemma {:induction false} PayloadsAccepted(c: Config, calls: seq<Call>)
    ensures forall i :: 0 <= i < |Payloads(c, calls)| ==> c.Accepts(Payloads(c, calls)[i])
  {
    if calls != [] {
      PayloadsAccepted(c, calls[1..]);
    }
  }

  /**
   After `gap` lost frames, fewer than `maxDelta`, the following frames are all rejected until
   the number has come round: the first one accepted is `maxDelta - gap` frames later.
   */
  lemma {:induction false} GapRejectsUntilWrap(c: Config, s: Record, fs: seq<Frame>, arrivals: seq<Arrival>, j: nat,
                                               gap: nat, crc: seq<Byte> -> nat)
    requires 0 < c.maxDelta < U32 && s.counter == j % c.maxDelta && Numbered(c, fs, crc)
    requires 0 < gap < c.maxDelta && |arrivals| <= c.maxDelta - gap && InOrder(fs, arrivals, j + gap)
    ensures
      var (last, accepted) := Run(c, s, arrivals, crc);
      accepted == [] && last.counter == s.counter && last.timestamp == s.timestamp
    decreases |arrivals|
  {
    if arrivals != [] {
      AcceptedIff(c, s, arrivals[0].frame, arrivals[0].now, j, crc);
      ApartModulo(j + 1, gap, c.maxDelta);
      var s' := Checked(c, s, arrivals[0].frame, arrivals[0].now, crc).0;
      var rest := arrivals[1..];
      assert forall k :: 0 <= k < |rest| ==> rest[k] == arrivals[k + 1];
      if rest != [] {
        GapRejectsUntilWrap(c, s', fs, rest, j, gap + 1, crc);
      }
    }
  }

  lemma ApartModulo(x: nat, gap: nat, m: nat)
    requires 0 < gap < m
    ensures (x + gap) % m != x % m
  {
    var q, r := x / m, x % m;
    assert x == q * m + r;
    if r + gap < m {
      DivModUnique(x + gap, m, q, r + gap);
    } else {
      assert (q + 1) * m == q * m + m;
      DivModUnique(x + gap, m, q + 1, r + gap - m);
    }
  }

  lemma WrapAccepted(c: Config, s: Record, fs: seq<Frame>, a: Arrival, j: nat, crc: seq<Byte> -> nat)
    requires c.Valid() && 0 < c.maxDelta < U32 && s.counter == j % c.maxDelta && InTime(c, s, a.now)
    requires Numbered(c, fs, crc) && a.index == j + c.maxDelta < |fs|
    requires a.frame == fs[a.index] && c.Accepts(a.frame.data)
    ensures Checked(c, s, a.frame, a.now, crc).1 == Ok
  {
    AcceptedIff(c, s, a.frame, a.now, j, crc);
    AddMod(j + 1, c.maxDelta);
  }

  // ----- A missed deadline is final

  /**
   Rejected frames do not move the timestamp, so once a frame is late every later one is late
   too, until the 32-bit clock has come round. `at` are arrival times on a clock that does not wrap.
   */
  lemma {:induction false} LateForGood(c: Config, s: Record, start: nat, arrivals: seq<Arrival>, at: seq<nat>,
                                       crc: seq<Byte> -> nat)
    requires c.maxDelta > 0 && s.timestamp == start % U32 && |at| == |arrivals|
    requires forall k :: 0 <= k < |at| ==> arrivals[k].now == at[k] % U32 && c.timeout < at[k] - start < U32
    ensures Run(c, s, arrivals, crc).1 == []
    decreases |arrivals|
  {
    if arrivals != [] {
      ClockDifference(at[0], start);
      assert c.timeout < at[0] - start < U32;
      var s' := Checked(c, s, arrivals[0].frame, arrivals[0].now, crc).0;
      LateForGood(c, s', start, arrivals[1..], at[1..], crc);
    }
  }

  lemma ClockDifference(t: nat, start: nat)
    requires start <= t < start + U32
    ensures (t % U32 - start % U32) % U32 == t - start
  {
  }
}
