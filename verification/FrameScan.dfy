/**
 What the frame parser of src/runtime/network/message_handler.c finds in any bytes at all, said
 without running it: where the frames lie that it takes, which bytes it passes over, where it
 waits, and which damage it notices.
 */
module FrameScan {
  import opened Basics
  import opened FrameStream

  // ----- The checksum

  /** The sum of the bytes as a number. */
  function Total(s: seq<Byte>): nat {
    if s == [] then 0 else Total(s[..|s| - 1]) + s[|s| - 1]
  }

  lemma {:induction false} SumIsTotal(s: seq<Byte>)
    ensures Sum(s) == Total(s) % 256
    decreases |s|
  {
    if s != [] {
      var k := |s| - 1;
      assert s == s[..k] + [s[k]];
      SumIsTotal(s[..k]);
      SumAppend(s[..k], s[k]);
      RemainderAdds(Total(s[..k]), s[k]);
    }
  }

  lemma RemainderAdds(x: nat, y: nat)
    ensures (x % 256 + y) % 256 == (x + y) % 256
  {
  }

  /** A change of one byte always shows in the sum. */
  lemma {:induction false} SumNotices(s: seq<Byte>, k: nat, b: Byte)
    requires k < |s|
    ensures Sum(s[k := b]) == Sum(s) <==> b == s[k]
    decreases |s|
  {
    var s' := s[k := b];
    if k == 0 {
      assert s'[1..] == s[1..];
      AddingDiffers(b, s[0], Sum(s[1..]));
    } else {
      assert s'[1..] == s[1..][k - 1 := b];
      SumNotices(s[1..], k - 1, b);
      AddingDiffers(Sum(s'[1..]), Sum(s[1..]), s[0]);
    }
  }

  lemma AddingDiffers(x: Byte, y: Byte, z: Byte)
    ensures
      var a: int, b: int, c: int := x, y, z;
      ((a + c) % 256 == (b + c) % 256 <==> a == b) && ((c + a) % 256 == (c + b) % 256 <==> a == b)
  {
  }

  // ----- What is found

  /** From `i` on there is a start marker, a length, that many bytes, their sum, and one byte more. */
  predicate Genuine(s: seq<Byte>, i: nat) {
    && i + 4 <= |s| && s[i] == 0x55 && i + s[i + 1] + 4 <= |s|
    && Total(s[i..i + s[i + 1] + 2]) % 256 == s[i + s[i + 1] + 2]
  }

  /** From `i` on fewer bytes are there than a frame has, or than the frame that starts there names. */
  predicate TooShort(s: seq<Byte>, i: nat) {
    i <= |s| && (|s| < i + 4 || (s[i] == 0x55 && |s| < i + s[i + 1] + 4))
  }

  /** Where the frame at `i` ends. */
  function EndOf(s: seq<Byte>, i: nat): nat
    requires i + 1 < |s|
  {
    i + s[i + 1] + 4
  }

  ghost predicate Covered(s: seq<Byte>, at: seq<nat>, i: nat) {
    exists k :: 0 <= k < |at| && at[k] <= i && at[k] + 1 < |s| && i < EndOf(s, at[k])
  }

  predicate Carries(s: seq<Byte>, i: nat, m: Message) { Genuine(s, i) && m == s[i + 2..i + s[i + 1] + 2] }

  /** The messages are the payloads of genuine frames at these places, which do not overlap. */
  ghost predicate Frames(s: seq<Byte>, at: seq<nat>, messages: seq<Message>) {
    && |at| == |messages|
    && (forall k :: 0 <= k < |at| ==> Carries(s, at[k], messages[k]))
    && (forall k, l :: 0 <= k < l < |at| ==> Precedes(s, at[k], at[l]))
  }

  predicate Precedes(s: seq<Byte>, i: nat, j: nat) { i + 1 < |s| && EndOf(s, i) <= j }

  /**
   The whole of what a parser does: it takes the frames at `at`, and stops at `stop`, the first
   place outside them from which too few bytes are left. No genuine frame before that place is
   missed unless it starts inside one that is taken.
   */
  ghost predicate Scanned(s: seq<Byte>, at: seq<nat>, messages: seq<Message>, stop: nat) {
    && Frames(s, at, messages) && TooShort(s, stop) && EndBy(s, at, stop)
    && forall i :: 0 <= i < stop ==> Covered(s, at, i) || Passed(s, i)
  }

  ghost predicate EndBy(s: seq<Byte>, at: seq<nat>, stop: nat) {
    forall k :: 0 <= k < |at| ==> at[k] + 1 < |s| && EndOf(s, at[k]) <= stop
  }

  predicate Passed(s: seq<Byte>, i: nat) { !Genuine(s, i) && !TooShort(s, i) }

  lemma AheadIff(s: seq<Byte>)
    ensures FrameAhead(s) <==> Genuine(s, 0)
    ensures Undecided(s) <==> TooShort(s, 0)
  {
    if 4 <= |s| && Named(s) + 4 <= |s| {
      SumIsTotal(s[..Named(s) + 2]);
      assert s[0..0 + s[1] + 2] == s[..Named(s) + 2];
    }
  }

  /** The same bytes further back. */
  lemma Shifted(s: seq<Byte>, n: nat, i: nat)
    requires n <= |s|
    ensures Genuine(s[n..], i) <==> Genuine(s, n + i)
    ensures TooShort(s[n..], i) <==> TooShort(s, n + i)
  {
    var t := s[n..];
    if i + 4 <= |t| && i + t[i + 1] + 4 <= |t| {
      assert t[i..i + t[i + 1] + 2] == s[n + i..n + i + s[n + i + 1] + 2];
    }
  }

  function Moved(at: seq<nat>, n: nat): (r: seq<nat>)
    ensures |r| == |at| && forall k :: 0 <= k < |at| ==> r[k] == n + at[k]
  {
    seq(|at|, k requires 0 <= k < |at| => n + at[k])
  }

  lemma FramesMoved(s: seq<Byte>, n: nat, at: seq<nat>, messages: seq<Message>)
    requires n <= |s| && Frames(s[n..], at, messages)
    ensures Frames(s, Moved(at, n), messages)
  {
    var t, to := s[n..], Moved(at, n);
    forall k | 0 <= k < |at|
      ensures Carries(s, to[k], messages[k])
    {
      assert Carries(t, at[k], messages[k]);
      Shifted(s, n, at[k]);
      assert t[at[k] + 2..at[k] + t[at[k] + 1] + 2] == s[to[k] + 2..to[k] + s[to[k] + 1] + 2];
    }
    forall k, l | 0 <= k < l < |at|
      ensures Precedes(s, to[k], to[l])
    {
      assert Precedes(t, at[k], at[l]);
    }
  }

  lemma CoveredMoved(s: seq<Byte>, n: nat, at: seq<nat>, i: nat)
    requires n <= |s| && Covered(s[n..], at, i)
    ensures Covered(s, Moved(at, n), n + i)
  {
    var k :| 0 <= k < |at| && at[k] <= i && at[k] + 1 < |s[n..]| && i < EndOf(s[n..], at[k]);
    assert Moved(at, n)[k] == n + at[k];
  }

  lemma EndMoved(s: seq<Byte>, n: nat, at: seq<nat>, stop: nat)
    requires n <= |s| && EndBy(s[n..], at, stop)
    ensures EndBy(s, Moved(at, n), n + stop)
  {
    var to := Moved(at, n);
    forall k | 0 <= k < |to|
      ensures to[k] + 1 < |s| && EndOf(s, to[k]) <= n + stop
    {
      assert at[k] + 1 < |s[n..]| && EndOf(s[n..], at[k]) <= stop;
    }
  }

  lemma PassedMoved(s: seq<Byte>, n: nat, at: seq<nat>, messages: seq<Message>, stop: nat, i: nat)
    requires n <= |s| && Scanned(s[n..], at, messages, stop) && i < stop
    ensures Covered(s, Moved(at, n), n + i) || Passed(s, n + i)
  {
    if Covered(s[n..], at, i) {
      CoveredMoved(s, n, at, i);
    } else {
      Shifted(s, n, i);
    }
  }

  /** A scan of what follows byte 0 is a scan of the whole when byte 0 is passed over. */
  lemma ScannedSkip(s: seq<Byte>, at: seq<nat>, messages: seq<Message>, stop: nat)
    requires s != [] && Passed(s, 0) && Scanned(s[1..], at, messages, stop)
    ensures Scanned(s, Moved(at, 1), messages, stop + 1)
  {
    FramesMoved(s, 1, at, messages);
    Shifted(s, 1, stop);
    EndMoved(s, 1, at, stop);
    forall i | 0 < i < stop + 1
      ensures Covered(s, Moved(at, 1), i) || Passed(s, i)
    {
      PassedMoved(s, 1, at, messages, stop, i - 1);
    }
  }

  lemma CoveredInMore(s: seq<Byte>, first: nat, at: seq<nat>, i: nat)
    requires Covered(s, at, i)
    ensures Covered(s, [first] + at, i)
  {
    var k :| 0 <= k < |at| && at[k] <= i && at[k] + 1 < |s| && i < EndOf(s, at[k]);
    assert ([first] + at)[k + 1] == at[k];
  }

  lemma EndFirst(s: seq<Byte>, at: seq<nat>, stop: nat)
    requires 1 < |s| && EndOf(s, 0) <= stop && EndBy(s, at, stop)
    ensures EndBy(s, [0] + at, stop)
  {
  }

  lemma CoveredOrPassed(s: seq<Byte>, at: seq<nat>, messages: seq<Message>, stop: nat, i: nat)
    requires Genuine(s, 0) && Scanned(s[EndOf(s, 0)..], at, messages, stop) && i < EndOf(s, 0) + stop
    ensures Covered(s, [0] + Moved(at, EndOf(s, 0)), i) || Passed(s, i)
  {
    var n := EndOf(s, 0);
    if i < n {
      var to := [0] + Moved(at, n);
      assert to[0] == 0 && i < EndOf(s, to[0]);
    } else {
      PassedMoved(s, n, at, messages, stop, i - n);
      if Covered(s, Moved(at, n), i) {
        CoveredInMore(s, 0, Moved(at, n), i);
      }
    }
  }

  /** And a scan of what follows the first frame is one of the whole with that frame in front. */
  lemma ScannedTake(s: seq<Byte>, at: seq<nat>, messages: seq<Message>, stop: nat)
    requires Genuine(s, 0) && Scanned(s[EndOf(s, 0)..], at, messages, stop)
    ensures Scanned(s, [0] + Moved(at, EndOf(s, 0)), [s[2..s[1] + 2]] + messages, EndOf(s, 0) + stop)
  {
    var n := EndOf(s, 0);
    FramesMoved(s, n, at, messages);
    FramesFirst(s, Moved(at, n), messages);
    Shifted(s, n, stop);
    EndMoved(s, n, at, stop);
    EndFirst(s, Moved(at, n), n + stop);
    forall i | 0 <= i < n + stop
      ensures Covered(s, [0] + Moved(at, n), i) || Passed(s, i)
    {
      CoveredOrPassed(s, at, messages, stop, i);
    }
  }

  lemma FramesFirst(s: seq<Byte>, at: seq<nat>, messages: seq<Message>)
    requires Genuine(s, 0) && Frames(s, at, messages) && forall k :: 0 <= k < |at| ==> EndOf(s, 0) <= at[k]
    ensures Frames(s, [0] + at, [s[2..s[1] + 2]] + messages)
  {
    FramesCons(s, 0, s[2..s[1] + 2], at, messages);
  }

  lemma FramesCons(s: seq<Byte>, i: nat, m: Message, at: seq<nat>, messages: seq<Message>)
    requires Carries(s, i, m) && Frames(s, at, messages) && forall k :: 0 <= k < |at| ==> Precedes(s, i, at[k])
    ensures Frames(s, [i] + at, [m] + messages)
  {
    var to, all := [i] + at, [m] + messages;
    assert forall k :: 0 < k < |to| ==> to[k] == at[k - 1] && all[k] == messages[k - 1];
  }

  /** For any bytes at all the parser does such a scan, and keeps what follows the place where it stops. */
  lemma {:induction false} ParseScans(s: seq<Byte>) returns (at: seq<nat>, stop: nat)
    ensures Scanned(s, at, Parse(s).0, stop) && Parse(s).1 == s[stop..]
    decreases |s|
  {
    AheadIff(s);
    if Undecided(s) {
      at, stop := [], 0;
      assert s[0..] == s;
    } else if FrameAhead(s) {
      var n := EndOf(s, 0);
      var rest, last := ParseScans(s[n..]);
      at, stop := [0] + Moved(rest, n), n + last;
      ScannedTake(s, rest, Parse(s[n..]).0, last);
      assert s[n..][last..] == s[n + last..];
    } else {
      var rest, last := ParseScans(s[1..]);
      at, stop := Moved(rest, 1), last + 1;
      ScannedSkip(s, rest, Parse(s[1..]).0, last);
      assert s[1..][last..] == s[last + 1..];
    }
  }

  /** So every message that is delivered has a genuine frame. */
  lemma DeliveredIsGenuine(s: seq<Byte>, m: Message) returns (i: nat)
    requires m in Parse(s).0
    ensures i + |m| + 4 <= |s| && s[i] == 0x55 && s[i + 1] == |m| && s[i + 2..i + 2 + |m|] == m
    ensures Total(s[i..i + 2 + |m|]) % 256 == s[i + 2 + |m|]
  {
    var at, stop := ParseScans(s);
    i := GenuineOf(s, at, Parse(s).0, m);
  }

  lemma GenuineOf(s: seq<Byte>, at: seq<nat>, messages: seq<Message>, m: Message) returns (i: nat)
    requires Frames(s, at, messages) && m in messages
    ensures i + |m| + 4 <= |s| && s[i] == 0x55 && s[i + 1] == |m| && s[i + 2..i + 2 + |m|] == m
    ensures Total(s[i..i + 2 + |m|]) % 256 == s[i + 2 + |m|]
  {
    var k :| 0 <= k < |messages| && messages[k] == m;
    i := at[k];
  }

  /** However a stream of any bytes is cut into chunks, the messages are those of a scan of the whole. */
  lemma ChunksScanned(chunks: seq<seq<Byte>>) returns (at: seq<nat>, stop: nat)
    requires AtMost(chunks, 254)
    ensures Scanned(Concat(chunks), at, HandleAll([], chunks).0, stop)
    ensures HandleAll([], chunks).1 == Concat(chunks)[stop..]
  {
    ChunkingIrrelevant([], chunks);
    assert [] + Concat(chunks) == Concat(chunks);
    at, stop := ParseScans(Concat(chunks));
  }

  /** A chunk that does not fit the buffer of 512 bytes is lost together with all that waited; then it starts afresh. */
  lemma OverflowForgets(rx: seq<Byte>, chunks: seq<seq<Byte>>)
    requires chunks != [] && |rx| <= 512 < |rx| + |chunks[0]|
    ensures HandleAll(rx, chunks) == HandleAll([], chunks[1..])
  {
    var rest := HandleAll([], chunks[1..]);
    assert [] + rest.0 == rest.0;
  }

  // ----- Damage

  lemma DamageShows(p: Message, k: nat, b: Byte)
    requires |p| <= 251 && 2 <= k < |p| + 3 && b != Printed(p)[k]
    ensures !Genuine(Printed(p)[k := b], 0)
  {
    PrintedFields(p);
    var f := Printed(p);
    var f' := f[k := b];
    var n := |p| + 2;
    SumIsTotal(f'[..n]);
    assert f'[0..0 + f'[1] + 2] == f'[..n];
    if k < n {
      assert f'[..n] == f[..n][k := b];
      SumNotices(f[..n], k, b);
    } else {
      assert f'[..n] == f[..n];
    }
  }

  /**
   A frame with one changed byte, in the payload or the checksum, is never taken; only something
   shorter inside it can be.
   */
  lemma DamagedNotDelivered(p: Message, k: nat, b: Byte)
    requires |p| <= 251 && 2 <= k < |p| + 3 && b != Printed(p)[k]
    ensures forall m :: m in Parse(Printed(p)[k := b]).0 ==> |m| < |p|
  {
    PrintedFields(p);
    DamageShows(p, k, b);
    var f := Printed(p)[k := b];
    forall m | m in Parse(f).0
      ensures |m| < |p|
    {
      var i := DeliveredIsGenuine(f, m);
    }
  }
}
