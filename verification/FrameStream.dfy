/**
 The framed byte stream between src/runtime/network/network_handler.c, which prints frames,
 and src/runtime/network/message_handler.c, which finds them again in whatever pieces the
 bytes arrive: a start marker, a length, the payload, a checksum and an end marker.
 */
module FrameStream {
  import opened Basics

  type Message = seq<Byte>

  const START: Byte := 0x55
  const END: Byte := 0xAA
  const RX_SIZE: nat := 512
  const MAX_SEND: nat := 255

  /** The 8-bit sum of the bytes. */
  function Sum(s: seq<Byte>): Byte {
    if s == [] then 0 else (s[0] + Sum(s[1..])) % 256
  }

  lemma {:induction false} SumAppend(s: seq<Byte>, b: Byte)
    ensures
      var x: int, y: int := Sum(s), b;
      Sum(s + [b]) == (x + y) % 256
  {
    if s == [] {
      assert s + [b] == [b] && [b][1..] == [];
    } else {
      assert (s + [b])[0] == s[0] && (s + [b])[1..] == s[1..] + [b];
      SumAppend(s[1..], b);
      ModuloAssociates(s[0], Sum(s[1..]), b);
    }
  }

  lemma ModuloAssociates(x: int, y: int, z: int)
    ensures (x + (y + z) % 256) % 256 == ((x + y) % 256 + z) % 256
  {
  }

  // ----- Parsing

  /** The payload length a frame names. */
  function Named(s: seq<Byte>): nat
    requires 2 <= |s|
  {
    s[1]
  }

  /** A complete frame with a matching checksum starts here; the end marker is not looked at. */
  predicate FrameAhead(s: seq<Byte>) {
    4 <= |s| && s[0] == START && Named(s) + 4 <= |s| && Sum(s[..Named(s) + 2]) == s[Named(s) + 2]
  }

  /** Nothing can be decided before more bytes arrive. */
  predicate Undecided(s: seq<Byte>) {
    |s| < 4 || (s[0] == START && |s| < Named(s) + 4)
  }

  /** The messages in a stream, and the bytes still waiting for more. */
  function Parse(s: seq<Byte>): (r: (seq<Message>, seq<Byte>))
    decreases |s|
  {
    if Undecided(s) then ([], s)
    else if FrameAhead(s) then
      var (messages, rest) := Parse(s[Named(s) + 4..]);
      ([s[2..Named(s) + 2]] + messages, rest)
    else Parse(s[1..])
  }

  /** What the parser does at one place: wait for more, pass over a byte, or take a frame. */
  datatype Turn = Wait | Skip | Take

  function TurnOf(s: seq<Byte>): Turn
    requires 4 <= |s|
  {
    if FrameAhead(s) then Take else if Undecided(s) then Wait else Skip
  }

  lemma TurnParses(s: seq<Byte>)
    requires 4 <= |s|
    ensures
      match TurnOf(s)
      case Wait => Undecided(s)
      case Skip => Parse(s) == Parse(s[1..])
      case Take =>
        var (messages, rest) := Parse(s[Named(s) + 4..]);
        Parse(s) == ([s[2..Named(s) + 2]] + messages, rest)
  {
  }

  /** A stream can be parsed in two pieces: the first leaves exactly what the second needs. */
  lemma {:induction false} ParseConcat(a: seq<Byte>, b: seq<Byte>)
    ensures
      var (messages, rest) := Parse(a);
      var (messages', rest') := Parse(rest + b);
      Parse(a + b) == (messages + messages', rest')
    decreases |a|
  {
    if Undecided(a) {
      assert [] + Parse(a + b).0 == Parse(a + b).0;
    } else if FrameAhead(a) {
      var n := Named(a) + 4;
      assert (a + b)[..n - 2] == a[..n - 2];
      assert (a + b)[2..n - 2] == a[2..n - 2];
      assert (a + b)[n..] == a[n..] + b;
      ParseConcat(a[n..], b);
      var (messages, rest) := Parse(a[n..]);
      var messages' := Parse(rest + b).0;
      assert ([a[2..n - 2]] + messages) + messages' == [a[2..n - 2]] + (messages + messages');
    } else {
      assert a[0] == START ==> (a + b)[..Named(a) + 2] == a[..Named(a) + 2];
      assert (a + b)[1..] == a[1..] + b;
      ParseConcat(a[1..], b);
    }
  }

  /** What is left over is undecided, so short, and parsing it again changes nothing. */
  lemma {:induction false} LeftoverUndecided(s: seq<Byte>)
    ensures Undecided(Parse(s).1) && |Parse(s).1| <= 258
    decreases |s|
  {
    if Undecided(s) {
    } else if FrameAhead(s) {
      LeftoverUndecided(s[Named(s) + 4..]);
    } else {
      LeftoverUndecided(s[1..]);
    }
  }

  // ----- Arrival in chunks

  /** One call of MessageHandler_HandleResponse. */
  function Handle(rx: seq<Byte>, chunk: seq<Byte>): (seq<Message>, seq<Byte>) {
    if chunk == [] then ([], rx)
    else if |rx| + |chunk| > RX_SIZE then ([], [])
    else Parse(rx + chunk)
  }

  ghost function HandleAll(rx: seq<Byte>, chunks: seq<seq<Byte>>): (seq<Message>, seq<Byte>)
    decreases |chunks|
  {
    if chunks == [] then ([], rx)
    else
      var (messages, rest) := Handle(rx, chunks[0]);
      var (messages', rest') := HandleAll(rest, chunks[1..]);
      (messages + messages', rest')
  }

  ghost function Concat(chunks: seq<seq<Byte>>): seq<Byte> {
    if chunks == [] then [] else chunks[0] + Concat(chunks[1..])
  }

  ghost predicate AtMost(chunks: seq<seq<Byte>>, n: nat) {
    forall i :: 0 <= i < |chunks| ==> |chunks[i]| <= n
  }

  /** However a stream is cut into chunks of at most 254 bytes, the same messages come out. */
  lemma {:induction false} ChunkingIrrelevant(rx: seq<Byte>, chunks: seq<seq<Byte>>)
    requires Undecided(rx) && AtMost(chunks, 254)
    ensures HandleAll(rx, chunks) == Parse(rx + Concat(chunks))
    decreases |chunks|
  {
    if chunks == [] {
      assert rx + [] == rx;
    } else {
      var chunk, others := chunks[0], chunks[1..];
      HandleParses(rx, chunk);
      LeftoverUndecided(rx + chunk);
      var rest := Parse(rx + chunk).1;
      ChunkingIrrelevant(rest, others);
      ParseContinues(rx, chunk, Concat(others));
    }
  }

  lemma ParseContinues(rx: seq<Byte>, chunk: seq<Byte>, tail: seq<Byte>)
    ensures
      var (ps, rest) := Parse(rx + chunk);
      Parse(rx + (chunk + tail)) == (ps + Parse(rest + tail).0, Parse(rest + tail).1)
  {
    ParseConcat(rx + chunk, tail);
    assert (rx + chunk) + tail == rx + (chunk + tail);
  }

  /** The overflow reset never fires: at most 258 bytes wait, at most 254 arrive. */
  lemma HandleParses(rx: seq<Byte>, chunk: seq<Byte>)
    requires Undecided(rx) && |chunk| <= 254
    ensures Handle(rx, chunk) == Parse(rx + chunk)
  {
    assert chunk == [] ==> rx + chunk == rx;
  }

  // ----- Printing

  /** The frame send_diagnostic_response builds, before it is clamped. */
  function Framed(p: Message): seq<Byte> {
    var body: seq<Byte> := [START, |p| % 256] + p;
    body + [Sum(body[..(|p| + 2) % 256]), END]
  }

  /** What reaches the transmit queue: NetworkHandler_Send cuts frames at 255 bytes. */
  function Printed(p: Message): (f: seq<Byte>)
    ensures |f| <= MAX_SEND
  {
    if |Framed(p)| > MAX_SEND then Framed(p)[..MAX_SEND] else Framed(p)
  }

  lemma PrintedFields(p: Message)
    requires |p| <= 251
    ensures
      var f := Printed(p);
      && f == [0x55, |p|] + p + [Sum(f[..|p| + 2]), 0xAA]
      && |f| == |p| + 4 && f[0] == START && Named(f) == |p|
      && f[2..|p| + 2] == p && f[|p| + 2] == Sum(f[..|p| + 2])
  {
    var body: seq<Byte> := [START, |p|] + p;
    assert body[..|p| + 2] == body;
    assert Printed(p) == body + [Sum(body), END];
    assert Printed(p)[..|p| + 2] == body;
  }

  lemma PrintedParses(p: Message, rest: seq<Byte>)
    requires |p| <= 251
    ensures
      var (messages, leftover) := Parse(rest);
      Parse(Printed(p) + rest) == ([p] + messages, leftover)
  {
    PrintedFields(p);
    FrameParses(Printed(p), rest);
  }

  lemma FrameParses(f: seq<Byte>, rest: seq<Byte>)
    requires FrameAhead(f) && |f| == Named(f) + 4
    ensures
      var (messages, leftover) := Parse(rest);
      Parse(f + rest) == ([f[2..|f| - 2]] + messages, leftover)
  {
    var s := f + rest;
    assert s[..|f| - 2] == f[..|f| - 2] && s[2..|f| - 2] == f[2..|f| - 2] && s[|f|..] == rest;
  }

  /** A message never outgrows the stream it was found in. */
  lemma {:induction false} MessagesFit(s: seq<Byte>)
    ensures forall m :: m in Parse(s).0 ==> |m| + 4 <= |s|
    decreases |s|
  {
    if Undecided(s) {
    } else if FrameAhead(s) {
      MessagesFit(s[Named(s) + 4..]);
    } else {
      MessagesFit(s[1..]);
    }
  }

  /** A payload comes back from its frame exactly when it has at most 251 bytes. */
  lemma RoundTripIff(p: Message)
    ensures Parse(Printed(p)) == ([p], []) <==> |p| <= 251
  {
    if |p| <= 251 {
      PrintedParses(p, []);
      assert Printed(p) + [] == Printed(p);
      assert [p] + Parse([]).0 == [p];
    } else {
      MessagesFit(Printed(p));
      assert p !in Parse(Printed(p)).0;
    }
  }

  ghost function PrintedAll(ps: seq<Message>): seq<Byte> {
    if ps == [] then [] else Printed(ps[0]) + PrintedAll(ps[1..])
  }

  lemma {:induction false} PrintedAllParse(ps: seq<Message>)
    requires AtMost(ps, 251)
    ensures Parse(PrintedAll(ps)) == (ps, [])
    decreases |ps|
  {
    if ps != [] {
      PrintedAllParse(ps[1..]);
      PrintedParses(ps[0], PrintedAll(ps[1..]));
      assert ps == [ps[0]] + ps[1..];
    }
  }

  /** Printed frames, arriving in any pieces of at most 254 bytes, deliver exactly their payloads. */
  lemma EndToEnd(ps: seq<Message>, chunks: seq<seq<Byte>>)
    requires AtMost(ps, 251) && AtMost(chunks, 254) && Concat(chunks) == PrintedAll(ps)
    ensures HandleAll([], chunks) == (ps, [])
  {
    ChunkingIrrelevant([], chunks);
    assert [] + Concat(chunks) == Concat(chunks);
    PrintedAllParse(ps);
  }

  /** Bytes before the first start marker do not change what is found. */
  lemma {:induction false} NoiseSkipped(noise: seq<Byte>, s: seq<Byte>)
    requires START !in noise
    ensures Parse(noise + s).0 == Parse(s).0
    decreases |noise|
  {
    if noise == [] {
      assert noise + s == s;
    } else {
      assert (noise + s)[0] == noise[0] && (noise + s)[1..] == noise[1..] + s;
      NoiseSkipped(noise[1..], s);
    }
  }

  // ----- The chunk bound cannot be raised

  function Zeros(n: nat): (z: seq<Byte>)
    ensures |z| == n && forall i :: 0 <= i < n ==> z[i] == 0
  {
    seq(n, i => 0)
  }

  lemma {:induction false} SumOfZeros(s: seq<Byte>)
    requires forall i :: 0 <= i < |s| ==> s[i] == 0
    ensures Sum(s) == 0
  {
    if s != [] {
      SumOfZeros(s[1..]);
    }
  }

  /** The longest frame the parser knows: 255 zero bytes. */
  function LongFrame(): (f: seq<Byte>)
    ensures |f| == 259
  {
    [START, 255] + Zeros(255) + [0x54, END]
  }

  lemma LongFrameSum(zeros: seq<Byte>)
    requires Sum(zeros) == 0
    ensures Sum([START, 255] + zeros) == 0x54
  {
    var body: seq<Byte> := [START, 255] + zeros;
    assert body[1..] == [255] + zeros && ([255] + zeros)[1..] == zeros;
    assert Sum([255] + zeros) == 255;
  }

  lemma LongFrameAhead()
    ensures FrameAhead(LongFrame()) && Named(LongFrame()) == 255
  {
    var zeros := Zeros(255);
    SumOfZeros(zeros);
    LongFrameSum(zeros);
    assert LongFrame()[..257] == [START, 255] + zeros;
  }

  /** For every larger bound there is a stream whose message is lost between two chunks. */
  lemma LargerChunksLoseMessages(n: nat) returns (chunks: seq<seq<Byte>>)
    requires 255 <= n
    ensures AtMost(chunks, n)
    ensures HandleAll([], chunks).0 == [] && Parse(Concat(chunks)).0 != []
  {
    var f, tail := LongFrame(), Zeros(n - 1);
    var a, b, c := f[..254], f[254..258], f[258..] + tail;
    chunks := [a, b, c];
    TooMuchAtOnce(f, a, b, c);
    ConcatThree(a, b, c);
    assert (a + b) + c == f + tail && a + (b + c) == (a + b) + c;
    LongFrameAhead();
    FrameParses(f, tail);
  }

  lemma ConcatThree(a: seq<Byte>, b: seq<Byte>, c: seq<Byte>)
    ensures Concat([a, b, c]) == a + (b + c)
  {
    var last := [c];
    assert last[1..] == [] && Concat(last) == c + [];
    assert [b, c][1..] == last && [a, b, c][1..] == [b, c];
    assert Concat([b, c]) == b + Concat(last);
  }

  /** 258 bytes wait, and the rest does not fit the buffer with them. */
  lemma TooMuchAtOnce(f: seq<Byte>, a: seq<Byte>, b: seq<Byte>, c: seq<Byte>)
    requires f == LongFrame() && a == f[..254] && b == f[254..258] && 258 + |c| > RX_SIZE
    ensures HandleAll([], [a, b, c]).0 == []
  {
    var last := [c];
    assert [a, b, c][1..] == [b, c] && [b, c][1..] == last && last[1..] == [];
    assert [] + a == a && Undecided(a) && Undecided(a + b);
    assert Handle([], a) == ([], a) && Handle(a, b) == ([], a + b);
    assert HandleAll(a + b, last).0 == [];
    assert HandleAll(a, [b, c]).0 == [];
  }
}
