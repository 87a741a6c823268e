/**
 src/runtime/utils/crc.c: the table-driven CRC-8, CRC-16, CRC-32 and CRC-64, their tables,
 and the configurable CRC-32. Numbers are turned into registers of `CrcBits` in the order
 in which the algorithm at hand shifts bits out.
 */
module Crc {
  import opened Arithmetic
  import opened Basics
  import opened CrcBits

  datatype Order = MsbFirst | LsbFirst

  /** The low `width` bits of a number, in the given order. */
  function ToBits(n: nat, width: nat, order: Order): (r: Bits)
    ensures |r| == width
    decreases width
  {
    if width == 0 then []
    else match order
      case LsbFirst => [n % 2 == 1] + ToBits(n / 2, width - 1, order)
      case MsbFirst => ToBits(n / 2, width - 1, order) + [n % 2 == 1]
  }

  function FromBits(bits: Bits, order: Order): nat
    decreases |bits|
  {
    if bits == [] then 0
    else match order
      case LsbFirst => (if bits[0] then 1 else 0) + 2 * FromBits(bits[1..], order)
      case MsbFirst =>
        var n := |bits| - 1;
        (if bits[n] then 1 else 0) + 2 * FromBits(bits[..n], order)
  }

  lemma {:induction false} NumberRoundTrip(n: nat, width: nat, order: Order)
    requires n < Pow2(width)
    ensures FromBits(ToBits(n, width, order), order) == n
    decreases width
  {
    if width != 0 {
      NumberRoundTrip(n / 2, width - 1, order);
      var bits, half := ToBits(n, width, order), ToBits(n / 2, width - 1, order);
      if order == LsbFirst {
        assert bits[1..] == half;
      } else {
        assert bits[..width - 1] == half;
      }
    }
  }

  lemma BitsRoundTrip(bits: Bits, order: Order)
    ensures FromBits(bits, order) < Pow2(|bits|)
    ensures ToBits(FromBits(bits, order), |bits|, order) == bits
  {
    match order
    case LsbFirst => LsbRoundTrip(bits);
    case MsbFirst => MsbRoundTrip(bits);
  }

  lemma {:induction false} LsbRoundTrip(bits: Bits)
    ensures FromBits(bits, LsbFirst) < Pow2(|bits|)
    ensures ToBits(FromBits(bits, LsbFirst), |bits|, LsbFirst) == bits
    decreases |bits|
  {
    if bits != [] {
      LsbRoundTrip(bits[1..]);
      Halve(bits[0], FromBits(bits[1..], LsbFirst));
      assert bits == [bits[0]] + bits[1..];
    }
  }

  lemma {:induction false} MsbRoundTrip(bits: Bits)
    ensures FromBits(bits, MsbFirst) < Pow2(|bits|)
    ensures ToBits(FromBits(bits, MsbFirst), |bits|, MsbFirst) == bits
    decreases |bits|
  {
    if bits != [] {
      var n := |bits| - 1;
      MsbRoundTrip(bits[..n]);
      Halve(bits[n], FromBits(bits[..n], MsbFirst));
      assert bits == bits[..n] + [bits[n]];
    }
  }

  lemma Halve(low: bool, half: nat)
    ensures
      var n := (if low then 1 else 0) + 2 * half;
      n / 2 == half && (n % 2 == 1) == low
  {
  }

  function ByteBits(b: nat, order: Order): (r: Bits)
    ensures |r| == 8
  {
    ToBits(b, 8, order)
  }

  /** The bits of a message in the order in which they enter the register. */
  function StreamBits(data: seq<Byte>, order: Order): (r: Bits)
    ensures |r| == 8 * |data|
  {
    if data == [] then [] else ByteBits(data[0], order) + StreamBits(data[1..], order)
  }

  lemma {:induction false} StreamConcat(a: seq<Byte>, b: seq<Byte>, order: Order)
    ensures StreamBits(a + b, order) == StreamBits(a, order) + StreamBits(b, order)
  {
    if a == [] {
      assert a + b == b;
    } else {
      assert (a + b)[1..] == a[1..] + b;
      StreamConcat(a[1..], b, order);
    }
  }

  /** One of the checks of the file. */
  datatype Variant = Variant(width: nat, order: Order, polynomial: nat, initial: nat, final: nat) {
    predicate Valid() { 8 <= width && width % 8 == 0 }
    function Poly(): (p: Bits) ensures |p| == width { ToBits(polynomial, width, order) }
    function Init(): (p: Bits) ensures |p| == width { ToBits(initial, width, order) }
    function Mask(): (p: Bits) ensures |p| == width { ToBits(final, width, order) }
  }

  const CRC8 := Variant(8, MsbFirst, 0x07, 0, 0)
  const CRC16 := Variant(16, MsbFirst, 0x1021, 0xFFFF, 0)
  const CRC64 := Variant(64, LsbFirst, 0x42F0E1EBA9EA3693, 0xFFFFFFFFFFFFFFFF, 0)

  function CRC32(polynomial: nat, initial: nat, final: nat): Variant {
    Variant(32, LsbFirst, polynomial, initial, final)
  }

  /** The check value computed bit by bit; the empty message is answered with 0. */
  function BitAtATime(v: Variant, data: seq<Byte>): nat
    requires v.Valid()
  {
    if data == [] then 0
    else FromBits(Xor(FeedAll(v.Init(), v.Poly(), StreamBits(data, v.order)), v.Mask()), v.order)
  }

  // ----- The table-driven program

  ghost predicate TableFor(t: seq<Bits>, v: Variant)
    requires v.Valid()
  {
    |t| == 256 && forall i :: 0 <= i < 256 ==> t[i] == Entry(ByteBits(i, v.order), v.Poly())
  }

  /** One of the loops of init_crc_tables, for indices of `width` bits. */
  method Fill(t: array<Bits>, width: nat, order: Order, p: Bits)
    requires 0 < width <= |p|
    modifies t
    ensures forall k :: 0 <= k < t.Length ==> t[k] == Entry(ToBits(k, width, order), p)
  {
    for i := 0 to t.Length
      invariant forall k :: 0 <= k < i ==> t[k] == Entry(ToBits(k, width, order), p)
    {
      var entry := TableEntry(ToBits(i, width, order), p);
      t[i] := entry;
    }
  }

  method TableEntry(index: Bits, p: Bits) returns (crc: Bits)
    requires 0 < |index| <= |p|
    ensures crc == Entry(index, p)
  {
    var n := |index|;
    crc := index + Zero(|p| - n);
    for j := 0 to n
      invariant |crc| == |p| && crc == Shifts(index + Zero(|p| - n), p, j)
    {
      crc := Xor(crc[1..] + [false], if crc[0] then p else Zero(|p|));
    }
  }

  lemma LookupIsEntry(t: seq<Bits>, v: Variant, x: Bits)
    requires v.Valid() && TableFor(t, v) && |x| == 8
    ensures FromBits(x, v.order) < 256 && t[FromBits(x, v.order)] == Entry(x, v.Poly())
  {
    BitsRoundTrip(x, v.order);
    Pow2Values();
  }

  lemma StreamStep(v: Variant, data: seq<Byte>, i: nat)
    requires v.Valid() && i < |data|
    ensures FeedAll(v.Init(), v.Poly(), StreamBits(data[..i + 1], v.order))
            == FeedAll(FeedAll(v.Init(), v.Poly(), StreamBits(data[..i], v.order)), v.Poly(),
                       ByteBits(data[i], v.order))
  {
    StreamSnoc(data, i, v.order);
    FeedAllConcat(v.Init(), v.Poly(), StreamBits(data[..i], v.order), ByteBits(data[i], v.order));
  }

  lemma StreamSnoc(data: seq<Byte>, i: nat, order: Order)
    requires i < |data|
    ensures StreamBits(data[..i + 1], order) == StreamBits(data[..i], order) + ByteBits(data[i], order)
  {
    var last := [data[i]];
    assert data[..i + 1] == data[..i] + last;
    StreamConcat(data[..i], last, order);
    assert last[1..] == [];
    assert StreamBits(last, order) == ByteBits(data[i], order) + [];
  }

  /** One check of the file: its configuration and its table. */
  class CrcUnit {
    var variant: Variant
    const table: array<Bits>

    ghost predicate Valid()
      reads this, table
    {
      variant.Valid() && TableFor(table[..], variant)
    }

    constructor (v: Variant)
      requires v.Valid()
      ensures Valid() && fresh(table) && variant == v
    {
      variant := v;
      table := new Bits[256](_ => []);
      new;
      FillTable();
    }

    method FillTable()
      requires variant.Valid() && table.Length == 256
      modifies table
      ensures Valid()
    {
      Fill(table, 8, variant.order, variant.Poly());
    }

    method SetPolynomial(polynomial: nat)
      requires Valid()
      modifies this, table
      ensures Valid() && variant == old(variant).(polynomial := polynomial)
    {
      variant := variant.(polynomial := polynomial);
      FillTable();
    }

    method SetInitialValue(initial: nat)
      requires Valid()
      modifies this
      ensures Valid() && variant == old(variant).(initial := initial)
    {
      variant := variant.(initial := initial);
    }

    method SetFinalXor(final: nat)
      requires Valid()
      modifies this
      ensures Valid() && variant == old(variant).(final := final)
    {
      variant := variant.(final := final);
    }

    /** The loop of the calculate_crc functions. */
    method Calculate(data: seq<Byte>) returns (r: nat)
      requires Valid()
      ensures r == BitAtATime(variant, data)
    {
      if |data| == 0 { return 0; }
      var v := variant;
      var crc := v.Init();
      for i := 0 to |data|
        invariant |crc| == v.width
        invariant crc == FeedAll(v.Init(), v.Poly(), StreamBits(data[..i], v.order))
      {
        StreamStep(v, data, i);
        crc := Update(crc, ByteBits(data[i], v.order));
      }
      assert data[..|data|] == data;
      r := FromBits(Xor(crc, v.Mask()), v.order);
    }

    /** One table lookup. */
    method Update(crc: Bits, byte: Bits) returns (r: Bits)
      requires Valid() && |crc| == variant.width && |byte| == 8
      ensures r == FeedAll(crc, variant.Poly(), byte)
    {
      var index := Xor(crc[..8], byte);
      LookupIsEntry(table[..], variant, index);
      TableStepIsFeed(crc, variant.Poly(), byte);
      r := Xor(crc[8..] + Zero(8), table[FromBits(index, variant.order)]);
    }
  }

  // ----- Which errors the checks detect

  /** The bytes whose bits make up a stream. */
  function ToBytes(bits: Bits, order: Order): (r: seq<Byte>)
    requires |bits| % 8 == 0
    ensures |bits| == 8 * |r|
    decreases |bits|
  {
    if bits == [] then []
    else [ToByte(bits[..8], order)] + ToBytes(bits[8..], order)
  }

  function ToByte(bits: Bits, order: Order): (b: Byte)
    requires |bits| == 8
    ensures ByteBits(b, order) == bits
  {
    BitsRoundTrip(bits, order);
    Pow2Values();
    FromBits(bits, order)
  }

  lemma {:induction false} ToBytesInverts(bits: Bits, order: Order)
    requires |bits| % 8 == 0
    ensures StreamBits(ToBytes(bits, order), order) == bits
    decreases |bits|
  {
    if bits != [] {
      ToBytesInverts(bits[8..], order);
      assert ToBytes(bits, order)[1..] == ToBytes(bits[8..], order);
      assert bits == bits[..8] + bits[8..];
    }
  }

  lemma ByteBitsInjective(a: Byte, b: Byte, order: Order)
    requires ByteBits(a, order) == ByteBits(b, order)
    ensures a == b
  {
    Pow2Values();
    NumberRoundTrip(a, 8, order);
    NumberRoundTrip(b, 8, order);
  }

  lemma {:induction false} StreamInjective(a: seq<Byte>, b: seq<Byte>, order: Order)
    requires |a| == |b| && StreamBits(a, order) == StreamBits(b, order)
    ensures a == b
    decreases |a|
  {
    if a != [] {
      var s, t := StreamBits(a, order), StreamBits(b, order);
      assert s[..8] == ByteBits(a[0], order) && t[..8] == ByteBits(b[0], order);
      assert s[8..] == StreamBits(a[1..], order) && t[8..] == StreamBits(b[1..], order);
      ByteBitsInjective(a[0], b[0], order);
      StreamInjective(a[1..], b[1..], order);
      assert a == [a[0]] + a[1..] && b == [b[0]] + b[1..];
    }
  }

  /** The final mask keeps equal registers equal and different ones different. */
  lemma MaskKeepsEquality(c: Bits, d: Bits, v: Variant)
    requires |c| == |d| == v.width
    ensures FromBits(Xor(c, v.Mask()), v.order) == FromBits(Xor(d, v.Mask()), v.order) <==> c == d
  {
    if FromBits(Xor(c, v.Mask()), v.order) == FromBits(Xor(d, v.Mask()), v.order) {
      BitsRoundTrip(Xor(c, v.Mask()), v.order);
      BitsRoundTrip(Xor(d, v.Mask()), v.order);
      XorCancels(c, d, v.Mask());
    }
  }

  lemma BurstStream(v: Variant, before: seq<Byte>, u: seq<Byte>, after: seq<Byte>)
    requires v.Valid() && u != []
    ensures
      var register := FeedAll(v.Init(), v.Poly(),
                              StreamBits(before, v.order) + StreamBits(u, v.order) + StreamBits(after, v.order));
      BitAtATime(v, before + u + after) == FromBits(Xor(register, v.Mask()), v.order)
  {
    StreamConcat(before, u, v.order);
    StreamConcat(before + u, after, v.order);
  }

  /** Two messages that differ only within one register width get different values. */
  lemma BurstDetected(v: Variant, before: seq<Byte>, u: seq<Byte>, w: seq<Byte>, after: seq<Byte>)
    requires v.Valid() && v.Poly()[v.width - 1] && 8 * |u| == 8 * |w| == v.width && u != w
    ensures BitAtATime(v, before + u + after) != BitAtATime(v, before + w + after)
  {
    BurstStream(v, before, u, after);
    BurstStream(v, before, w, after);
    var b, a := StreamBits(before, v.order), StreamBits(after, v.order);
    var s, t := StreamBits(u, v.order), StreamBits(w, v.order);
    if s == t {
      StreamInjective(u, w, v.order);
    }
    BurstDiffers(v.Init(), v.Poly(), b, s, t, a);
    MaskKeepsEquality(FeedAll(v.Init(), v.Poly(), b + s + a), FeedAll(v.Init(), v.Poly(), b + t + a), v);
  }

  /** Every burst has a partner with the same value. */
  lemma BurstMissed(v: Variant, before: seq<Byte>, u: seq<Byte>, after: seq<Byte>) returns (w: seq<Byte>)
    requires v.Valid() && !v.Poly()[v.width - 1] && 8 * |u| == v.width
    ensures |w| == |u| && w != u
    ensures BitAtATime(v, before + u + after) == BitAtATime(v, before + w + after)
  {
    var b, a := StreamBits(before, v.order), StreamBits(after, v.order);
    var s := StreamBits(u, v.order);
    var t := Xor(s, Kernel(v.Poly()));
    w := ToBytes(t, v.order);
    ToBytesInverts(t, v.order);
    KernelUndetected(v.Init(), v.Poly(), b, s, a);
    BurstStream(v, before, u, after);
    BurstStream(v, before, w, after);
  }

  ghost predicate DetectsBursts(v: Variant, before: seq<Byte>, after: seq<Byte>)
    requires v.Valid()
  {
    forall u: seq<Byte>, w: seq<Byte> :: 8 * |u| == 8 * |w| == v.width && u != w ==>
      BitAtATime(v, before + u + after) != BitAtATime(v, before + w + after)
  }

  lemma LastBitDecides(v: Variant, before: seq<Byte>, after: seq<Byte>)
    requires v.Valid()
    ensures DetectsBursts(v, before, after) <==> v.Poly()[v.width - 1]
  {
    if v.Poly()[v.width - 1] {
      forall u: seq<Byte>, w: seq<Byte> | 8 * |u| == 8 * |w| == v.width && u != w
        ensures BitAtATime(v, before + u + after) != BitAtATime(v, before + w + after)
      {
        BurstDetected(v, before, u, w, after);
      }
    } else {
      var u: seq<Byte> := seq(v.width / 8, i => 0);
      var w := BurstMissed(v, before, u, after);
      assert !DetectsBursts(v, before, after);
    }
  }

  /** The bit shifted in last: the lowest of a left-shifted polynomial, the highest of a right-shifted one. */
  predicate EndsInOne(v: Variant)
    requires v.Valid()
  {
    if v.order == MsbFirst then v.polynomial % 2 == 1 else Pow2(v.width - 1) <= v.polynomial
  }

  lemma {:induction false} LastBit(n: nat, width: nat, order: Order)
    requires 0 < width && n < Pow2(width)
    ensures ToBits(n, width, order)[width - 1] == if order == MsbFirst then n % 2 == 1 else Pow2(width - 1) <= n
    decreases width
  {
    if order == LsbFirst && 1 < width {
      LastBit(n / 2, width - 1, order);
    }
  }

  /** Between any two contexts, all bursts are detected exactly when the polynomial ends in a one. */
  lemma DetectsBurstsIff(v: Variant, before: seq<Byte>, after: seq<Byte>)
    requires v.Valid() && v.polynomial < Pow2(v.width)
    ensures DetectsBursts(v, before, after) <==> EndsInOne(v)
  {
    PolynomialEnds(v);
    LastBitDecides(v, before, after);
  }

  lemma PolynomialEnds(v: Variant)
    requires v.Valid() && v.polynomial < Pow2(v.width)
    ensures v.Poly()[v.width - 1] == EndsInOne(v)
  {
    LastBit(v.polynomial, v.width, v.order);
  }

  /** CRC-8 detects every change of one byte, CRC-16 every change within two neighbouring bytes. */
  lemma Crc8And16DetectBursts(before: seq<Byte>, after: seq<Byte>)
    ensures DetectsBursts(CRC8, before, after) && DetectsBursts(CRC16, before, after)
  {
    Pow2Values();
    DetectsBurstsIff(CRC8, before, after);
    DetectsBurstsIff(CRC16, before, after);
  }

  /** The configurable CRC-32 detects every change within four bytes exactly for polynomials of full degree. */
  lemma Crc32DetectsBurstsIff(polynomial: nat, initial: nat, final: nat, before: seq<Byte>, after: seq<Byte>)
    requires polynomial < 0x1_0000_0000
    ensures DetectsBursts(CRC32(polynomial, initial, final), before, after) <==> 0x8000_0000 <= polynomial
  {
    Pow2Values();
    DetectsBurstsIff(CRC32(polynomial, initial, final), before, after);
  }

  /** The polynomials the file uses for CRC-32 and CRC-64 are not of that kind. */
  lemma DefaultCrc32And64MissBursts(initial: nat, final: nat, before: seq<Byte>, after: seq<Byte>)
    ensures !DetectsBursts(CRC32(0x04C11DB7, initial, final), before, after)
    ensures !DetectsBursts(CRC64, before, after)
  {
    Crc32DetectsBurstsIff(0x04C11DB7, initial, final, before, after);
    Pow2Values();
    DetectsBurstsIff(CRC64, before, after);
  }
}
