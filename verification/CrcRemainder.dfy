/**
 What the checks of src/runtime/utils/crc.c compute, in terms of polynomials over the field with
 two elements: the remainder of the message, with the initial value added to its front, on
 division by the polynomial. A list of bits is a polynomial, the highest power first.
 */
module CrcRemainder {
  import opened Basics
  import opened Crc
  import opened CrcBits

  /** The bit of a polynomial at index `i`, no bit beyond the end. */
  predicate At(x: Bits, i: nat) { i < |x| && x[i] }

  /** The product of two polynomials: one copy of `d` for every bit of `q`, each shifted to its place. */
  function Product(q: Bits, d: Bits): (r: Bits)
    requires |d| > 0
    ensures |r| == |q| + |d| - 1
    decreases |q|
  {
    if q == [] then Zero(|d| - 1)
    else
      var n := |q| - 1;
      Xor(Product(q[..n], d) + [false], Zero(n) + if q[n] then d else Zero(|d|))
  }

  /** The polynomial with its top bit, which the register does not hold. */
  function Divisor(p: Bits): Bits { [true] + p }

  /** The message followed by as many zeros as the register is wide, with `c` added to its front. */
  function Dividend(c: Bits, bits: Bits): (r: Bits)
    ensures |r| == |bits| + |c|
  {
    Xor(bits + Zero(|c|), c + Zero(|bits|))
  }

  /** Dividing by the polynomial gives `q` and leaves `r`. */
  ghost predicate Divides(c: Bits, p: Bits, bits: Bits, q: Bits, r: Bits) {
    && |c| == |p| == |r| && |q| == |bits|
    && Dividend(c, bits) == Xor(Product(q, Divisor(p)), Zero(|bits|) + r)
  }

  ghost predicate IsRemainder(c: Bits, p: Bits, bits: Bits, r: Bits) {
    exists q: Bits :: Divides(c, p, bits, q, r)
  }

  // ----- One more bit

  lemma DividendStep(c: Bits, bits: Bits, i: nat)
    requires bits != [] && |c| > 0 && i < |bits| + |c|
    ensures
      var n := |bits| - 1;
      Dividend(c, bits)[i] == (At(Dividend(c, bits[..n]), i) != (i == n && bits[n]))
  {
  }

  lemma ProductStep(q: Bits, d: Bits, i: nat)
    requires q != [] && |d| > 0 && i < |q| + |d| - 1
    ensures
      var n := |q| - 1;
      Product(q, d)[i] == (At(Product(q[..n], d), i) != (n <= i && q[n] && d[i - n]))
  {
    var n := |q| - 1;
    ShiftedAdded(Product(q[..n], d), n, q[n], d, i);
  }

  lemma ShiftedAdded(x: Bits, n: nat, bit: bool, d: Bits, i: nat)
    requires |d| > 0 && |x| + 1 == n + |d| && i <= |x|
    ensures Xor(x + [false], Zero(n) + if bit then d else Zero(|d|))[i] == (At(x, i) != (n <= i && bit && d[i - n]))
  {
    var y := if bit then d else Zero(|d|);
    assert (x + [false])[i] == At(x, i);
    assert (Zero(n) + y)[i] == (n <= i && y[i - n]);
  }

  lemma FeedAt(r: Bits, p: Bits, bit: bool, j: nat)
    requires |r| == |p| > 0 && j < |p|
    ensures Feed(r, p, bit)[j] == (At(r, j + 1) != ((r[0] != bit) && p[j]))
  {
  }

  lemma DividesAt(c: Bits, p: Bits, bits: Bits, q: Bits, r: Bits, i: nat)
    requires Divides(c, p, bits, q, r) && i < |bits| + |p|
    ensures Dividend(c, bits)[i] == (Product(q, Divisor(p))[i] != (|bits| <= i && r[i - |bits|]))
  {
    var d, m, z := Dividend(c, bits), Product(q, Divisor(p)), Zero(|bits|) + r;
    assert d[i] == (m[i] != z[i]);
  }

  /** When the division of a message is known, one more bit divides with the register fed with it. */
  lemma DividesMore(c: Bits, p: Bits, bits: Bits, q: Bits, r: Bits, b: bool)
    requires |p| > 0 && Divides(c, p, bits, q, r)
    ensures Divides(c, p, bits + [b], q + [r[0] != b], Feed(r, p, b))
  {
    var all, q', r' := bits + [b], q + [r[0] != b], Feed(r, p, b);
    var n := |bits|;
    var left, product, right := Dividend(c, all), Product(q', Divisor(p)), Zero(|all|) + r';
    assert all[..n] == bits && q'[..n] == q;
    forall i | 0 <= i < |left|
      ensures left[i] == (product[i] != right[i])
    {
      DividendStep(c, all, i);
      ProductStep(q', Divisor(p), i);
      if i < n + |p| {
        DividesAt(c, p, bits, q, r, i);
      }
      if n < i {
        FeedAt(r, p, b, i - n - 1);
      }
    }
    assert left == Xor(product, right);
  }

  lemma DividesNone(c: Bits, p: Bits)
    requires |c| == |p| > 0
    ensures Divides(c, p, [], [], c)
  {
  }

  /** The register is the remainder, for some quotient. */
  lemma {:induction false} RegisterIsRemainder(c: Bits, p: Bits, bits: Bits) returns (q: Bits)
    requires |c| == |p| > 0
    ensures Divides(c, p, bits, q, FeedAll(c, p, bits))
    decreases |bits|
  {
    if bits == [] {
      q := [];
      DividesNone(c, p);
    } else {
      var n := |bits| - 1;
      var before := bits[..n];
      var q' := RegisterIsRemainder(c, p, before);
      var r := FeedAll(c, p, before);
      DividesMore(c, p, before, q', r, bits[n]);
      assert bits == before + [bits[n]];
      q := q' + [r[0] != bits[n]];
    }
  }

  // ----- There is only one remainder

  /** What the division of all but the last bit leaves. */
  function Earlier(c: Bits, p: Bits, before: Bits, q: Bits): (r: Bits)
    requires |c| == |p| && |q| == |before|
    ensures |r| == |p|
  {
    Xor(Dividend(c, before)[|before|..], Product(q, Divisor(p))[|before|..])
  }

  lemma DividesLess(c: Bits, p: Bits, bits: Bits, q: Bits, r: Bits)
    requires |p| > 0 && bits != [] && Divides(c, p, bits, q, r)
    ensures
      var n := |bits| - 1;
      Divides(c, p, bits[..n], q[..n], Earlier(c, p, bits[..n], q[..n]))
  {
    var n := |bits| - 1;
    var before, q' := bits[..n], q[..n];
    var r' := Earlier(c, p, before, q');
    var left, product, right := Dividend(c, before), Product(q', Divisor(p)), Zero(n) + r';
    forall i | 0 <= i < |left|
      ensures left[i] == (product[i] != right[i])
    {
      if i < n {
        DividendStep(c, bits, i);
        ProductStep(q, Divisor(p), i);
        DividesAt(c, p, bits, q, r, i);
      } else {
        assert r'[i - n] == (left[i] != product[i]);
      }
    }
    assert left == Xor(product, right);
  }

  /** The last bit of the quotient is forced, and with it the remainder. */
  lemma LastStep(c: Bits, p: Bits, bits: Bits, q: Bits, r: Bits)
    requires |p| > 0 && bits != [] && Divides(c, p, bits, q, r)
    ensures
      var n := |bits| - 1;
      r == Feed(Earlier(c, p, bits[..n], q[..n]), p, bits[n])
  {
    var n := |bits| - 1;
    var r' := Earlier(c, p, bits[..n], q[..n]);
    DividesLess(c, p, bits, q, r);
    QuotientBit(c, p, bits, q, r);
    forall j | 0 <= j < |p|
      ensures r[j] == Feed(r', p, bits[n])[j]
    {
      LastStepAt(c, p, bits, q, r, r', j);
    }
  }

  lemma LastStepAt(c: Bits, p: Bits, bits: Bits, q: Bits, r: Bits, r': Bits, j: nat)
    requires |p| > 0 && bits != [] && Divides(c, p, bits, q, r) && j < |p|
    requires Divides(c, p, bits[..|bits| - 1], q[..|bits| - 1], r')
    requires q[|bits| - 1] == (r'[0] != bits[|bits| - 1])
    ensures r[j] == Feed(r', p, bits[|bits| - 1])[j]
  {
    var n := |bits| - 1;
    var i := n + 1 + j;
    DividendStep(c, bits, i);
    ProductStep(q, Divisor(p), i);
    DividesAt(c, p, bits, q, r, i);
    FeedAt(r', p, bits[n], j);
    if i < n + |p| {
      DividesAt(c, p, bits[..n], q[..n], r', i);
    }
  }

  lemma QuotientBit(c: Bits, p: Bits, bits: Bits, q: Bits, r: Bits)
    requires |p| > 0 && bits != [] && Divides(c, p, bits, q, r)
    ensures
      var n := |bits| - 1;
      q[n] == (Earlier(c, p, bits[..n], q[..n])[0] != bits[n])
  {
    var n := |bits| - 1;
    DividesLess(c, p, bits, q, r);
    DividendStep(c, bits, n);
    ProductStep(q, Divisor(p), n);
    DividesAt(c, p, bits, q, r, n);
    DividesAt(c, p, bits[..n], q[..n], Earlier(c, p, bits[..n], q[..n]), n);
  }

  lemma {:induction false} RemainderUnique(c: Bits, p: Bits, bits: Bits, q: Bits, r: Bits)
    requires |c| == |p| > 0 && Divides(c, p, bits, q, r)
    ensures r == FeedAll(c, p, bits)
    decreases |bits|
  {
    if bits == [] {
      assert Dividend(c, bits) == c && Product(q, Divisor(p)) == Zero(|p|);
      forall i | 0 <= i < |p|
        ensures r[i] == c[i]
      {
        DividesAt(c, p, bits, q, r, i);
      }
    } else {
      var n := |bits| - 1;
      DividesLess(c, p, bits, q, r);
      LastStep(c, p, bits, q, r);
      RemainderUnique(c, p, bits[..n], q[..n], Earlier(c, p, bits[..n], q[..n]));
    }
  }

  // ----- The checks

  /** The value without its final mask. */
  function Unmasked(v: Variant, value: nat): (r: Bits)
    ensures |r| == v.width
  {
    Xor(ToBits(value, v.width, v.order), ToBits(v.final, v.width, v.order))
  }

  lemma XorTwice(a: Bits, b: Bits)
    requires |a| == |b|
    ensures Xor(Xor(a, b), b) == a
  {
  }

  /** The value of an empty message is 0. */
  lemma EmptyIsZero(v: Variant)
    requires v.Valid()
    ensures BitAtATime(v, []) == 0
  {
  }

  /** Of every other one it is, but for the mask, the remainder of its division, and nothing else is. */
  lemma ValueIsRemainder(v: Variant, data: seq<Byte>, r: Bits)
    requires v.Valid() && data != []
    ensures
      var initial, polynomial := ToBits(v.initial, v.width, v.order), ToBits(v.polynomial, v.width, v.order);
      IsRemainder(initial, polynomial, StreamBits(data, v.order), r) <==> r == Unmasked(v, BitAtATime(v, data))
  {
    var c, p, bits := v.Init(), v.Poly(), StreamBits(data, v.order);
    var register := FeedAll(c, p, bits);
    var masked := Xor(register, v.Mask());
    BitsRoundTrip(masked, v.order);
    XorTwice(register, v.Mask());
    RemainderIff(c, p, bits, r);
  }

  lemma RemainderIff(c: Bits, p: Bits, bits: Bits, r: Bits)
    requires |c| == |p| > 0
    ensures IsRemainder(c, p, bits, r) <==> r == FeedAll(c, p, bits)
  {
    if IsRemainder(c, p, bits, r) {
      var q: Bits :| Divides(c, p, bits, q, r);
      RemainderUnique(c, p, bits, q, r);
    }
    var q := RegisterIsRemainder(c, p, bits);
  }
}
