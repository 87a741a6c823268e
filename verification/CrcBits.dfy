/**
 Cyclic redundancy checks over registers of any width.

 A register is the list of its bits in the order in which they are shifted out: the most
 significant bit first for the left-shifting CRC-8 and CRC-16 of src/runtime/utils/crc.c,
 the least significant bit first for its right-shifting CRC-32 and CRC-64. In this order the
 four algorithms are one.
 */
module CrcBits {
  type Bits = seq<bool>

  function Zero(n: nat): (z: Bits)
    ensures |z| == n && forall i :: 0 <= i < n ==> !z[i]
  {
    seq(n, i => false)
  }

  function Xor(a: Bits, b: Bits): (r: Bits)
    requires |a| == |b|
    ensures |r| == |a| && forall i {:trigger r[i]} :: 0 <= i < |a| ==> r[i] == (a[i] != b[i])
  {
    seq(|a|, i requires 0 <= i < |a| => a[i] != b[i])
  }

  /** One step of the table-building loop: shift, and subtract the polynomial for a bit lost. */
  function Shift(c: Bits, p: Bits): (r: Bits)
    requires |c| == |p| > 0
    ensures |r| == |c|
  {
    Xor(c[1..] + [false], if c[0] then p else Zero(|p|))
  }

  function Shifts(c: Bits, p: Bits, n: nat): (r: Bits)
    requires |c| == |p| > 0
    ensures |r| == |c|
    decreases n
  {
    if n == 0 then c else Shift(Shifts(c, p, n - 1), p)
  }

  /** The bit-at-a-time algorithm: one message bit enters the feedback. */
  function Feed(c: Bits, p: Bits, bit: bool): (r: Bits)
    requires |c| == |p| > 0
    ensures |r| == |c|
  {
    Xor(c[1..] + [false], if c[0] != bit then p else Zero(|p|))
  }

  function FeedAll(c: Bits, p: Bits, bits: Bits): (r: Bits)
    requires |c| == |p| > 0
    ensures |r| == |c|
    decreases |bits|
  {
    if bits == [] then c
    else Feed(FeedAll(c, p, bits[..|bits| - 1]), p, bits[|bits| - 1])
  }

  /** The table entry of an 8-bit index. */
  function Entry(x: Bits, p: Bits): Bits
    requires 0 < |x| <= |p|
  {
    Shifts(x + Zero(|p| - |x|), p, |x|)
  }

  /** One byte of the table-driven algorithm. */
  function TableStep(c: Bits, p: Bits, byte: Bits): (r: Bits)
    requires |c| == |p| && |byte| == 8 <= |p|
    ensures |r| == |c|
  {
    Xor(c[8..] + Zero(8), Entry(Xor(c[..8], byte), p))
  }

  // ----- Shifting is linear

  lemma ShiftLinear(a: Bits, b: Bits, p: Bits)
    requires |a| == |b| == |p| > 0
    ensures Shift(Xor(a, b), p) == Xor(Shift(a, p), Shift(b, p))
  {
  }

  lemma {:induction false} ShiftsLinear(a: Bits, b: Bits, p: Bits, n: nat)
    requires |a| == |b| == |p| > 0
    ensures Shifts(Xor(a, b), p, n) == Xor(Shifts(a, p, n), Shifts(b, p, n))
    decreases n
  {
    if n != 0 {
      ShiftsLinear(a, b, p, n - 1);
      ShiftLinear(Shifts(a, p, n - 1), Shifts(b, p, n - 1), p);
    }
  }

  /** Leading zeros are shifted out without feedback. */
  lemma {:induction false} ShiftsLeadingZeros(y: Bits, p: Bits, n: nat)
    requires |y| == |p| > 0 && n <= |y| && forall i :: 0 <= i < n ==> !y[i]
    ensures Shifts(y, p, n) == y[n..] + Zero(n)
    decreases n
  {
    if n != 0 {
      ShiftsLeadingZeros(y, p, n - 1);
      var s := y[n - 1..] + Zero(n - 1);
      assert s[0] == y[n - 1];
      assert s[1..] + [false] == y[n..] + Zero(n);
    }
  }

  // ----- The bit-at-a-time form and shifting

  lemma FeedFlipsFront(c: Bits, p: Bits, bit: bool)
    requires |c| == |p| > 0
    ensures Feed(c, p, bit) == Shift(Xor(c, [bit] + Zero(|c| - 1)), p)
  {
  }

  lemma SplitLastBit(c: Bits, bits: Bits)
    requires 0 < |bits| <= |c|
    ensures
      var n, w := |bits| - 1, |c|;
      Xor(c, bits + Zero(w - n - 1)) ==
      Xor(Xor(c, bits[..n] + Zero(w - n)), Zero(n) + [bits[n]] + Zero(w - n - 1))
  {
  }

  lemma ShiftsUnit(p: Bits, n: nat, bit: bool)
    requires n < |p|
    ensures Shifts(Zero(n) + [bit] + Zero(|p| - n - 1), p, n) == [bit] + Zero(|p| - 1)
  {
    var unit := Zero(n) + [bit] + Zero(|p| - n - 1);
    ShiftsLeadingZeros(unit, p, n);
    assert unit[n..] + Zero(n) == [bit] + Zero(|p| - 1);
  }

  lemma FeedStepIsShifts(s: Bits, p: Bits, n: nat, bit: bool)
    requires |s| == |p| && n < |p|
    ensures Feed(Shifts(s, p, n), p, bit)
            == Shifts(Xor(s, Zero(n) + [bit] + Zero(|p| - n - 1)), p, n + 1)
  {
    var unit := Zero(n) + [bit] + Zero(|p| - n - 1);
    calc {
      Feed(Shifts(s, p, n), p, bit);
      { FeedFlipsFront(Shifts(s, p, n), p, bit); }
      Shift(Xor(Shifts(s, p, n), [bit] + Zero(|p| - 1)), p);
      { ShiftsUnit(p, n, bit); }
      Shift(Xor(Shifts(s, p, n), Shifts(unit, p, n)), p);
      { ShiftsLinear(s, unit, p, n); }
      Shift(Shifts(Xor(s, unit), p, n), p);
    }
  }

  /** Feeding bits one at a time is adding them to the front of the register and shifting. */
  lemma {:induction false} FeedAllIsShifts(c: Bits, p: Bits, bits: Bits)
    requires |c| == |p| > 0 && |bits| <= |c|
    ensures FeedAll(c, p, bits) == Shifts(Xor(c, bits + Zero(|c| - |bits|)), p, |bits|)
    decreases |bits|
  {
    var w := |c|;
    if bits == [] {
      assert Xor(c, Zero(w)) == c;
      assert bits + Zero(w) == Zero(w);
    } else {
      var n := |bits| - 1;
      var s := Xor(c, bits[..n] + Zero(w - n));
      calc {
        FeedAll(c, p, bits);
        Feed(FeedAll(c, p, bits[..n]), p, bits[n]);
        { FeedAllIsShifts(c, p, bits[..n]); }
        Feed(Shifts(s, p, n), p, bits[n]);
        { FeedStepIsShifts(s, p, n, bits[n]); }
        Shifts(Xor(s, Zero(n) + [bits[n]] + Zero(w - n - 1)), p, n + 1);
        { SplitLastBit(c, bits); }
        Shifts(Xor(c, bits + Zero(w - n - 1)), p, n + 1);
      }
    }
  }

  lemma SplitIndex(c: Bits, byte: Bits)
    requires |byte| == 8 <= |c|
    ensures Xor(c, byte + Zero(|c| - 8)) == Xor(Zero(8) + c[8..], Xor(c[..8], byte) + Zero(|c| - 8))
  {
  }

  /** The table-driven step computes what eight bit-at-a-time steps compute. */
  lemma TableStepIsFeed(c: Bits, p: Bits, byte: Bits)
    requires |c| == |p| && |byte| == 8 <= |p|
    ensures TableStep(c, p, byte) == FeedAll(c, p, byte)
  {
    FeedAllIsShifts(c, p, byte);
    var index := Xor(c[..8], byte) + Zero(|c| - 8);
    var rest := Zero(8) + c[8..];
    SplitIndex(c, byte);
    ShiftsLinear(rest, index, p, |byte|);
    ShiftsLeadingZeros(rest, p, |byte|);
    assert rest[8..] == c[8..];
  }

  lemma {:induction false} FeedAllConcat(c: Bits, p: Bits, a: Bits, b: Bits)
    requires |c| == |p| > 0
    ensures FeedAll(c, p, a + b) == FeedAll(FeedAll(c, p, a), p, b)
    decreases |b|
  {
    if b == [] {
      assert a + b == a;
    } else {
      var n := |b| - 1;
      assert (a + b)[..|a + b| - 1] == a + b[..n];
      FeedAllConcat(c, p, a, b[..n]);
    }
  }

  // ----- What goes undetected

  /** Shifting forgets nothing when the polynomial ends in a one. */
  lemma ShiftInjective(x: Bits, y: Bits, p: Bits)
    requires |x| == |y| == |p| > 0 && p[|p| - 1] && Shift(x, p) == Shift(y, p)
    ensures x == y
  {
    var w := |p|;
    assert Shift(x, p)[w - 1] == x[0] && Shift(y, p)[w - 1] == y[0];
    forall i | 0 < i < w
      ensures x[i] == y[i]
    {
      assert Shift(x, p)[i - 1] == Shift(y, p)[i - 1];
    }
  }

  lemma {:induction false} ShiftsInjective(x: Bits, y: Bits, p: Bits, n: nat)
    requires |x| == |y| == |p| > 0 && p[|p| - 1] && Shifts(x, p, n) == Shifts(y, p, n)
    ensures x == y
    decreases n
  {
    if n != 0 {
      var x', y' := Shifts(x, p, n - 1), Shifts(y, p, n - 1);
      assert Shift(x', p) == Shift(y', p);
      ShiftInjective(x', y', p);
      ShiftsInjective(x, y, p, n - 1);
    }
  }

  /** The register that shifting turns into zero when the polynomial ends in a zero. */
  function Kernel(p: Bits): (k: Bits)
    requires |p| > 0
    ensures |k| == |p| && k[0]
  {
    [true] + p[..|p| - 1]
  }

  lemma {:induction false} KernelVanishes(p: Bits, n: nat)
    requires |p| > 0 && !p[|p| - 1] && 0 < n
    ensures Shifts(Kernel(p), p, n) == Zero(|p|)
    decreases n
  {
    if n == 1 {
      assert Shifts(Kernel(p), p, 0) == Kernel(p);
    } else {
      KernelVanishes(p, n - 1);
    }
  }

  lemma {:induction false} FeedAllInjective(c: Bits, d: Bits, p: Bits, bits: Bits)
    requires |c| == |d| == |p| > 0 && p[|p| - 1] && FeedAll(c, p, bits) == FeedAll(d, p, bits)
    ensures c == d
    decreases |bits|
  {
    if bits != [] {
      var n := |bits| - 1;
      var c', d' := FeedAll(c, p, bits[..n]), FeedAll(d, p, bits[..n]);
      var unit := [bits[n]] + Zero(|c| - 1);
      FeedFlipsFront(c', p, bits[n]);
      FeedFlipsFront(d', p, bits[n]);
      ShiftInjective(Xor(c', unit), Xor(d', unit), p);
      XorCancels(c', d', unit);
      FeedAllInjective(c, d, p, bits[..n]);
    }
  }

  lemma XorCancels(a: Bits, b: Bits, u: Bits)
    requires |a| == |b| == |u| && Xor(a, u) == Xor(b, u)
    ensures a == b
  {
    forall i | 0 <= i < |a|
      ensures a[i] == b[i]
    {
      assert Xor(a, u)[i] == Xor(b, u)[i];
    }
  }

  /** Messages that differ only within one register width, after the same start. */
  ghost predicate BurstsDetected(c: Bits, p: Bits, before: Bits, after: Bits)
    requires |c| == |p| > 0
  {
    forall u: Bits, v: Bits :: |u| == |v| == |p| && u != v ==>
      FeedAll(c, p, before + u + after) != FeedAll(c, p, before + v + after)
  }

  lemma FeedWidth(c: Bits, p: Bits, u: Bits)
    requires |c| == |p| == |u| > 0
    ensures FeedAll(c, p, u) == Shifts(Xor(c, u), p, |p|)
  {
    FeedAllIsShifts(c, p, u);
    assert u + Zero(0) == u;
  }

  /** A burst as wide as the register is added to it as a whole. */
  lemma FeedThrough(c: Bits, p: Bits, before: Bits, u: Bits, after: Bits)
    requires |c| == |p| == |u| > 0
    ensures FeedAll(c, p, before + u + after)
            == FeedAll(Shifts(Xor(FeedAll(c, p, before), u), p, |p|), p, after)
  {
    var s := FeedAll(c, p, before);
    calc {
      FeedAll(c, p, before + u + after);
      { FeedAllConcat(c, p, before + u, after); }
      FeedAll(FeedAll(c, p, before + u), p, after);
      { FeedAllConcat(c, p, before, u); }
      FeedAll(FeedAll(s, p, u), p, after);
      { FeedWidth(s, p, u); }
      FeedAll(Shifts(Xor(s, u), p, |p|), p, after);
    }
  }

  lemma StatesDiffer(x: Bits, y: Bits, p: Bits, after: Bits)
    requires |x| == |y| == |p| > 0 && p[|p| - 1] && x != y
    ensures FeedAll(Shifts(x, p, |p|), p, after) != FeedAll(Shifts(y, p, |p|), p, after)
  {
    if FeedAll(Shifts(x, p, |p|), p, after) == FeedAll(Shifts(y, p, |p|), p, after) {
      FeedAllInjective(Shifts(x, p, |p|), Shifts(y, p, |p|), p, after);
      ShiftsInjective(x, y, p, |p|);
    }
  }

  lemma BurstDiffers(c: Bits, p: Bits, before: Bits, u: Bits, v: Bits, after: Bits)
    requires |c| == |p| == |u| == |v| > 0 && p[|p| - 1] && u != v
    ensures FeedAll(c, p, before + u + after) != FeedAll(c, p, before + v + after)
  {
    var s := FeedAll(c, p, before);
    XorKeepsDifference(s, u, v);
    StatesDiffer(Xor(s, u), Xor(s, v), p, after);
    FeedThrough(c, p, before, u, after);
    FeedThrough(c, p, before, v, after);
  }

  lemma XorKeepsDifference(s: Bits, u: Bits, v: Bits)
    requires |s| == |u| == |v| && u != v
    ensures Xor(s, u) != Xor(s, v)
  {
    var i :| 0 <= i < |u| && u[i] != v[i];
    assert Xor(s, u)[i] != Xor(s, v)[i];
  }

  lemma XorAssociates(a: Bits, b: Bits, c: Bits)
    requires |a| == |b| == |c|
    ensures Xor(Xor(a, b), c) == Xor(a, Xor(b, c))
  {
  }

  lemma ShiftsDropKernel(x: Bits, p: Bits)
    requires |x| == |p| > 0 && !p[|p| - 1]
    ensures Shifts(Xor(x, Kernel(p)), p, |p|) == Shifts(x, p, |p|)
  {
    ShiftsLinear(x, Kernel(p), p, |p|);
    KernelVanishes(p, |p|);
    var r := Shifts(x, p, |p|);
    assert Xor(r, Zero(|p|)) == r;
  }

  /** Adding the kernel to a burst changes it but not the check value. */
  lemma KernelUndetected(c: Bits, p: Bits, before: Bits, u: Bits, after: Bits)
    requires |c| == |p| == |u| > 0 && !p[|p| - 1]
    ensures Xor(u, Kernel(p)) != u
    ensures FeedAll(c, p, before + u + after) == FeedAll(c, p, before + Xor(u, Kernel(p)) + after)
  {
    var v := Xor(u, Kernel(p));
    assert v[0] != u[0];
    FeedThrough(c, p, before, u, after);
    FeedThrough(c, p, before, v, after);
    var s := FeedAll(c, p, before);
    XorAssociates(s, u, Kernel(p));
    ShiftsDropKernel(Xor(s, u), p);
  }

  /** Every burst of at most the register width is detected exactly when the polynomial ends in a one. */
  lemma BurstsDetectedIff(c: Bits, p: Bits, before: Bits, after: Bits)
    requires |c| == |p| > 0
    ensures BurstsDetected(c, p, before, after) <==> p[|p| - 1]
  {
    if p[|p| - 1] {
      forall u: Bits, v: Bits | |u| == |v| == |p| && u != v
        ensures FeedAll(c, p, before + u + after) != FeedAll(c, p, before + v + after)
      {
        BurstDiffers(c, p, before, u, v, after);
      }
    } else {
      var u := Zero(|p|);
      KernelUndetected(c, p, before, u, after);
      assert !BurstsDetected(c, p, before, after);
    }
  }

  /** A message followed by its own check value leaves the register at zero. */
  lemma ResidueIsZero(c: Bits, p: Bits, bits: Bits)
    requires |c| == |p| > 0
    ensures FeedAll(c, p, bits + FeedAll(c, p, bits)) == Zero(|p|)
  {
    var s := FeedAll(c, p, bits);
    calc {
      FeedAll(c, p, bits + s);
      { FeedAllConcat(c, p, bits, s); }
      FeedAll(s, p, s);
      { FeedWidth(s, p, s); }
      Shifts(Xor(s, s), p, |p|);
      { assert Xor(s, s) == Zero(|p|); }
      Shifts(Zero(|p|), p, |p|);
      { ShiftsLeadingZeros(Zero(|p|), p, |p|); }
      Zero(|p|)[|p|..] + Zero(|p|);
      Zero(|p|);
    }
  }
}
