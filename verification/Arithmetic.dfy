/** Powers of two, quotients and remainders. */
module Arithmetic {
  function Pow2(n: nat): (r: nat)
    ensures r > 0
  {
    if n == 0 then 1 else 2 * Pow2(n - 1)
  }

  lemma {:induction false} Pow2Adds(m: nat, n: nat)
    ensures Pow2(m + n) == Pow2(m) * Pow2(n)
  {
    if m != 0 {
      Pow2Adds(m - 1, n);
      assert Pow2(m + n) == 2 * (Pow2(m - 1) * Pow2(n)) == Pow2(m) * Pow2(n);
    }
  }

  lemma Pow2Values()
    ensures Pow2(8) == 0x100 && Pow2(16) == 0x1_0000
    ensures Pow2(32) == 0x1_0000_0000 && Pow2(31) == 0x8000_0000
    ensures Pow2(64) == 0x1_0000_0000_0000_0000 && Pow2(63) == 0x8000_0000_0000_0000
  {
    Pow2Doubles(8, 0x100);
    Pow2Doubles(16, 0x1_0000);
    Pow2Doubles(32, 0x1_0000_0000);
  }

  lemma Pow2Doubles(n: nat, value: nat)
    requires 0 < n && Pow2(n) == value
    ensures Pow2(2 * n) == value * value && 2 * Pow2(2 * n - 1) == value * value
  {
    Pow2Adds(n, n);
  }

  lemma DivModUnique(a: int, b: nat, q: int, r: int)
    requires 0 <= r < b && a == q * b + r
    ensures a / b == q && a % b == r
  {
    var k := a / b - q;
    assert k * b == r - a % b;
    SmallMultiple(k, b);
  }

  lemma SmallMultiple(k: int, b: nat)
    requires 0 - b < k * b < b
    ensures k == 0
  {
    assert 0 < k ==> b <= k * b;
    assert k < 0 ==> k * b <= 0 - b;
  }

  lemma SuccDivMod(k: nat, b: nat)
    requires 0 < b
    ensures (k + 1) / b == k / b + (if k % b + 1 == b then 1 else 0)
    ensures (k + 1) % b == if k % b + 1 == b then 0 else k % b + 1
  {
    var q, r := k / b, k % b;
    assert k == q * b + r;
    if r + 1 == b {
      assert (q + 1) * b == q * b + b;
      DivModUnique(k + 1, b, q + 1, 0);
    } else {
      DivModUnique(k + 1, b, q, r + 1);
    }
  }
}
