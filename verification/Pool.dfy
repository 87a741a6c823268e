/**
 The fixed-size pools of src/runtime/memory/memory_manager.c: a stack of free block indices
 beside a table of used flags, and the pointer arithmetic that turns an address back into an
 index.
 */
module Pool {
  import opened Arithmetic
  import opened Basics
  import opened Counting
  import opened HeapLayout

  /** Division in C: the quotient is rounded toward zero. */
  function TruncDiv(a: int, b: int): int
    requires 0 < b
  {
    if 0 <= a then a / b else -(-a / b)
  }

  /** The block a pointer is taken to lie in, as free_to_pool computes it. */
  function IndexOf(base: int, blockSize: nat, ptr: int): nat
    requires 0 < blockSize
  {
    TruncDiv(ptr - HEADER - base, blockSize) % U32
  }

  class MemoryPool {
    const base: int
    const blockSize: nat
    const blockCount: nat
    var freeBlocks: nat
    const freeList: array<nat>
    const blockUsed: array<bool>

    /** The free list holds, without repetition, exactly the blocks that are not in use. */
    ghost predicate Valid()
      reads this, freeList, blockUsed
    {
      && 0 < blockSize < U32 && blockCount < U32
      && freeBlocks <= blockCount == freeList.Length == blockUsed.Length
      && (forall i, j :: 0 <= i < j < freeBlocks ==> freeList[i] != freeList[j])
      && (forall k :: 0 <= k < freeBlocks ==> freeList[k] < blockCount && !blockUsed[freeList[k]])
      && (forall b :: 0 <= b < blockCount && !blockUsed[b] ==> b in freeList[..freeBlocks])
    }

    /** The free blocks, the next one to hand out last. */
    ghost function Free(): seq<nat>
      reads this, freeList
      requires freeBlocks <= freeList.Length
    {
      freeList[..freeBlocks]
    }

    ghost function Live(): set<nat>
      reads blockUsed
    {
      set b | 0 <= b < blockUsed.Length && blockUsed[b]
    }

    constructor (base: int, blockSize: nat, blockCount: nat)
      requires 0 < blockSize < U32 && blockCount < U32
      ensures Valid() && fresh(freeList) && fresh(blockUsed)
      ensures this.base == base && this.blockSize == blockSize && this.blockCount == blockCount
      ensures Live() == {}
    {
      this.base, this.blockSize, this.blockCount, freeBlocks := base, blockSize, blockCount, blockCount;
      freeList := new nat[blockCount];
      blockUsed := new bool[blockCount];
      new;
      for j := 0 to blockCount
        invariant freeBlocks == blockCount
        invariant forall k :: 0 <= k < j ==> freeList[k] == k && !blockUsed[k]
      {
        freeList[j] := j;
        blockUsed[j] := false;
      }
      forall b | 0 <= b < blockCount ensures b in freeList[..freeBlocks] { assert freeList[..freeBlocks][b] == b; }
    }

    /** The address a block of the pool is handed out under. */
    function Address(index: nat): int {
      base + index * blockSize + HEADER
    }

    method Allocate() returns (r: Option<int>, ghost index: nat)
      requires Valid()
      modifies this`freeBlocks, blockUsed
      ensures Valid()
      ensures r.None? <==> old(Free()) == []
      ensures r.None? ==> Free() == old(Free()) && Live() == old(Live())
      ensures r.Some? ==>
        && r.value == Address(index) && index < blockCount
        && index !in old(Live()) && Live() == old(Live()) + {index}
        && old(Free()) == Free() + [index]
    {
      if freeBlocks == 0 { return None, 0; }
      freeBlocks := freeBlocks - 1;
      var blockIndex := freeList[freeBlocks];
      blockUsed[blockIndex] := true;
      r, index := Some(base + blockIndex * blockSize + HEADER), blockIndex;
      forall b | 0 <= b < blockCount && !blockUsed[b]
        ensures b in freeList[..freeBlocks]
      {
        var k :| 0 <= k < freeBlocks + 1 && freeList[k] == b;
        assert freeList[..freeBlocks][k] == b;
      }
    }

    method Release(ptr: int) returns (ok: bool)
      requires Valid()
      modifies this`freeBlocks, freeList, blockUsed
      ensures Valid()
      ensures ok <==> IndexOf(base, blockSize, ptr) in old(Live())
      ensures !ok ==> Free() == old(Free()) && Live() == old(Live())
      ensures ok ==>
        var index := IndexOf(base, blockSize, ptr);
        Free() == old(Free()) + [index] && Live() == old(Live()) - {index}
    {
      var blockIndex := IndexOf(base, blockSize, ptr);
      if blockIndex >= blockCount { return false; }
      if !blockUsed[blockIndex] { return false; }
      Conserved();
      assert blockIndex in Live();
      blockUsed[blockIndex] := false;
      freeList[freeBlocks] := blockIndex;
      freeBlocks := freeBlocks + 1;
      assert Free() == old(Free()) + [blockIndex];
      return true;
    }

    /** Every block is either free or live, and none is both. */
    lemma Conserved()
      requires Valid()
      ensures freeBlocks + |Live()| == blockCount
    {
      var free := Free();
      DistinctSize(free);
      assert Elements(free) !! Live();
      assert Below(blockCount) == Elements(free) + Live();
    }
  }

  // ----- Addresses

  lemma QuotientBelowIff(a: nat, b: nat, n: int)
    requires 0 < b
    ensures a / b < n <==> a < n * b
  {
    var q, r, d := a / b, a % b, n - a / b;
    assert a == q * b + r && n * b == q * b + d * b;
    if d >= 1 {
      MultipleGrows(d, b);
    } else {
      MultipleGrows(1 - d, b);
    }
  }

  lemma MultipleGrows(d: int, b: nat)
    requires 1 <= d
    ensures b <= d * b && (1 - d) * b <= 0 && (1 - d) * b == b - d * b
  {
  }

  /** Every address inside a block, so also the one it is handed out under, leads back to it. */
  lemma AddressRoundTrip(base: int, blockSize: nat, index: nat, offset: nat)
    requires 0 < blockSize && index < U32 && offset < blockSize
    ensures IndexOf(base, blockSize, base + index * blockSize + offset + HEADER) == index
  {
    DivModUnique(index * blockSize + offset, blockSize, index, offset);
  }

  /** When the rounded quotient is at least `lo` and below `hi`, for positive, mixed and negative bounds. */
  lemma TruncDivPositive(d: int, b: nat, lo: int, hi: int)
    requires 0 < b && 0 < lo <= hi
    ensures lo <= TruncDiv(d, b) < hi <==> lo * b <= d < hi * b
  {
    if 0 <= d {
      QuotientBelowIff(d, b, lo);
      QuotientBelowIff(d, b, hi);
    } else {
      MultipleGrows(lo, b);
      SmallQuotient(-d, b);
    }
  }

  lemma SmallQuotient(a: nat, b: nat)
    requires 0 < b
    ensures 0 <= a / b && (a / b == 0 <==> a < b)
  {
    QuotientBelowIff(a, b, 1);
  }

  lemma TruncDivZero(d: int, b: nat, hi: int)
    requires 0 < b && 0 < hi
    ensures 0 <= TruncDiv(d, b) < hi <==> 0 - b < d < hi * b
  {
    MultipleGrows(hi, b);
    if 0 <= d {
      QuotientBelowIff(d, b, hi);
    } else {
      SmallQuotient(-d, b);
    }
  }

  lemma TruncDivNegative(d: int, b: nat, lo: int, hi: int)
    requires 0 < b && lo <= hi <= 0
    ensures lo <= TruncDiv(d, b) < hi <==> (lo - 1) * b < d <= (hi - 1) * b
  {
    assert (hi - 1) * b == -((1 - hi) * b) && (lo - 1) * b == -((1 - lo) * b);
    if 0 <= d {
      MultipleGrows(1 - hi, b);
      SmallQuotient(d, b);
    } else {
      QuotientBelowIff(-d, b, 1 - lo);
      QuotientBelowIff(-d, b, 1 - hi);
    }
  }

  /** The distances from the pool whose quotient wraps `m` times into the pool. */
  predicate InWindow(d: int, blockSize: nat, blockCount: nat, m: int) {
    if m > 0 then m * U32 * blockSize <= d < (m * U32 + blockCount) * blockSize
    else if m == 0 then 0 - blockSize < d < blockCount * blockSize
    else (m * U32 - 1) * blockSize < d <= (m * U32 + blockCount - 1) * blockSize
  }

  lemma WindowIff(d: int, blockSize: nat, blockCount: nat, m: int)
    requires 0 < blockSize && 0 < blockCount < U32
    ensures Wraps(TruncDiv(d, blockSize), blockCount, m) <==> InWindow(d, blockSize, blockCount, m)
  {
    var lo, hi := m * U32, m * U32 + blockCount;
    if m > 0 {
      TruncDivPositive(d, blockSize, lo, hi);
    } else if m == 0 {
      TruncDivZero(d, blockSize, hi);
    } else {
      TruncDivNegative(d, blockSize, lo, hi);
    }
  }

  predicate Wraps(q: int, n: nat, m: int) { m * U32 <= q < m * U32 + n }

  lemma WrapsIff(q: int, n: nat)
    requires n < U32
    ensures q % U32 < n <==> exists m: int :: Wraps(q, n, m)
  {
    if q % U32 < n {
      assert Wraps(q, n, q / U32);
    }
  }

  /**
   The pointers that free_to_pool takes for a block of the pool: those inside its memory; those
   less than one block below it, which all count as block 0; and those so far away that the
   quotient wraps into the pool when it is cut to 32 bits.
   */
  lemma CapturedIff(base: int, blockSize: nat, blockCount: nat, ptr: int)
    requires 0 < blockSize && 0 < blockCount < U32
    ensures
      var d := ptr - HEADER - base;
      IndexOf(base, blockSize, ptr) < blockCount <==> exists m: int :: InWindow(d, blockSize, blockCount, m)
  {
    var d := ptr - HEADER - base;
    var q := TruncDiv(d, blockSize);
    WrapsIff(q, blockCount);
    forall m: int
      ensures Wraps(q, blockCount, m) <==> InWindow(d, blockSize, blockCount, m)
    {
      WindowIff(d, blockSize, blockCount, m);
    }
  }

  /** A block that begins less than one block below a pool counts as block 0 of that pool. */
  lemma ForeignBlockCaptured(lower: int, lowerSize: nat, index: nat, upper: int, upperSize: nat)
    requires 0 < upper - (lower + index * lowerSize) < upperSize
    ensures IndexOf(upper, upperSize, lower + index * lowerSize + HEADER) == 0
  {
    var below := upper - (lower + index * lowerSize);
    assert below / upperSize == 0;
  }

  // ----- All pools

  ghost predicate Separate(first: MemoryPool, second: MemoryPool) {
    first != second && first.freeList != second.freeList && first.blockUsed != second.blockUsed
  }

  /** Pools that share nothing. */
  ghost predicate AllSeparate(pools: seq<MemoryPool>) {
    forall i, j :: 0 <= i < j < |pools| ==> Separate(pools[i], pools[j])
  }

  /** The pool takes the pointer for one of its live blocks. */
  ghost predicate Claims(pool: MemoryPool, ptr: int)
    reads pool.blockUsed
  {
    0 < pool.blockSize && IndexOf(pool.base, pool.blockSize, ptr) in pool.Live()
  }

  ghost function Arrays(pools: seq<MemoryPool>): set<object> {
    (set p | p in pools :: p.freeList) + (set p | p in pools :: p.blockUsed)
  }

  /** One pool is asked; the others keep their blocks. */
  method AskPool(pools: seq<MemoryPool>, at: nat, ptr: int) returns (ok: bool)
    requires AllSeparate(pools) && at < |pools| && forall k :: 0 <= k < |pools| ==> pools[k].Valid()
    modifies pools, Arrays(pools)
    ensures forall k :: 0 <= k < |pools| ==> pools[k].Valid()
    ensures ok == old(Claims(pools[at], ptr))
    ensures ok ==> pools[at].Live() == old(pools[at].Live()) - {IndexOf(pools[at].base, pools[at].blockSize, ptr)}
    ensures forall k :: 0 <= k < |pools| && !(ok && k == at) ==> pools[k].Live() == old(pools[k].Live())
  {
    ok := pools[at].Release(ptr);
  }

  /** Memory_Free asks the pools in turn; `at` is the first one that claims the pointer and releases a block. */
  method ReleaseToPools(pools: seq<MemoryPool>, ptr: int) returns (at: nat)
    requires AllSeparate(pools) && forall k :: 0 <= k < |pools| ==> pools[k].Valid()
    modifies pools, Arrays(pools)
    ensures forall k :: 0 <= k < |pools| ==> pools[k].Valid()
    ensures at <= |pools| && forall k :: 0 <= k < at ==> !old(Claims(pools[k], ptr))
    ensures at < |pools| ==>
      && old(Claims(pools[at], ptr))
      && pools[at].Live() == old(pools[at].Live()) - {IndexOf(pools[at].base, pools[at].blockSize, ptr)}
    ensures forall k :: 0 <= k < |pools| && k != at ==> pools[k].Live() == old(pools[k].Live())
  {
    at := 0;
    while at < |pools|
      invariant at <= |pools| && forall k :: 0 <= k < |pools| ==> pools[k].Valid()
      invariant forall k :: 0 <= k < |pools| ==> pools[k].Live() == old(pools[k].Live())
      invariant forall k :: 0 <= k < at ==> !old(Claims(pools[k], ptr))
    {
      var ok := AskPool(pools, at, ptr);
      if ok { return; }
      at := at + 1;
    }
  }

  /**
   So when a pool that begins less than one of its blocks above a live block of another pool is
   asked before that other pool, and its block 0 is live, freeing the block releases that block 0
   instead and the block itself stays live.
   */
  method FreeWrongBlock(pools: seq<MemoryPool>, upper: nat, lower: nat, index: nat) returns (at: nat)
    requires AllSeparate(pools) && forall k :: 0 <= k < |pools| ==> pools[k].Valid()
    requires upper < lower < |pools| && index in pools[lower].Live() && 0 in pools[upper].Live()
    requires 0 < pools[upper].base + HEADER - pools[lower].Address(index) < pools[upper].blockSize
    requires forall k :: 0 <= k < upper ==> !Claims(pools[k], pools[lower].Address(index))
    modifies pools, Arrays(pools)
    ensures at == upper && pools[upper].Live() == old(pools[upper].Live()) - {0}
    ensures index in pools[lower].Live()
    ensures forall k :: 0 <= k < |pools| && k != upper ==> pools[k].Live() == old(pools[k].Live())
  {
    var own, other := pools[lower], pools[upper];
    ForeignBlockCaptured(own.base, own.blockSize, index, other.base, other.blockSize);
    at := ReleaseToPools(pools, own.Address(index));
  }

  // ----- Which pool serves a request

  /** The test of find_suitable_pool on what Memory_Alloc asks for, a 32-bit sum, but for the free blocks. */
  predicate Suitable(blockSize: nat, size: nat) {
    (size + OVERHEAD) % U32 <= blockSize
  }

  /** A block is suitable if it holds the request and its overhead, or if their sum wraps and is small by that. */
  lemma SuitableIff(blockSize: nat, size: nat)
    requires blockSize < U32 && size < U32
    ensures Suitable(blockSize, size) <==> size + 52 <= blockSize || U32 <= size + 52 <= U32 + blockSize
  {
    assert U32 <= size + OVERHEAD ==> (size + OVERHEAD) % U32 == size + OVERHEAD - U32;
  }

  /** A suitable block holds the request exactly when adding the overhead did not wrap. */
  lemma SuitableHoldsIff(blockSize: nat, size: nat)
    requires blockSize < U32 && size < U32 && Suitable(blockSize, size)
    ensures size + OVERHEAD <= blockSize <==> size + OVERHEAD < U32
  {
    SuitableIff(blockSize, size);
  }

  /** The pool has a block left, and its blocks are large enough. */
  ghost predicate Serves(pool: MemoryPool, size: nat)
    reads pool, pool.blockUsed
  {
    |pool.Live()| < pool.blockCount && (size + 52 <= pool.blockSize || U32 <= size + 52 <= U32 + pool.blockSize)
  }

  /** find_suitable_pool: the first pool that serves the request. */
  method FindSuitablePool(pools: seq<MemoryPool>, size: nat) returns (at: nat)
    requires size < U32 && forall k :: 0 <= k < |pools| ==> pools[k].Valid()
    ensures at <= |pools| && forall k :: 0 <= k < at ==> !Serves(pools[k], size)
    ensures at < |pools| ==> Serves(pools[at], size)
  {
    at := 0;
    while at < |pools|
      invariant at <= |pools| && forall k :: 0 <= k < at ==> !Serves(pools[k], size)
    {
      pools[at].Conserved();
      SuitableIff(pools[at].blockSize, size);
      if (size + OVERHEAD) % U32 <= pools[at].blockSize && pools[at].freeBlocks > 0 { return; }
      at := at + 1;
    }
  }
}
