/**
 The heap of src/runtime/memory/memory_manager.c seen as a value: the blocks of the list
 in address order, and what splitting, merging, allocating, freeing, resizing and
 defragmenting do to them. `HeapList` proves the linked list against these functions.

 Sizes are those of a 64-bit build: a 48-byte header, a 4-byte footer, 8-byte words.
 Addresses are offsets from the start of the heap. The C code computes block sizes in
 32-bit unsigned arithmetic; where that can wrap, the model wraps.
 */
module HeapLayout {
  import opened Basics

  const WORD: nat := 8
  const HEADER: nat := 48
  const OVERHEAD: nat := 52

  datatype Block = Block(addr: nat, size: nat, used: bool) {
    function End(): nat { addr + OVERHEAD + size }
  }

  /** Blocks are address ordered, disjoint and inside the heap; the first one starts it. */
  ghost predicate WellFormed(bs: seq<Block>, heapSize: nat) {
    0 < |bs| && bs[0].addr == 0 && Laid(bs, heapSize)
  }

  ghost predicate Laid(bs: seq<Block>, heapSize: nat) {
    && (forall i, j :: 0 <= i < j < |bs| ==> bs[i].End() <= bs[j].addr)
    && (forall i :: 0 <= i < |bs| ==> bs[i].End() <= heapSize)
  }

  /** No two neighbouring blocks are both free. */
  ghost predicate NoFreePair(bs: seq<Block>) {
    forall i :: 0 < i < |bs| ==> bs[i - 1].used || bs[i].used
  }

  /** The bytes the list accounts for: every block with its header and footer. */
  ghost function Total(bs: seq<Block>): nat {
    if bs == [] then 0 else bs[0].size + OVERHEAD + Total(bs[1..])
  }

  /** The blocks in use, in order. */
  ghost function UsedBlocks(bs: seq<Block>): seq<Block> {
    if bs == [] then [] else (if bs[0].used then [bs[0]] else []) + UsedBlocks(bs[1..])
  }

  // ----- The operations on the list of blocks

  /** Rounds a request up to a word, in 32-bit arithmetic. */
  function AlignUp(size: nat): nat {
    (size + WORD - 1) / WORD * WORD % U32
  }

  /** What split_block computes for the remainder: an unsigned subtraction. */
  function Remaining(blockSize: nat, size: nat): nat {
    (blockSize - size - OVERHEAD) % U32
  }

  function SplitAt(bs: seq<Block>, i: nat, size: nat): seq<Block>
    requires i < |bs|
  {
    var remaining := Remaining(bs[i].size, size);
    if remaining < OVERHEAD then bs else
    bs[..i]
    + [bs[i].(size := size), Block(bs[i].addr + OVERHEAD + size, remaining - OVERHEAD, false)]
    + bs[i + 1..]
  }

  function MergeAt(bs: seq<Block>, i: nat): seq<Block>
    requires i + 1 < |bs|
  {
    bs[..i] + [bs[i].(size := (bs[i].size + bs[i + 1].size + OVERHEAD) % U32)] + bs[i + 2..]
  }

  function SetUsed(bs: seq<Block>, i: nat, used: bool): seq<Block>
    requires i < |bs|
  {
    bs[i := bs[i].(used := used)]
  }

  /** The blocks the best-fit search considers (its running minimum starts at 2^32 - 1). */
  predicate Fits(b: Block, size: nat) {
    !b.used && size <= b.size < U32 - 1
  }

  ghost predicate HasFit(bs: seq<Block>, size: nat) {
    exists i :: 0 <= i < |bs| && Fits(bs[i], size)
  }

  /** Block `i` is the first of the smallest blocks that fit. */
  ghost predicate IsBestFit(bs: seq<Block>, size: nat, i: nat) {
    && i < |bs| && Fits(bs[i], size)
    && forall j :: 0 <= j < |bs| && Fits(bs[j], size) ==>
         bs[i].size < bs[j].size || (bs[i].size == bs[j].size && i <= j)
  }

  ghost function BestFit(bs: seq<Block>, size: nat): (r: Option<nat>)
    ensures r.Some? ==> IsBestFit(bs, size, r.value)
  {
    if i: nat :| IsBestFit(bs, size, i) then Some(i) else None
  }

  function AllocAt(bs: seq<Block>, i: nat, size: nat): (r: seq<Block>)
    requires i < |bs|
    ensures i < |r| && |bs| <= |r|
  {
    SetUsed(SplitAt(bs, i, size), i, true)
  }

  function MergeIfFree(bs: seq<Block>, i: nat): (r: seq<Block>)
    requires i < |bs|
    ensures i < |r|
  {
    if i + 1 < |bs| && !bs[i + 1].used then MergeAt(bs, i) else bs
  }

  function FreeAt(bs: seq<Block>, i: nat): seq<Block>
    requires i < |bs|
  {
    var merged := MergeIfFree(SetUsed(bs, i, false), i);
    if 0 < i && !merged[i - 1].used then MergeAt(merged, i - 1) else merged
  }

  /** Merges every run of free blocks into its first block. */
  function Coalesce(bs: seq<Block>): seq<Block>
    decreases |bs|
  {
    if |bs| < 2 then bs
    else if !bs[0].used && !bs[1].used then Coalesce(MergeAt(bs, 0))
    else [bs[0]] + Coalesce(bs[1..])
  }

  // ----- The calls of the memory manager

  /** The checks Memory_Free and Memory_Realloc make before touching a block. */
  predicate IsValidBlock(b: Block, heapSize: nat) {
    b.addr < heapSize && b.size != 0 && b.size <= heapSize - OVERHEAD
  }

  predicate CanFree(b: Block, heapSize: nat, guardsOk: bool) {
    IsValidBlock(b, heapSize) && b.used && guardsOk
  }

  predicate CanResize(bs: seq<Block>, i: nat, size: nat, heapSize: nat, guardsOk: bool) {
    i < |bs| && size != 0 && IsValidBlock(bs[i], heapSize) && guardsOk
  }

  /** Memory_Realloc grows block `i` in place by swallowing the next one. */
  predicate CanGrow(bs: seq<Block>, i: nat, size: nat)
    requires i < |bs|
  {
    i + 1 < |bs| && !bs[i + 1].used && size <= (bs[i].size + bs[i + 1].size) % U32 + OVERHEAD
  }

  /**
   One step on the heap. `pooled` says that a memory pool served the request, `guardsOk`
   what the guard words of the block say. `Resize` is the in-place part of Memory_Realloc;
   when neither shrinking nor growing applies, Memory_Realloc goes on with an `Alloc` and
   a `Free`.
   */
  datatype Op =
    | Alloc(size: nat, pooled: bool)
    | Free(at: nat, guardsOk: bool)
    | Resize(at: nat, size: nat, guardsOk: bool)
    | Defragment

  ghost function Step(bs: seq<Block>, op: Op, heapSize: nat): seq<Block> {
    match op
    case Alloc(size, pooled) =>
      var fit := BestFit(bs, AlignUp(size));
      if pooled || size == 0 || fit.None? then bs else AllocAt(bs, fit.value, AlignUp(size))
    case Free(i, guardsOk) => FreeStep(bs, i, heapSize, guardsOk)
    case Resize(i, size, guardsOk) =>
      if CanResize(bs, i, size, heapSize, guardsOk) then ResizeAt(bs, i, AlignUp(size)) else bs
    case Defragment => Coalesce(bs)
  }

  function FreeStep(bs: seq<Block>, i: nat, heapSize: nat, guardsOk: bool): seq<Block> {
    if i < |bs| && CanFree(bs[i], heapSize, guardsOk) then FreeAt(bs, i) else bs
  }

  function ResizeAt(bs: seq<Block>, i: nat, size: nat): (r: seq<Block>)
    requires i < |bs|
    ensures i < |r|
  {
    if size == bs[i].size then bs
    else if size < bs[i].size then SplitAt(bs, i, size)
    else if CanGrow(bs, i, size) then SplitAt(MergeAt(bs, i), i, size)
    else bs
  }

  /** The step splits a block that has no room for a second header and footer. */
  ghost predicate Tight(bs: seq<Block>, op: Op, heapSize: nat) {
    match op
    case Alloc(size, pooled) =>
      var fit := BestFit(bs, AlignUp(size));
      !pooled && size != 0 && fit.Some? && bs[fit.value].size < AlignUp(size) + OVERHEAD
    case Free(_, _) => false
    case Resize(i, size, guardsOk) =>
      CanResize(bs, i, size, heapSize, guardsOk) && TightResize(bs, i, AlignUp(size))
    case Defragment => false
  }

  predicate TightResize(bs: seq<Block>, i: nat, size: nat)
    requires i < |bs|
  {
    if size <= bs[i].size then bs[i].size - OVERHEAD < size < bs[i].size
    else CanGrow(bs, i, size) && MergeAt(bs, i)[i].size < size + OVERHEAD
  }

  /** How many splits the step performs: the blocks it adds, not counting a swallowed one. */
  ghost function Splits(bs: seq<Block>, op: Op, heapSize: nat): int {
    var added := |Step(bs, op, heapSize)| - |bs|;
    match op
    case Alloc(_, _) => added
    case Resize(i, size, guardsOk) =>
      if CanResize(bs, i, size, heapSize, guardsOk)
         && bs[i].size < AlignUp(size) && CanGrow(bs, i, AlignUp(size))
      then added + 1 else added
    case _ => 0
  }

  // ----- Accounting

  lemma {:induction false} TotalConcat(a: seq<Block>, b: seq<Block>)
    ensures Total(a + b) == Total(a) + Total(b)
  {
    if a == [] {
      assert a + b == b;
    } else {
      assert (a + b)[1..] == a[1..] + b;
      TotalConcat(a[1..], b);
    }
  }

  lemma TotalOne(a: seq<Block>, x: Block, b: seq<Block>)
    ensures Total(a + [x] + b) == Total(a) + x.size + OVERHEAD + Total(b)
  {
    TotalConcat(a + [x], b);
    TotalConcat(a, [x]);
    assert [x][1..] == [];
  }

  lemma TotalTwo(a: seq<Block>, x: Block, y: Block, b: seq<Block>)
    ensures Total(a + [x, y] + b) == Total(a) + x.size + y.size + 2 * OVERHEAD + Total(b)
  {
    assert a + [x, y] == (a + [x]) + [y];
    TotalOne(a + [x], y, b);
    TotalOne(a, x, []);
    assert a + [x] + [] == a + [x];
  }

  lemma TotalReplaced(a: seq<Block>, one: Block, x: Block, y: Block, b: seq<Block>)
    ensures Total(a + [x, y] + b) + one.size == Total(a + [one] + b) + x.size + y.size + OVERHEAD
  {
    TotalOne(a, one, b);
    TotalTwo(a, x, y, b);
  }

  lemma Parts(bs: seq<Block>, i: nat)
    requires i < |bs|
    ensures bs == bs[..i] + [bs[i]] + bs[i + 1..]
  {
  }

  lemma PairParts(bs: seq<Block>, i: nat)
    requires i + 1 < |bs|
    ensures bs == bs[..i] + [bs[i], bs[i + 1]] + bs[i + 2..]
  {
  }

  /** The running sum of Memory_CheckIntegrity, in 32-bit arithmetic. */
  lemma TotalMore(bs: seq<Block>, k: nat)
    requires k < |bs|
    ensures Total(bs[..k + 1]) % U32 == (Total(bs[..k]) % U32 + bs[k].size + OVERHEAD) % U32
  {
    TotalOne(bs[..k], bs[k], []);
    assert bs[..k + 1] == bs[..k] + [bs[k]] + [];
  }

  /** Well-formed blocks never account for more than the heap. */
  lemma {:induction false} TotalFits(bs: seq<Block>, lo: nat, hi: nat)
    requires lo <= hi
    requires forall i :: 0 <= i < |bs| ==> lo <= bs[i].addr && bs[i].End() <= hi
    requires forall i, j :: 0 <= i < j < |bs| ==> bs[i].End() <= bs[j].addr
    ensures Total(bs) <= hi - lo
  {
    if bs != [] {
      TotalFits(bs[1..], bs[0].End(), hi);
    }
  }

  /** No size computed by a merge wraps. */
  lemma MergeSize(bs: seq<Block>, i: nat, heapSize: nat)
    requires Laid(bs, heapSize) && heapSize < U32 && i + 1 < |bs|
    ensures MergeAt(bs, i)[i] == bs[i].(size := bs[i].size + bs[i + 1].size + OVERHEAD)
    ensures MergeAt(bs, i)[i].End() <= bs[i + 1].End()
  {
    assert bs[i].End() <= bs[i + 1].addr;
    assert bs[i + 1].End() <= heapSize;
  }

  lemma MergeTotal(bs: seq<Block>, i: nat)
    requires i + 1 < |bs| && bs[i].size + bs[i + 1].size + OVERHEAD < U32
    ensures Total(MergeAt(bs, i)) == Total(bs)
  {
    PairParts(bs, i);
    MergeParts(bs, i);
    var merged := bs[i].(size := bs[i].size + bs[i + 1].size + OVERHEAD);
    TotalReplaced(bs[..i], merged, bs[i], bs[i + 1], bs[i + 2..]);
  }

  lemma MergeParts(bs: seq<Block>, i: nat)
    requires i + 1 < |bs| && bs[i].size + bs[i + 1].size + OVERHEAD < U32
    ensures MergeAt(bs, i) == bs[..i] + [bs[i].(size := bs[i].size + bs[i + 1].size + OVERHEAD)] + bs[i + 2..]
  {
  }

  /** A merge keeps the layout and conserves the accounted bytes. */
  lemma MergeKeeps(bs: seq<Block>, i: nat, heapSize: nat)
    requires Laid(bs, heapSize) && heapSize < U32 && i + 1 < |bs|
    ensures Laid(MergeAt(bs, i), heapSize)
    ensures Total(MergeAt(bs, i)) == Total(bs)
  {
    MergeSize(bs, i, heapSize);
    MergeTotal(bs, i);
    MergeLaid(bs, MergeAt(bs, i), i, heapSize);
  }

  lemma MergeLaid(bs: seq<Block>, ms: seq<Block>, i: nat, heapSize: nat)
    requires Laid(bs, heapSize) && i + 1 < |bs| && |ms| == |bs| - 1
    requires ms[..i] == bs[..i] && ms[i + 1..] == bs[i + 2..]
    requires ms[i].addr == bs[i].addr && ms[i].End() <= bs[i + 1].End()
    ensures Laid(ms, heapSize)
  {
    forall j | 0 <= j < |ms|
      ensures ms[j].addr == bs[if j <= i then j else j + 1].addr
      ensures ms[j].End() <= bs[if j < i then j else j + 1].End()
    {
      if j < i {
        assert ms[j] == ms[..i][j];
      } else if i < j {
        assert ms[j] == ms[i + 1..][j - i - 1] == bs[i + 2..][j - i - 1];
      }
    }
  }

  /**
   Splitting keeps the layout exactly when the block has room for the request and one more
   header and footer. Otherwise the unsigned remainder wraps and the new block claims
   almost 4 GiB beyond the end of the heap.
   */
  lemma SplitKeepsIff(bs: seq<Block>, i: nat, size: nat, heapSize: nat)
    requires Laid(bs, heapSize) && heapSize < U32
    requires i < |bs| && size <= bs[i].size
    ensures Laid(SplitAt(bs, i, size), heapSize) <==> size + OVERHEAD <= bs[i].size
  {
    var b, ss := bs[i], SplitAt(bs, i, size);
    assert b.End() <= heapSize;
    if size + OVERHEAD <= b.size {
      assert Remaining(b.size, size) == b.size - size - OVERHEAD;
      if OVERHEAD <= Remaining(b.size, size) {
        SplitLaid(bs, ss, i, heapSize);
      }
    } else {
      assert Remaining(b.size, size) == b.size - size - OVERHEAD + U32;
      assert ss[i + 1].End() > heapSize;
    }
  }

  lemma SplitLaid(bs: seq<Block>, ss: seq<Block>, i: nat, heapSize: nat)
    requires Laid(bs, heapSize) && i < |bs| && |ss| == |bs| + 1
    requires ss[..i] == bs[..i] && ss[i + 2..] == bs[i + 1..]
    requires ss[i].addr == bs[i].addr && ss[i].End() <= ss[i + 1].addr && ss[i + 1].End() <= bs[i].End()
    ensures Laid(ss, heapSize)
  {
    forall j | 0 <= j < |ss|
      ensures bs[if j <= i then j else j - 1].addr <= ss[j].addr
      ensures ss[j].End() <= bs[if j <= i then j else j - 1].End()
    {
      if j < i {
        assert ss[j] == ss[..i][j];
      } else if i + 1 < j {
        assert ss[j] == ss[i + 2..][j - i - 2] == bs[i + 1..][j - i - 2];
      }
    }
  }

  /** A split with room leaves the accounted bytes short by exactly one overhead. */
  lemma SplitTotal(bs: seq<Block>, i: nat, size: nat)
    requires i < |bs| && size + OVERHEAD <= bs[i].size < U32
    ensures Total(SplitAt(bs, i, size)) + OVERHEAD * (|SplitAt(bs, i, size)| - |bs|) == Total(bs)
  {
    var remaining := Remaining(bs[i].size, size);
    if OVERHEAD <= remaining {
      Parts(bs, i);
      var cut, rest := bs[i].(size := size), Block(bs[i].addr + OVERHEAD + size, remaining - OVERHEAD, false);
      TotalReplaced(bs[..i], bs[i], cut, rest, bs[i + 1..]);
    }
  }

  lemma SetUsedTotal(bs: seq<Block>, i: nat, used: bool)
    requires i < |bs|
    ensures Total(SetUsed(bs, i, used)) == Total(bs)
  {
    var us := SetUsed(bs, i, used);
    Parts(bs, i);
    Parts(us, i);
    assert us[..i] == bs[..i] && us[i + 1..] == bs[i + 1..];
    TotalOne(bs[..i], bs[i], bs[i + 1..]);
    TotalOne(bs[..i], us[i], bs[i + 1..]);
  }

  lemma SetUsedKeeps(bs: seq<Block>, i: nat, used: bool, heapSize: nat)
    requires i < |bs|
    ensures Laid(SetUsed(bs, i, used), heapSize) <==> Laid(bs, heapSize)
    ensures Total(SetUsed(bs, i, used)) == Total(bs)
  {
    var us := SetUsed(bs, i, used);
    assert forall j :: 0 <= j < |bs| ==> us[j].addr == bs[j].addr && us[j].End() == bs[j].End();
    SetUsedTotal(bs, i, used);
  }

  // ----- Every run

  lemma FreeKeeps(bs: seq<Block>, i: nat, heapSize: nat)
    requires Laid(bs, heapSize) && heapSize < U32 && i < |bs|
    ensures Laid(FreeAt(bs, i), heapSize)
    ensures Total(FreeAt(bs, i)) == Total(bs)
  {
    var freed := SetUsed(bs, i, false);
    SetUsedKeeps(bs, i, false, heapSize);
    if i + 1 < |freed| && !freed[i + 1].used {
      MergeKeeps(freed, i, heapSize);
    }
    var merged := MergeIfFree(freed, i);
    if 0 < i && !merged[i - 1].used {
      MergeKeeps(merged, i - 1, heapSize);
    }
  }

  lemma {:induction false} CoalesceKeeps(bs: seq<Block>, heapSize: nat)
    requires Laid(bs, heapSize) && heapSize < U32
    ensures Laid(Coalesce(bs), heapSize)
    ensures Total(Coalesce(bs)) == Total(bs)
    ensures bs != [] ==> Coalesce(bs) != [] && Coalesce(bs)[0].addr == bs[0].addr
    decreases |bs|
  {
    if |bs| < 2 {
    } else if !bs[0].used && !bs[1].used {
      MergeKeeps(bs, 0, heapSize);
      CoalesceKeeps(MergeAt(bs, 0), heapSize);
    } else {
      CoalesceKeeps(bs[1..], heapSize);
      ConsLaid(bs[0], Coalesce(bs[1..]), heapSize);
      assert Coalesce(bs)[1..] == Coalesce(bs[1..]);
    }
  }

  lemma ConsLaid(b: Block, bs: seq<Block>, heapSize: nat)
    requires Laid(bs, heapSize) && b.End() <= heapSize
    requires bs != [] ==> b.End() <= bs[0].addr
    ensures Laid([b] + bs, heapSize)
  {
    var cs := [b] + bs;
    forall i, j | 0 <= i < j < |cs|
      ensures cs[i].End() <= cs[j].addr
    {
      assert cs[j] == bs[j - 1];
      if i == 0 {
        assert j == 1 || bs[0].End() <= bs[j - 1].addr;
      }
    }
  }

  lemma {:induction false} BestFitExists(bs: seq<Block>, size: nat)
    requires HasFit(bs, size)
    ensures exists i: nat :: IsBestFit(bs, size, i)
  {
    var n := |bs| - 1;
    var prefix := bs[..n];
    if HasFit(prefix, size) {
      BestFitExists(prefix, size);
      var i: nat :| IsBestFit(prefix, size, i);
      assert bs[i] == prefix[i];
      if Fits(bs[n], size) && bs[n].size < bs[i].size {
        assert IsBestFit(bs, size, n);
      } else {
        forall j | 0 <= j < |bs| && Fits(bs[j], size)
          ensures bs[i].size < bs[j].size || (bs[i].size == bs[j].size && i <= j)
        {
          assert j == n || bs[j] == prefix[j];
        }
        assert IsBestFit(bs, size, i);
      }
    } else {
      forall j | 0 <= j < n
        ensures !Fits(bs[j], size)
      {
        assert bs[j] == prefix[j];
      }
      assert IsBestFit(bs, size, n);
    }
  }

  /** One step keeps the layout exactly when it is not a tight split. */
  lemma StepKeepsIff(bs: seq<Block>, op: Op, heapSize: nat)
    requires WellFormed(bs, heapSize) && heapSize < U32
    ensures WellFormed(Step(bs, op, heapSize), heapSize) <==> !Tight(bs, op, heapSize)
  {
    match op
    case Alloc(size, pooled) =>
      var fit := BestFit(bs, AlignUp(size));
      if !pooled && size != 0 && fit.Some? {
        AllocKeepsIff(bs, fit.value, AlignUp(size), heapSize);
      }
    case Free(i, guardsOk) =>
      if i < |bs| && CanFree(bs[i], heapSize, guardsOk) {
        FreeKeeps(bs, i, heapSize);
        FirstStays(bs, i);
      }
    case Resize(i, size, guardsOk) =>
      if i < |bs| {
        ResizeKeepsIff(bs, i, AlignUp(size), heapSize);
      }
    case Defragment =>
      CoalesceKeeps(bs, heapSize);
  }

  lemma FirstStays(bs: seq<Block>, i: nat)
    requires i < |bs|
    ensures FreeAt(bs, i) != [] && FreeAt(bs, i)[0].addr == bs[0].addr
  {
  }

  lemma AllocKeepsIff(bs: seq<Block>, i: nat, size: nat, heapSize: nat)
    requires WellFormed(bs, heapSize) && heapSize < U32 && i < |bs| && size <= bs[i].size
    ensures WellFormed(AllocAt(bs, i, size), heapSize) <==> size + OVERHEAD <= bs[i].size
  {
    SplitKeepsIff(bs, i, size, heapSize);
    SetUsedKeeps(SplitAt(bs, i, size), i, true, heapSize);
  }

  lemma ResizeKeepsIff(bs: seq<Block>, i: nat, size: nat, heapSize: nat)
    requires WellFormed(bs, heapSize) && heapSize < U32 && i < |bs|
    ensures WellFormed(ResizeAt(bs, i, size), heapSize) <==> !TightResize(bs, i, size)
  {
    if size < bs[i].size {
      SplitKeepsIff(bs, i, size, heapSize);
    } else if bs[i].size < size && CanGrow(bs, i, size) {
      MergeSize(bs, i, heapSize);
      MergeKeeps(bs, i, heapSize);
      SplitKeepsIff(MergeAt(bs, i), i, size, heapSize);
    }
  }

  /** One step that is not tight accounts for every byte but one overhead a split. */
  lemma StepAccounts(bs: seq<Block>, op: Op, heapSize: nat)
    requires WellFormed(bs, heapSize) && heapSize < U32 && !Tight(bs, op, heapSize)
    ensures Total(Step(bs, op, heapSize)) + OVERHEAD * Splits(bs, op, heapSize) == Total(bs)
    ensures 0 <= Splits(bs, op, heapSize) <= 1
  {
    match op
    case Alloc(size, pooled) =>
      var fit := BestFit(bs, AlignUp(size));
      if !pooled && size != 0 && fit.Some? {
        SplitTotal(bs, fit.value, AlignUp(size));
        SetUsedTotal(SplitAt(bs, fit.value, AlignUp(size)), fit.value, true);
      }
    case Free(i, guardsOk) =>
      if i < |bs| {
        FreeKeeps(bs, i, heapSize);
      }
    case Resize(i, size, guardsOk) =>
      if CanResize(bs, i, size, heapSize, guardsOk) {
        ResizeAccounts(bs, i, AlignUp(size), heapSize);
      }
    case Defragment =>
      CoalesceKeeps(bs, heapSize);
  }

  lemma ResizeAccounts(bs: seq<Block>, i: nat, size: nat, heapSize: nat)
    requires WellFormed(bs, heapSize) && heapSize < U32 && i < |bs| && !TightResize(bs, i, size)
    ensures
      var grown := if bs[i].size < size && CanGrow(bs, i, size) then 1 else 0;
      var splits := |ResizeAt(bs, i, size)| - |bs| + grown;
      0 <= splits <= 1 && Total(ResizeAt(bs, i, size)) + OVERHEAD * splits == Total(bs)
  {
    assert bs[i].End() <= heapSize;
    if size < bs[i].size {
      SplitTotal(bs, i, size);
    } else if bs[i].size < size && CanGrow(bs, i, size) {
      MergeKeeps(bs, i, heapSize);
      SplitTotal(MergeAt(bs, i), i, size);
    }
  }

  function InitialBlocks(heapSize: nat): seq<Block>
    requires OVERHEAD <= heapSize
  {
    [Block(0, heapSize - OVERHEAD, false)]
  }

  ghost function Final(bs: seq<Block>, ops: seq<Op>, heapSize: nat): seq<Block>
    decreases |ops|
  {
    if ops == [] then bs else Final(Step(bs, ops[0], heapSize), ops[1..], heapSize)
  }

  ghost function SplitCount(bs: seq<Block>, ops: seq<Op>, heapSize: nat): int
    decreases |ops|
  {
    if ops == [] then 0
    else Splits(bs, ops[0], heapSize) + SplitCount(Step(bs, ops[0], heapSize), ops[1..], heapSize)
  }

  /** The list is well formed before, between and after the steps. */
  ghost predicate AlwaysWellFormed(bs: seq<Block>, ops: seq<Op>, heapSize: nat)
    decreases |ops|
  {
    && WellFormed(bs, heapSize)
    && (ops != [] ==> AlwaysWellFormed(Step(bs, ops[0], heapSize), ops[1..], heapSize))
  }

  ghost predicate NeverTight(bs: seq<Block>, ops: seq<Op>, heapSize: nat)
    decreases |ops|
  {
    ops != [] ==>
      && !Tight(bs, ops[0], heapSize)
      && NeverTight(Step(bs, ops[0], heapSize), ops[1..], heapSize)
  }

  /** A run keeps the list well formed throughout exactly when none of its splits is tight. */
  lemma {:induction false} RunKeepsIff(bs: seq<Block>, ops: seq<Op>, heapSize: nat)
    requires WellFormed(bs, heapSize) && heapSize < U32
    ensures AlwaysWellFormed(bs, ops, heapSize) <==> NeverTight(bs, ops, heapSize)
    decreases |ops|
  {
    if ops != [] {
      StepKeepsIff(bs, ops[0], heapSize);
      var next := Step(bs, ops[0], heapSize);
      if WellFormed(next, heapSize) {
        RunKeepsIff(next, ops[1..], heapSize);
      }
    }
  }

  lemma {:induction false} RunAccounts(bs: seq<Block>, ops: seq<Op>, heapSize: nat)
    requires WellFormed(bs, heapSize) && heapSize < U32 && NeverTight(bs, ops, heapSize)
    ensures Total(Final(bs, ops, heapSize)) + OVERHEAD * SplitCount(bs, ops, heapSize) == Total(bs)
    decreases |ops|
  {
    if ops != [] {
      StepKeepsIff(bs, ops[0], heapSize);
      StepAccounts(bs, ops[0], heapSize);
      RunAccounts(Step(bs, ops[0], heapSize), ops[1..], heapSize);
    }
  }

  /** From Memory_Init on: the heap is its blocks plus one lost overhead for every split. */
  lemma HeapConserved(heapSize: nat, ops: seq<Op>)
    requires OVERHEAD <= heapSize < U32 && AlwaysWellFormed(InitialBlocks(heapSize), ops, heapSize)
    ensures heapSize == Total(Final(InitialBlocks(heapSize), ops, heapSize))
                        + OVERHEAD * SplitCount(InitialBlocks(heapSize), ops, heapSize)
  {
    RunKeepsIff(InitialBlocks(heapSize), ops, heapSize);
    RunAccounts(InitialBlocks(heapSize), ops, heapSize);
  }

  /** A request that nearly fills a fresh 1000-byte heap breaks its list. */
  lemma NearlyFullRequestBreaksList()
    ensures WellFormed(InitialBlocks(1000), 1000)
    ensures !WellFormed(Step(InitialBlocks(1000), Alloc(900, false), 1000), 1000)
  {
    var bs := InitialBlocks(1000);
    assert AlignUp(900) == 904;
    assert Fits(bs[0], 904);
    BestFitExists(bs, 904);
    StepKeepsIff(bs, Alloc(900, false), 1000);
  }

  // ----- No two free neighbours

  lemma AllocKeepsNoFreePair(bs: seq<Block>, i: nat, size: nat)
    requires NoFreePair(bs) && i < |bs| && !bs[i].used
    ensures NoFreePair(AllocAt(bs, i, size))
  {
    var rs := AllocAt(bs, i, size);
    if |rs| != |bs| {
      assert forall j :: i + 1 < j < |rs| ==> rs[j] == bs[j - 1];
      assert i + 1 < |bs| ==> bs[i + 1].used;
    }
  }

  /** Every pair but the one ending at `i` has a block in use. */
  ghost predicate NoFreePairBut(bs: seq<Block>, i: nat) {
    forall j :: 0 < j < |bs| && j != i ==> bs[j - 1].used || bs[j].used
  }

  lemma MergeIfFreeLeavesOne(bs: seq<Block>, i: nat)
    requires NoFreePair(bs) && i < |bs|
    ensures NoFreePairBut(MergeIfFree(SetUsed(bs, i, false), i), i)
  {
    var freed := SetUsed(bs, i, false);
    if i + 1 < |bs| && !bs[i + 1].used {
      var ms := MergeAt(freed, i);
      forall j | 0 < j < |ms| && j != i
        ensures ms[j - 1].used || ms[j].used
      {
        if i < j {
          assert ms[j] == bs[j + 1];
          assert j == i + 1 || ms[j - 1] == bs[j];
          assert bs[j].used || bs[j + 1].used;
        } else {
          assert ms[j - 1] == bs[j - 1] && ms[j] == bs[j];
        }
      }
    }
  }

  lemma MergeRemovesLast(ms: seq<Block>, i: nat)
    requires NoFreePairBut(ms, i) && 0 < i < |ms| && !ms[i - 1].used && !ms[i].used
    ensures NoFreePair(MergeAt(ms, i - 1))
  {
    var rs := MergeAt(ms, i - 1);
    forall j | 0 < j < |rs|
      ensures rs[j - 1].used || rs[j].used
    {
      if i <= j {
        assert rs[j] == ms[j + 1];
        assert j == i || rs[j - 1] == ms[j];
        assert ms[j].used || ms[j + 1].used;
      } else {
        assert rs[j - 1] == ms[j - 1] && rs[j].used == ms[j].used;
      }
    }
  }

  lemma FreeKeepsNoFreePair(bs: seq<Block>, i: nat)
    requires NoFreePair(bs) && i < |bs|
    ensures NoFreePair(FreeAt(bs, i))
  {
    MergeIfFreeLeavesOne(bs, i);
    var ms := MergeIfFree(SetUsed(bs, i, false), i);
    assert !ms[i].used;
    if 0 < i && !ms[i - 1].used {
      MergeRemovesLast(ms, i);
    }
  }

  /** Resizing breaks the property exactly when it splits next to, or inside, a free block. */
  lemma ResizeKeepsNoFreePairIff(bs: seq<Block>, i: nat, size: nat)
    requires NoFreePair(bs) && i < |bs|
    ensures NoFreePair(ResizeAt(bs, i, size)) <==>
            !(&& size < bs[i].size && OVERHEAD <= Remaining(bs[i].size, size)
              && (!bs[i].used || (i + 1 < |bs| && !bs[i + 1].used)))
  {
    var rs := ResizeAt(bs, i, size);
    if size < bs[i].size && OVERHEAD <= Remaining(bs[i].size, size) {
      assert forall j :: i + 1 < j < |rs| ==> rs[j] == bs[j - 1];
      assert rs[i].used == bs[i].used && !rs[i + 1].used;
      assert !bs[i].used ==> !(rs[i + 1 - 1].used || rs[i + 1].used);
      if i + 1 < |bs| {
        assert rs[i + 2] == bs[i + 1];
        assert !bs[i + 1].used ==> !(rs[i + 2 - 1].used || rs[i + 2].used);
      }
    } else if bs[i].size < size && CanGrow(bs, i, size) {
      var ms := MergeAt(bs, i);
      assert bs[i].used && (i + 2 < |bs| ==> bs[i + 2].used);
      assert forall j :: i < j < |ms| ==> ms[j] == bs[j + 1];
      if |rs| != |ms| {
        assert forall j :: i + 1 < j < |rs| ==> rs[j] == ms[j - 1];
      }
    }
  }

  /** Defragmenting restores the property from any list and leaves every used block alone. */
  lemma {:induction false} CoalesceNormalises(bs: seq<Block>)
    ensures NoFreePair(Coalesce(bs))
    ensures UsedBlocks(Coalesce(bs)) == UsedBlocks(bs)
    ensures |Coalesce(bs)| <= |bs|
    ensures bs != [] ==> Coalesce(bs) != [] && Coalesce(bs)[0].used == bs[0].used
    decreases |bs|
  {
    if |bs| < 2 {
    } else if !bs[0].used && !bs[1].used {
      var ms := MergeAt(bs, 0);
      CoalesceNormalises(ms);
      assert ms[1..] == bs[2..] == bs[1..][1..];
    } else {
      var cs := Coalesce(bs[1..]);
      CoalesceNormalises(bs[1..]);
      assert forall j :: 0 < j < |[bs[0]] + cs| ==> ([bs[0]] + cs)[j] == cs[j - 1];
      assert ([bs[0]] + cs)[1..] == cs;
    }
  }

  /** A list without free neighbours is already defragmented. */
  lemma {:induction false} CoalesceFixpoint(bs: seq<Block>)
    requires NoFreePair(bs)
    ensures Coalesce(bs) == bs
    decreases |bs|
  {
    if 2 <= |bs| {
      assert bs[0].used || bs[1].used;
      assert forall j :: 0 < j < |bs[1..]| ==> bs[1..][j - 1] == bs[j] && bs[1..][j] == bs[j + 1];
      CoalesceFixpoint(bs[1..]);
    }
  }

  lemma MergeKeepsFits(bs: seq<Block>, size: nat, i: nat, heapSize: nat)
    requires Laid(bs, heapSize) && heapSize < U32 && 2 <= |bs| && !bs[0].used
    requires i < |bs| && Fits(bs[i], size)
    ensures HasFit(MergeAt(bs, 0), size)
  {
    MergeSize(bs, 0, heapSize);
    assert bs[1].End() <= heapSize;
    assert Fits(MergeAt(bs, 0)[if i < 2 then 0 else i - 1], size);
  }

  /** Every request that could be served before defragmenting can be served after it. */
  lemma {:induction false} CoalesceKeepsFits(bs: seq<Block>, size: nat, heapSize: nat)
    requires Laid(bs, heapSize) && heapSize < U32 && HasFit(bs, size)
    ensures HasFit(Coalesce(bs), size)
    decreases |bs|
  {
    var i :| 0 <= i < |bs| && Fits(bs[i], size);
    if |bs| < 2 {
    } else if !bs[0].used && !bs[1].used {
      MergeKeeps(bs, 0, heapSize);
      MergeKeepsFits(bs, size, i, heapSize);
      CoalesceKeepsFits(MergeAt(bs, 0), size, heapSize);
    } else if i == 0 {
      assert Coalesce(bs)[0] == bs[0];
    } else {
      assert bs[1..][i - 1] == bs[i];
      CoalesceKeepsFits(bs[1..], size, heapSize);
      var cs := Coalesce(bs[1..]);
      var k :| 0 <= k < |cs| && Fits(cs[k], size);
      assert Coalesce(bs)[k + 1] == cs[k];
    }
  }

  /** Runs of Memory_Alloc, Memory_Free and Memory_Defragment without a tight split never leave two free neighbours. */
  lemma {:induction false} RunKeepsNoFreePair(bs: seq<Block>, ops: seq<Op>, heapSize: nat)
    requires WellFormed(bs, heapSize) && heapSize < U32 && NeverTight(bs, ops, heapSize)
    requires NoFreePair(bs) && forall op :: op in ops ==> !op.Resize?
    ensures NoFreePair(Final(bs, ops, heapSize))
    decreases |ops|
  {
    if ops != [] {
      StepKeepsNoFreePair(bs, ops[0], heapSize);
      StepKeepsIff(bs, ops[0], heapSize);
      RunKeepsNoFreePair(Step(bs, ops[0], heapSize), ops[1..], heapSize);
    }
  }

  lemma StepKeepsNoFreePair(bs: seq<Block>, op: Op, heapSize: nat)
    requires NoFreePair(bs) && !op.Resize?
    ensures NoFreePair(Step(bs, op, heapSize))
  {
    match op
    case Alloc(size, pooled) =>
      var fit := BestFit(bs, AlignUp(size));
      if fit.Some? {
        AllocKeepsNoFreePair(bs, fit.value, AlignUp(size));
      }
    case Free(i, guardsOk) =>
      if i < |bs| {
        FreeKeepsNoFreePair(bs, i);
      }
    case Defragment =>
      CoalesceNormalises(bs);
  }

  // ----- Facts the list program needs

  lemma BestFitUnique(bs: seq<Block>, size: nat, i: nat)
    requires IsBestFit(bs, size, i)
    ensures BestFit(bs, size) == Some(i)
  {
    assert IsBestFit(bs, size, BestFit(bs, size).value);
  }

  /** A rounded request holds the request, unless rounding it wrapped. */
  lemma AlignUpHolds(size: nat)
    requires size < U32
    ensures AlignUp(size) % WORD == 0
    ensures AlignUp(AlignUp(size)) == AlignUp(size)
    ensures size <= AlignUp(size) < size + WORD <==> size <= U32 - WORD
  {
    var words := (size + WORD - 1) / WORD;
    assert words * WORD <= size + WORD - 1;
    if size <= U32 - WORD {
      assert AlignUp(size) == words * WORD;
    } else {
      assert words * WORD == U32;
    }
  }

  /**
   The calls Memory_Realloc makes on block `i`: it frees, does nothing, resizes in place,
   or allocates and then frees the old block, which the allocation may have moved by one.
   */
  ghost function ReallocOps(bs: seq<Block>, i: nat, size: nat, heapSize: nat, guardsOk: bool, pooled: bool): seq<Op>
    requires i < |bs|
  {
    var need := AlignUp(size);
    if size == 0 then [Free(i, guardsOk)]
    else if !CanResize(bs, i, size, heapSize, guardsOk) then []
    else if need <= bs[i].size || CanGrow(bs, i, need) then [Resize(i, size, guardsOk)]
    else if pooled then [Free(i, guardsOk)]
    else if BestFit(bs, need).None? then []
    else
      var at := BestFit(bs, need).value;
      [Alloc(need, false), Free(IndexAfter(bs, AllocAt(bs, at, need), at, i), guardsOk)]
  }

  /** Memory_CheckIntegrity accepts a well-formed heap exactly when no block is empty. */
  lemma IntegrityOfWellFormed(bs: seq<Block>, heapSize: nat)
    requires WellFormed(bs, heapSize) && heapSize < U32
    ensures Total(bs) % U32 <= heapSize
    ensures (forall i :: 0 <= i < |bs| ==> IsValidBlock(bs[i], heapSize)) <==>
            (forall i :: 0 <= i < |bs| ==> bs[i].size != 0)
  {
    TotalFits(bs, 0, heapSize);
    forall i | 0 <= i < |bs|
      ensures IsValidBlock(bs[i], heapSize) <==> bs[i].size != 0
    {
      assert bs[i].End() <= heapSize;
    }
  }

  /** Where block `i` is after an allocation at `at` turned `bs` into `taken`. */
  function IndexAfter(bs: seq<Block>, taken: seq<Block>, at: nat, i: nat): nat
    requires |bs| <= |taken|
  {
    if at < i then i + |taken| - |bs| else i
  }

  lemma ReallocOnce(bs: seq<Block>, i: nat, size: nat, heapSize: nat, guardsOk: bool, pooled: bool)
    requires i < |bs| && size < U32
    requires
      || size == 0 || pooled || !CanResize(bs, i, size, heapSize, guardsOk)
      || AlignUp(size) <= bs[i].size || CanGrow(bs, i, AlignUp(size)) || BestFit(bs, AlignUp(size)).None?
    ensures
      Final(bs, ReallocOps(bs, i, size, heapSize, guardsOk, pooled), heapSize) ==
      if size == 0 then FreeStep(bs, i, heapSize, guardsOk)
      else if !CanResize(bs, i, size, heapSize, guardsOk) then bs
      else if AlignUp(size) <= bs[i].size || CanGrow(bs, i, AlignUp(size)) then ResizeAt(bs, i, AlignUp(size))
      else if pooled then FreeStep(bs, i, heapSize, guardsOk)
      else bs
  {
    var ops := ReallocOps(bs, i, size, heapSize, guardsOk, pooled);
    if |ops| == 1 {
      FinalOne(bs, ops[0], heapSize);
    }
  }

  lemma ReallocTwice(bs: seq<Block>, i: nat, size: nat, heapSize: nat, guardsOk: bool, at: nat, taken: seq<Block>,
                     j: nat)
    requires i < |bs| && 0 < size < U32 && CanResize(bs, i, size, heapSize, guardsOk)
    requires bs[i].size < AlignUp(size) && !CanGrow(bs, i, AlignUp(size))
    requires BestFit(bs, AlignUp(size)) == Some(at) && taken == AllocAt(bs, at, AlignUp(size))
    requires j == IndexAfter(bs, taken, at, i)
    ensures Final(bs, ReallocOps(bs, i, size, heapSize, guardsOk, false), heapSize)
            == FreeStep(taken, j, heapSize, guardsOk)
  {
    AlignUpHolds(size);
    var need := AlignUp(size);
    FinalTwo(bs, Alloc(need, false), Free(j, guardsOk), heapSize);
    assert Step(bs, Alloc(need, false), heapSize) == taken;
  }

  lemma FinalOne(bs: seq<Block>, op: Op, heapSize: nat)
    ensures Final(bs, [op], heapSize) == Step(bs, op, heapSize)
  {
  }

  lemma FinalTwo(bs: seq<Block>, op: Op, op': Op, heapSize: nat)
    ensures Final(bs, [op, op'], heapSize) == Step(Step(bs, op, heapSize), op', heapSize)
  {
    assert [op, op'][1..] == [op'];
    FinalOne(Step(bs, op, heapSize), op', heapSize);
  }

  /** The list with one more block behind block `i`. */
  function Inserted(bs: seq<Block>, i: nat, b: Block): (r: seq<Block>)
    requires i < |bs|
    ensures |r| == |bs| + 1 && r[i] == bs[i]
  {
    bs[..i + 1] + [b] + bs[i + 1..]
  }

  lemma SplitIsInsert(bs: seq<Block>, i: nat, size: nat)
    requires i < |bs| && OVERHEAD <= Remaining(bs[i].size, size)
    ensures
      var rest := Block(bs[i].addr + OVERHEAD + size, Remaining(bs[i].size, size) - OVERHEAD, false);
      SplitAt(bs, i, size) == Inserted(bs, i, rest)[i := bs[i].(size := size)]
  {
  }

  lemma CoalesceMerges(bs: seq<Block>, i: nat)
    requires i + 1 < |bs| && !bs[i].used && !bs[i + 1].used
    ensures MergeAt(bs, i)[..i] + Coalesce(MergeAt(bs, i)[i..]) == bs[..i] + Coalesce(bs[i..])
  {
    assert MergeAt(bs, i)[i..] == MergeAt(bs[i..], 0);
  }

  lemma CoalesceSkips(bs: seq<Block>, i: nat)
    requires i + 1 < |bs| && (bs[i].used || bs[i + 1].used)
    ensures bs[..i + 1] + Coalesce(bs[i + 1..]) == bs[..i] + Coalesce(bs[i..])
  {
    assert bs[i..][1..] == bs[i + 1..];
    assert bs[..i + 1] == bs[..i] + [bs[i]];
  }
}
