/**
 What the calls of the memory manager answer, in plain sizes: on a well-formed heap the 32-bit
 sums do not wrap, so a caller can tell from the sizes of the blocks which requests are served,
 in which block, and how large it becomes.
 */
module HeapCalls {
  import opened Basics
  import opened HeapLayout
  import opened HeapUse

  /** A block with enough room for `size` bytes is free. */
  ghost predicate FreeRoom(bs: seq<Block>, size: nat) {
    exists i :: 0 <= i < |bs| && !bs[i].used && size <= bs[i].size
  }

  /** The block is large enough, or becomes so together with the free block behind it. */
  predicate CanStay(bs: seq<Block>, i: nat, size: nat)
    requires i < |bs|
  {
    || size <= bs[i].size
    || (i + 1 < |bs| && !bs[i + 1].used && size <= bs[i].size + bs[i + 1].size + 52)
  }

  /** How large a block of `have` bytes is after a request of `size`: cut, or left whole. */
  function SizeAfter(have: nat, size: nat): nat {
    if size + 104 <= have || have < size + 52 then size else have
  }

  lemma SumDoesNotWrap(bs: seq<Block>, i: nat, heapSize: nat)
    requires Laid(bs, heapSize) && heapSize < U32 && i + 1 < |bs|
    ensures bs[i].size + bs[i + 1].size + OVERHEAD < U32
  {
    assert bs[i].End() <= bs[i + 1].addr && bs[i + 1].End() <= heapSize;
  }

  lemma CanStayIff(bs: seq<Block>, i: nat, size: nat, heapSize: nat)
    requires Laid(bs, heapSize) && heapSize < U32 && i < |bs|
    ensures size <= bs[i].size || CanGrow(bs, i, size) <==> CanStay(bs, i, size)
  {
    if i + 1 < |bs| {
      SumDoesNotWrap(bs, i, heapSize);
    }
  }

  /** A split cuts the block to the request exactly if the rest makes a block, or if it is tight. */
  lemma SplitSize(bs: seq<Block>, i: nat, size: nat)
    requires i < |bs| && size <= bs[i].size < U32
    ensures i < |SplitAt(bs, i, size)| && SplitAt(bs, i, size)[i] == bs[i].(size := SizeAfter(bs[i].size, size))
  {
    if bs[i].size < size + OVERHEAD {
      assert Remaining(bs[i].size, size) == bs[i].size - size - OVERHEAD + U32;
    } else {
      assert Remaining(bs[i].size, size) == bs[i].size - size - OVERHEAD;
    }
  }

  // ----- Memory_Alloc

  lemma BlockSmall(bs: seq<Block>, i: nat, heapSize: nat)
    requires Laid(bs, heapSize) && heapSize < U32 && i < |bs|
    ensures bs[i].size + OVERHEAD <= heapSize
  {
    assert bs[i].End() <= heapSize;
  }

  lemma FitIff(bs: seq<Block>, size: nat, heapSize: nat)
    requires Laid(bs, heapSize) && heapSize < U32
    ensures HasFit(bs, size) <==> FreeRoom(bs, size)
  {
    forall i | 0 <= i < |bs|
      ensures Fits(bs[i], size) <==> !bs[i].used && size <= bs[i].size
    {
      BlockSmall(bs, i, heapSize);
    }
  }

  /** A request the pools do not serve is served exactly if it is not empty and some free block is large enough. */
  lemma AllocServedIff(bs: seq<Block>, size: nat, pooled: bool, heapSize: nat)
    requires WellFormed(bs, heapSize) && heapSize < U32
    ensures Step(bs, Alloc(size, pooled), heapSize) != bs <==> !pooled && 0 < size && FreeRoom(bs, AlignUp(size))
  {
    FitIff(bs, AlignUp(size), heapSize);
    BestFitIff(bs, AlignUp(size));
    var fit := BestFit(bs, AlignUp(size));
    if !pooled && size != 0 && fit.Some? {
      assert AllocAt(bs, fit.value, AlignUp(size))[fit.value].used;
    }
  }

  lemma BestFitIff(bs: seq<Block>, size: nat)
    ensures BestFit(bs, size).Some? <==> HasFit(bs, size)
  {
    if HasFit(bs, size) {
      BestFitExists(bs, size);
    }
  }

  /** The first smallest free block that is large enough is taken, cut where the rest makes a block. */
  lemma AllocTakes(bs: seq<Block>, i: nat, size: nat, heapSize: nat)
    requires WellFormed(bs, heapSize) && heapSize < U32 && 0 < size && IsBestFit(bs, AlignUp(size), i)
    ensures
      var after := Step(bs, Alloc(size, false), heapSize);
      i < |after| && after[i] == Block(bs[i].addr, SizeAfter(bs[i].size, AlignUp(size)), true)
  {
    BestFitIff(bs, AlignUp(size));
    BestFitUnique(bs, AlignUp(size), i);
    BlockSmall(bs, i, heapSize);
    SplitSize(bs, i, AlignUp(size));
  }

  // ----- Memory_CheckIntegrity after an allocation

  ghost predicate AllValid(bs: seq<Block>, heapSize: nat) {
    forall k :: 0 <= k < |bs| ==> IsValidBlock(bs[k], heapSize)
  }

  /** The list after an allocation, block by block. */
  lemma AllocRest(bs: seq<Block>, i: nat, size: nat)
    requires i < |bs| && size <= bs[i].size < U32
    ensures
      var ss, have := AllocAt(bs, i, size), bs[i].size;
      var cut := size + 104 <= have || have < size + 52;
      && |ss| == |bs| + (if cut then 1 else 0)
      && ss[i] == Block(bs[i].addr, SizeAfter(have, size), true)
      && (forall k :: 0 <= k < i ==> ss[k] == bs[k])
      && (cut ==> ss[i + 1].size == (if have < size + 52 then U32 else 0) + have - size - 104
                  && ss[i + 1].addr == bs[i].addr + 52 + size
                  && forall k :: i + 1 < k < |ss| ==> ss[k] == bs[k - 1])
      && (!cut ==> forall k :: i < k < |ss| ==> ss[k] == bs[k])
  {
    SplitSize(bs, i, size);
    if bs[i].size < size + OVERHEAD {
      assert Remaining(bs[i].size, size) == bs[i].size - size - OVERHEAD + U32;
    } else {
      assert Remaining(bs[i].size, size) == bs[i].size - size - OVERHEAD;
    }
  }

  /**
   On a heap that passes the check, right after an allocation the check fails exactly if the
   split was tight, which it then reveals, or if it left a rest of no bytes, which is harmless.
   */
  lemma AllocIntegrityIff(bs: seq<Block>, i: nat, size: nat, heapSize: nat)
    requires WellFormed(bs, heapSize) && heapSize < U32 - 52 && AllValid(bs, heapSize)
    requires i < |bs| && 0 < size <= bs[i].size
    ensures AllValid(AllocAt(bs, i, size), heapSize) <==> size + 52 <= bs[i].size && bs[i].size != size + 104
  {
    BlockSmall(bs, i, heapSize);
    AllocRest(bs, i, size);
    assert IsValidBlock(bs[i], heapSize);
    var ss := AllocAt(bs, i, size);
    if size + 104 <= bs[i].size || bs[i].size < size + 52 {
      RestValidIff(bs[i], ss[i + 1], size, heapSize);
      forall k | 0 <= k < |ss| && k != i + 1
        ensures IsValidBlock(ss[k], heapSize)
      {
        assert k < i ==> IsValidBlock(bs[k], heapSize);
        assert i + 1 < k ==> IsValidBlock(bs[k - 1], heapSize);
      }
    } else {
      forall k | 0 <= k < |ss|
        ensures IsValidBlock(ss[k], heapSize)
      {
        assert IsValidBlock(bs[k], heapSize);
      }
    }
  }

  lemma RestValidIff(b: Block, rest: Block, size: nat, heapSize: nat)
    requires b.End() <= heapSize < U32 - 52 && size <= b.size && (size + 104 <= b.size || b.size < size + 52)
    requires rest.addr == b.addr + 52 + size
    requires rest.size == (if b.size < size + 52 then U32 else 0) + b.size - size - 104
    ensures IsValidBlock(rest, heapSize) <==> size + 104 < b.size
  {
  }

  // ----- Memory_Free

  /** Freeing gives the block back exactly if it is in use, not empty and its guards are intact. */
  lemma FreeServedIff(bs: seq<Block>, i: nat, guardsOk: bool, heapSize: nat)
    requires WellFormed(bs, heapSize) && heapSize < U32 && i < |bs|
    ensures
      var after := Step(bs, Free(i, guardsOk), heapSize);
      if bs[i].used && 0 < bs[i].size && guardsOk
      then UsedBlocks(after) == UsedBlocks(bs[..i]) + UsedBlocks(bs[i + 1..])
      else after == bs
  {
    BlockSmall(bs, i, heapSize);
    FreeUses(bs, i);
  }

  // ----- Memory_Realloc

  /** In place a block reaches the size asked for exactly if it can stay. */
  lemma GrowsIff(bs: seq<Block>, i: nat, size: nat, heapSize: nat)
    requires WellFormed(bs, heapSize) && heapSize < U32 && i < |bs|
    ensures size <= ResizeAt(bs, i, size)[i].size <==> CanStay(bs, i, size)
  {
    ResizedSize(bs, i, size, heapSize);
  }

  /** And how large it is then. */
  lemma ResizedSize(bs: seq<Block>, i: nat, size: nat, heapSize: nat)
    requires WellFormed(bs, heapSize) && heapSize < U32 && i < |bs|
    ensures ResizeAt(bs, i, size)[i] == bs[i].(size :=
              if size == bs[i].size || !CanStay(bs, i, size) then bs[i].size
              else if size < bs[i].size then SizeAfter(bs[i].size, size)
              else SizeAfter(bs[i].size + bs[i + 1].size + 52, size))
  {
    BlockSmall(bs, i, heapSize);
    CanStayIff(bs, i, size, heapSize);
    if size < bs[i].size {
      SplitSize(bs, i, size);
    } else if bs[i].size < size && CanGrow(bs, i, size) {
      SumDoesNotWrap(bs, i, heapSize);
      SplitSize(MergeAt(bs, i), i, size);
    }
  }

  /** The request is refused: empty, an empty block, or broken guards. */
  predicate Refused(b: Block, size: nat, guardsOk: bool) { size == 0 || b.size == 0 || !guardsOk }

  lemma CanResizeIff(bs: seq<Block>, i: nat, size: nat, heapSize: nat, guardsOk: bool)
    requires Laid(bs, heapSize) && heapSize < U32 && i < |bs|
    ensures CanResize(bs, i, size, heapSize, guardsOk) <==> !Refused(bs[i], size, guardsOk)
  {
    BlockSmall(bs, i, heapSize);
  }

  /** A reallocation that finds no room, or is refused, leaves everything as it was. */
  lemma ReallocFailsKeeps(bs: seq<Block>, i: nat, size: nat, heapSize: nat, guardsOk: bool)
    requires WellFormed(bs, heapSize) && heapSize < U32 && i < |bs| && 0 < size < U32
    requires Refused(bs[i], size, guardsOk) || (!CanStay(bs, i, AlignUp(size)) && !FreeRoom(bs, AlignUp(size)))
    ensures Final(bs, ReallocOps(bs, i, size, heapSize, guardsOk, false), heapSize) == bs
  {
    CanResizeIff(bs, i, size, heapSize, guardsOk);
    CanStayIff(bs, i, AlignUp(size), heapSize);
    FitIff(bs, AlignUp(size), heapSize);
    BestFitIff(bs, AlignUp(size));
  }

  /** One that can stay is resized where it is. */
  lemma ReallocStays(bs: seq<Block>, i: nat, size: nat, heapSize: nat, guardsOk: bool, pooled: bool)
    requires WellFormed(bs, heapSize) && heapSize < U32 && i < |bs| && 0 < size < U32
    requires !Refused(bs[i], size, guardsOk) && CanStay(bs, i, AlignUp(size))
    ensures Final(bs, ReallocOps(bs, i, size, heapSize, guardsOk, pooled), heapSize) == ResizeAt(bs, i, AlignUp(size))
  {
    CanResizeIff(bs, i, size, heapSize, guardsOk);
    CanStayIff(bs, i, AlignUp(size), heapSize);
    FinalOne(bs, Resize(i, size, guardsOk), heapSize);
  }

  /**
   Any other one moves to the first smallest free block, chosen while the old block is still in
   use: the new block is in use instead of the old one, and no other changes.
   */
  lemma ReallocMoves(bs: seq<Block>, i: nat, size: nat, heapSize: nat, guardsOk: bool, at: nat)
    requires WellFormed(bs, heapSize) && heapSize < U32 && i < |bs| && 0 < size < U32 && bs[i].used
    requires !Refused(bs[i], size, guardsOk) && !CanStay(bs, i, AlignUp(size))
    requires IsBestFit(bs, AlignUp(size), at) && AlignUp(size) + OVERHEAD <= bs[at].size
    ensures
      multiset(UsedBlocks(Final(bs, ReallocOps(bs, i, size, heapSize, guardsOk, false), heapSize))) ==
      multiset(UsedBlocks(bs)) - multiset{bs[i]}
      + multiset{Block(bs[at].addr, SizeAfter(bs[at].size, AlignUp(size)), true)}
  {
    var need := AlignUp(size);
    CanResizeIff(bs, i, size, heapSize, guardsOk);
    CanStayIff(bs, i, need, heapSize);
    BestFitUnique(bs, need, at);
    var taken := AllocAt(bs, at, need);
    var j := IndexAfter(bs, taken, at, i);
    ReallocTwice(bs, i, size, heapSize, guardsOk, at, taken, j);
    BlockSmall(bs, at, heapSize);
    SplitSize(bs, at, need);
    OldBlockAfter(bs, at, need, i);
    AllocUses(bs, at, need);
    FreeUses(taken, j);
    UsedAt(taken, j);
    UsedAt(bs, i);
    MovedUses(UsedBlocks(bs), UsedBlocks(taken), UsedBlocks(FreeAt(taken, j)), bs[i], taken[at],
              UsedBlocks(bs[..at]), UsedBlocks(bs[at + 1..]), UsedBlocks(taken[..j]), UsedBlocks(taken[j + 1..]));
  }

  /** And when a pool serves it instead, just the old block is given back. */
  lemma ReallocToPool(bs: seq<Block>, i: nat, size: nat, heapSize: nat, guardsOk: bool)
    requires WellFormed(bs, heapSize) && heapSize < U32 && i < |bs| && 0 < size < U32 && bs[i].used
    requires !Refused(bs[i], size, guardsOk) && !CanStay(bs, i, AlignUp(size))
    ensures UsedBlocks(Final(bs, ReallocOps(bs, i, size, heapSize, guardsOk, true), heapSize)) ==
            UsedBlocks(bs[..i]) + UsedBlocks(bs[i + 1..])
  {
    CanResizeIff(bs, i, size, heapSize, guardsOk);
    CanStayIff(bs, i, AlignUp(size), heapSize);
    FinalOne(bs, Free(i, guardsOk), heapSize);
    FreeServedIff(bs, i, guardsOk, heapSize);
  }

  lemma OldBlockAfter(bs: seq<Block>, at: nat, need: nat, i: nat)
    requires at < |bs| && i < |bs| && i != at
    ensures
      var taken := AllocAt(bs, at, need);
      var j := IndexAfter(bs, taken, at, i);
      j < |taken| && taken[j] == bs[i]
  {
  }

  /** One block more, then one less. */
  lemma MovedUses(was: seq<Block>, mid: seq<Block>, now: seq<Block>, gone: Block, come: Block,
                  a: seq<Block>, b: seq<Block>, c: seq<Block>, d: seq<Block>)
    requires was == a + b && mid == a + [come] + b && mid == c + [gone] + d && now == c + d && gone in was
    ensures multiset(now) == multiset(was) - multiset{gone} + multiset{come}
  {
    assert multiset(mid) == multiset(was) + multiset{come};
    assert multiset(mid) == multiset(now) + multiset{gone};
    assert gone in multiset(was);
    Exchanged(multiset(was), multiset(now), gone, come);
  }

  lemma Exchanged(was: multiset<Block>, now: multiset<Block>, gone: Block, come: Block)
    requires was + multiset{come} == now + multiset{gone} && gone in was
    ensures now == was - multiset{gone} + multiset{come}
  {
    var rest := was - multiset{gone};
    assert was == rest + multiset{gone};
    forall x: Block
      ensures now[x] == (rest + multiset{come})[x]
    {
      assert (was + multiset{come})[x] == (now + multiset{gone})[x];
    }
  }
}
