/**
 Which blocks of the heap are in use, over every run without a tight split: each call takes,
 gives back or resizes exactly the block it is about, so a block that was handed out keeps its
 address and its size until it is freed or resized itself. A tight split can write over the
 header of a block in use; `HeapOverlap` says when.
 */
module HeapUse {
  import opened Basics
  import opened HeapLayout

  ghost function UsedOf(b: Block): seq<Block> {
    if b.used then [b] else []
  }

  lemma {:induction false} UsedConcat(a: seq<Block>, b: seq<Block>)
    ensures UsedBlocks(a + b) == UsedBlocks(a) + UsedBlocks(b)
  {
    if a == [] {
      assert a + b == b;
    } else {
      assert (a + b)[0] == a[0] && (a + b)[1..] == a[1..] + b;
      UsedConcat(a[1..], b);
    }
  }

  lemma UsedOne(b: Block)
    ensures UsedBlocks([b]) == UsedOf(b)
  {
    assert [b][1..] == [];
  }

  /** The used blocks of a list with blocks `mid` between `a` and `b`. */
  lemma UsedAround(a: seq<Block>, mid: Block, b: seq<Block>)
    ensures UsedBlocks(a + [mid] + b) == UsedBlocks(a) + UsedOf(mid) + UsedBlocks(b)
  {
    UsedConcat(a + [mid], b);
    UsedConcat(a, [mid]);
    UsedOne(mid);
  }

  lemma UsedAt(bs: seq<Block>, i: nat)
    requires i < |bs|
    ensures UsedBlocks(bs) == UsedBlocks(bs[..i]) + UsedOf(bs[i]) + UsedBlocks(bs[i + 1..])
  {
    Parts(bs, i);
    UsedAround(bs[..i], bs[i], bs[i + 1..]);
  }

  /** A free block in front of `b` does not count. */
  lemma UsedSkips(free: Block, b: seq<Block>)
    requires !free.used
    ensures UsedBlocks([free] + b) == UsedBlocks(b)
  {
    assert ([free] + b)[1..] == b;
    assert [] + UsedBlocks(b) == UsedBlocks(b);
  }

  /** What a split leaves in use: the block, cut or not. */
  lemma SplitUses(bs: seq<Block>, i: nat, size: nat)
    requires i < |bs|
    ensures
      var ss := SplitAt(bs, i, size);
      && i < |ss| && ss[i] == bs[i].(size := ss[i].size) && (ss[i].size == size || ss[i].size == bs[i].size)
      && ss[..i] == bs[..i] && UsedBlocks(ss[i + 1..]) == UsedBlocks(bs[i + 1..])
  {
    var ss := SplitAt(bs, i, size);
    if ss != bs {
      var rest := Block(bs[i].addr + OVERHEAD + size, Remaining(bs[i].size, size) - OVERHEAD, false);
      assert ss == bs[..i] + [bs[i].(size := size), rest] + bs[i + 1..];
      assert ss[i + 1..] == [rest] + bs[i + 1..];
      UsedSkips(rest, bs[i + 1..]);
    }
  }

  /** A merge with a free block leaves the block in use, with a new size. */
  lemma MergeUses(bs: seq<Block>, i: nat)
    requires i + 1 < |bs| && !bs[i + 1].used
    ensures
      var ms := MergeAt(bs, i);
      && i < |ms| && ms[i] == bs[i].(size := ms[i].size)
      && ms[..i] == bs[..i] && UsedBlocks(ms[i + 1..]) == UsedBlocks(bs[i + 1..])
  {
    var ms := MergeAt(bs, i);
    assert ms[i + 1..] == bs[i + 2..];
    assert bs[i + 1..] == [bs[i + 1]] + bs[i + 2..];
    UsedSkips(bs[i + 1], bs[i + 2..]);
  }

  /** Memory_Alloc in a block with room takes exactly that one more, at its address. */
  lemma AllocUses(bs: seq<Block>, i: nat, size: nat)
    requires i < |bs| && !bs[i].used && size + OVERHEAD <= bs[i].size
    ensures
      var taken := AllocAt(bs, i, size)[i];
      && taken.addr == bs[i].addr && taken.used && (taken.size == size || taken.size == bs[i].size)
      && UsedBlocks(bs) == UsedBlocks(bs[..i]) + UsedBlocks(bs[i + 1..])
      && UsedBlocks(AllocAt(bs, i, size)) == UsedBlocks(bs[..i]) + [taken] + UsedBlocks(bs[i + 1..])
  {
    SplitUses(bs, i, size);
    UsedAt(bs, i);
    var ss := SplitAt(bs, i, size);
    var us := AllocAt(bs, i, size);
    assert us[..i] == bs[..i] && us[i + 1..] == ss[i + 1..];
    UsedAt(us, i);
    assert UsedBlocks(bs[..i]) + [] == UsedBlocks(bs[..i]);
  }

  lemma ReleaseUses(bs: seq<Block>, i: nat)
    requires i < |bs|
    ensures
      var ms := MergeIfFree(SetUsed(bs, i, false), i);
      && i < |ms| && !ms[i].used && ms[..i] == bs[..i] && UsedBlocks(ms[i + 1..]) == UsedBlocks(bs[i + 1..])
  {
    var us := SetUsed(bs, i, false);
    assert us[..i] == bs[..i] && us[i + 1..] == bs[i + 1..];
    if i + 1 < |us| && !us[i + 1].used {
      MergeUses(us, i);
    }
  }

  /** Memory_Free gives back exactly its block, whatever it merges. */
  lemma FreeUses(bs: seq<Block>, i: nat)
    requires i < |bs|
    ensures UsedBlocks(FreeAt(bs, i)) == UsedBlocks(bs[..i]) + UsedBlocks(bs[i + 1..])
  {
    var ms := MergeIfFree(SetUsed(bs, i, false), i);
    ReleaseUses(bs, i);
    UsedAt(ms, i);
    assert UsedBlocks(ms[..i]) + [] == UsedBlocks(ms[..i]);
    if 0 < i && !ms[i - 1].used {
      MergeUses(ms, i - 1);
      UsedAt(ms, i - 1);
      UsedAt(MergeAt(ms, i - 1), i - 1);
    }
  }

  /** Resizing in place without a tight split changes the size of its own block and nothing else in use. */
  lemma ResizeUses(bs: seq<Block>, i: nat, size: nat)
    requires i < |bs| && !TightResize(bs, i, size)
    ensures
      var rs := ResizeAt(bs, i, size);
      && rs[i] == bs[i].(size := rs[i].size)
      && UsedBlocks(rs) == UsedBlocks(bs[..i]) + UsedOf(rs[i]) + UsedBlocks(bs[i + 1..])
  {
    var rs := ResizeAt(bs, i, size);
    UsedAt(rs, i);
    if size < bs[i].size {
      SplitUses(bs, i, size);
    } else if size != bs[i].size && CanGrow(bs, i, size) {
      MergeUses(bs, i);
      SplitUses(MergeAt(bs, i), i, size);
    }
  }

  // ----- Over every run

  /** The call is about another block than `b`. */
  predicate Spares(bs: seq<Block>, op: Op, b: Block) {
    match op
    case Free(i, _) => i < |bs| ==> bs[i] != b
    case Resize(i, _, _) => i < |bs| ==> bs[i] != b
    case _ => true
  }

  lemma StepKeepsOthers(bs: seq<Block>, op: Op, heapSize: nat, b: Block)
    requires WellFormed(bs, heapSize) && heapSize < U32 && !Tight(bs, op, heapSize)
    requires b in UsedBlocks(bs) && Spares(bs, op, b)
    ensures b in UsedBlocks(Step(bs, op, heapSize))
  {
    match op
    case Alloc(size, pooled) =>
      var fit := BestFit(bs, AlignUp(size));
      if !pooled && size != 0 && fit.Some? {
        AllocUses(bs, fit.value, AlignUp(size));
      }
    case Free(i, guardsOk) =>
      if i < |bs| && CanFree(bs[i], heapSize, guardsOk) {
        UsedAt(bs, i);
        FreeUses(bs, i);
      }
    case Resize(i, size, guardsOk) =>
      if CanResize(bs, i, size, heapSize, guardsOk) {
        UsedAt(bs, i);
        ResizeUses(bs, i, AlignUp(size));
      }
    case Defragment => CoalesceNormalises(bs);
  }

  /** No call of the run frees or resizes the block. */
  ghost predicate Untouched(bs: seq<Block>, ops: seq<Op>, heapSize: nat, b: Block)
    decreases |ops|
  {
    ops == [] || (Spares(bs, ops[0], b) && Untouched(Step(bs, ops[0], heapSize), ops[1..], heapSize, b))
  }

  /**
   A block that was handed out keeps its address and its size through every run without a tight
   split that does not free or resize it.
   */
  lemma {:induction false} HandedOutBlockStays(bs: seq<Block>, ops: seq<Op>, heapSize: nat, b: Block)
    requires WellFormed(bs, heapSize) && heapSize < U32 && NeverTight(bs, ops, heapSize)
    requires b in UsedBlocks(bs) && Untouched(bs, ops, heapSize, b)
    ensures b in UsedBlocks(Final(bs, ops, heapSize))
    decreases |ops|
  {
    if ops != [] {
      StepKeepsOthers(bs, ops[0], heapSize, b);
      StepKeepsIff(bs, ops[0], heapSize);
      HandedOutBlockStays(Step(bs, ops[0], heapSize), ops[1..], heapSize, b);
    }
  }

  lemma {:induction false} UsedIsBlock(bs: seq<Block>, b: Block)
    requires b in UsedBlocks(bs)
    ensures b.used && b in bs
  {
    if !(bs[0].used && bs[0] == b) {
      UsedIsBlock(bs[1..], b);
    }
  }

  /** And no other block of the heap overlaps it. */
  lemma HandedOutBlockIsAlone(bs: seq<Block>, ops: seq<Op>, heapSize: nat, b: Block)
    requires WellFormed(bs, heapSize) && heapSize < U32 && NeverTight(bs, ops, heapSize)
    requires b in UsedBlocks(bs) && Untouched(bs, ops, heapSize, b)
    ensures
      var last := Final(bs, ops, heapSize);
      && b in last && b.End() <= heapSize
      && forall x :: x in last && x != b ==> x.End() <= b.addr || b.End() <= x.addr
  {
    HandedOutBlockStays(bs, ops, heapSize, b);
    UsedIsBlock(Final(bs, ops, heapSize), b);
    RunStaysWellFormed(bs, ops, heapSize);
  }

  lemma {:induction false} RunStaysWellFormed(bs: seq<Block>, ops: seq<Op>, heapSize: nat)
    requires WellFormed(bs, heapSize) && heapSize < U32 && NeverTight(bs, ops, heapSize)
    ensures WellFormed(Final(bs, ops, heapSize), heapSize)
    decreases |ops|
  {
    if ops != [] {
      StepKeepsIff(bs, ops[0], heapSize);
      RunStaysWellFormed(Step(bs, ops[0], heapSize), ops[1..], heapSize);
    }
  }
}
