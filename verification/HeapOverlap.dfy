/**
 Where the headers of the heap lie in memory. `split_block` writes a header behind the part it
 keeps; when that part fills the block, the next header is already there. `HeapLayout` and
 `HeapList` keep headers apart, so this module says exactly when a split writes over the next
 header, that no split with room does, and what is left of a live block when one does.
 */
module HeapOverlap {
  import opened Basics
  import opened HeapLayout

  /** Where a split puts the new header. */
  function NewAddress(bs: seq<Block>, i: nat, size: nat): nat
    requires i < |bs|
  {
    bs[i].addr + OVERHEAD + size
  }

  /** The new header shares bytes with the header of block `j`. */
  predicate WritesOver(bs: seq<Block>, i: nat, size: nat, j: nat)
    requires i < |bs| && j < |bs|
  {
    && OVERHEAD <= Remaining(bs[i].size, size)
    && NewAddress(bs, i, size) < bs[j].addr + HEADER && bs[j].addr < NewAddress(bs, i, size) + HEADER
  }

  /** The header of the next block lies less than a header behind the new one. */
  predicate Overwrites(bs: seq<Block>, i: nat, size: nat)
    requires i < |bs|
  {
    && OVERHEAD <= Remaining(bs[i].size, size)
    && i + 1 < |bs| && bs[i + 1].addr < NewAddress(bs, i, size) + HEADER
  }

  /** A split writes over a header exactly if the next one is that near, and over no other; then it is tight. */
  lemma WritesOverIff(bs: seq<Block>, i: nat, size: nat, heapSize: nat, j: nat)
    requires Laid(bs, heapSize) && i < |bs| && size <= bs[i].size && j < |bs|
    ensures WritesOver(bs, i, size, j) <==> j == i + 1 && Overwrites(bs, i, size)
    ensures Overwrites(bs, i, size) ==> bs[i].size < size + OVERHEAD
  {
    if i + 1 < |bs| {
      assert bs[i].End() <= bs[i + 1].addr;
      if i + 1 < j {
        assert bs[i + 1].End() <= bs[j].addr;
      }
    }
    if j < i {
      assert bs[j].End() <= bs[i].addr;
    }
  }

  /** In a list without free neighbours the block behind a free one is in use, so it is a live block that is hit. */
  lemma LiveBlockHit(bs: seq<Block>, i: nat, size: nat)
    requires NoFreePair(bs) && i < |bs| && !bs[i].used && Overwrites(bs, i, size)
    ensures bs[i + 1].used
  {
  }

  // ----- The calls

  /** The call writes over the header of a block it is not about. */
  ghost predicate Clobbers(bs: seq<Block>, op: Op, heapSize: nat) {
    match op
    case Alloc(size, pooled) =>
      var fit := BestFit(bs, AlignUp(size));
      !pooled && size != 0 && fit.Some? && Overwrites(bs, fit.value, AlignUp(size))
    case Resize(i, size, guardsOk) =>
      && CanResize(bs, i, size, heapSize, guardsOk) && AlignUp(size) != bs[i].size
      && if AlignUp(size) < bs[i].size then Overwrites(bs, i, AlignUp(size))
         else CanGrow(bs, i, AlignUp(size)) && Overwrites(MergeAt(bs, i), i, AlignUp(size))
    case _ => false
  }

  /** Only tight splits write over headers. */
  lemma ClobberingIsTight(bs: seq<Block>, op: Op, heapSize: nat)
    requires WellFormed(bs, heapSize) && heapSize < U32 && Clobbers(bs, op, heapSize)
    ensures Tight(bs, op, heapSize)
  {
    match op
    case Alloc(size, pooled) =>
      var i := BestFit(bs, AlignUp(size)).value;
      WritesOverIff(bs, i, AlignUp(size), heapSize, i);
    case Resize(i, size, guardsOk) =>
      if AlignUp(size) < bs[i].size {
        WritesOverIff(bs, i, AlignUp(size), heapSize, i);
      } else {
        GrowingOverIsTight(bs, i, AlignUp(size), heapSize);
      }
  }

  lemma GrowingOverIsTight(bs: seq<Block>, i: nat, size: nat, heapSize: nat)
    requires Laid(bs, heapSize) && heapSize < U32 && i < |bs| && bs[i].size < size && CanGrow(bs, i, size)
    requires Overwrites(MergeAt(bs, i), i, size)
    ensures TightResize(bs, i, size)
  {
    MergeKeeps(bs, i, heapSize);
    MergeSize(bs, i, heapSize);
    assert bs[i + 1].End() <= heapSize;
    WritesOverIff(MergeAt(bs, i), i, size, heapSize, i);
  }

  /** The list after three calls on a fresh heap of 1000 bytes: a free block of 104 in front of one in use. */
  function AfterThree(): seq<Block> {
    [Block(0, 104, false), Block(156, 104, true), Block(312, 532, false)]
  }

  lemma AllocTwice()
    ensures Final(InitialBlocks(1000), [Alloc(100, false), Alloc(100, false)], 1000)
            == [Block(0, 104, true), Block(156, 104, true), Block(312, 532, false)]
  {
    var a: Op, b0 := Alloc(100, false), InitialBlocks(1000);
    var b1 := [Block(0, 104, true), Block(156, 740, false)];
    assert IsBestFit(b0, 104, 0);
    BestFitUnique(b0, 104, 0);
    assert Step(b0, a, 1000) == b1;
    assert IsBestFit(b1, 104, 1);
    BestFitUnique(b1, 104, 1);
    FinalTwo(b0, a, a, 1000);
  }

  lemma ThreeCalls()
    ensures Final(InitialBlocks(1000), [Alloc(100, false), Alloc(100, false), Free(0, true)], 1000) == AfterThree()
  {
    var a: Op, b: Op := Alloc(100, false), Free(0, true);
    AllocTwice();
    FinalMore(InitialBlocks(1000), [a, a], b, 1000);
    assert [a, a] + [b] == [a, a, b];
  }

  lemma {:induction false} FinalMore(bs: seq<Block>, ops: seq<Op>, op: Op, heapSize: nat)
    ensures Final(bs, ops + [op], heapSize) == Step(Final(bs, ops, heapSize), op, heapSize)
    decreases |ops|
  {
    if ops == [] {
      assert ops + [op] == [op] && [op][1..] == [];
    } else {
      assert (ops + [op])[0] == ops[0] && (ops + [op])[1..] == ops[1..] + [op];
      FinalMore(Step(bs, ops[0], heapSize), ops[1..], op, heapSize);
    }
  }

  /** Then a third request of 100 bytes is an exact fit and writes over the header of the live block at 156. */
  lemma ExactFitOverwritesLiveBlock(bs: seq<Block>)
    requires bs == Final(InitialBlocks(1000), [Alloc(100, false), Alloc(100, false), Free(0, true)], 1000)
    ensures bs == AfterThree() && NewAddress(bs, 0, AlignUp(100)) == bs[1].addr && bs[1].used
    ensures Clobbers(bs, Alloc(100, false), 1000)
  {
    ThreeCalls();
    ThirdRequestClobbers(bs);
  }

  lemma ThirdRequestClobbers(bs: seq<Block>)
    requires bs == AfterThree()
    ensures NewAddress(bs, 0, AlignUp(100)) == bs[1].addr && Clobbers(bs, Alloc(100, false), 1000)
  {
    assert IsBestFit(bs, 104, 0);
    BestFitUnique(bs, 104, 0);
  }

  // ----- The writes of split_block on headers that are told apart by their address alone

  datatype Header = Header(size: nat, used: bool, next: Option<nat>, prev: Option<nat>)

  type Memory = map<nat, Header>

  function HeaderAt(bs: seq<Block>, j: nat): Header
    requires j < |bs|
  {
    Header(bs[j].size, bs[j].used,
           if j + 1 < |bs| then Some(bs[j + 1].addr) else None,
           if 0 < j then Some(bs[j - 1].addr) else None)
  }

  /** The memory holds the headers of the list, doubly linked, and no others. */
  ghost predicate Describes(m: Memory, bs: seq<Block>) {
    m.Keys == Addresses(bs) && forall j: nat :: j < |bs| ==> Held(m, bs, j)
  }

  ghost function Addresses(bs: seq<Block>): set<nat> {
    set b | b in bs :: b.addr
  }

  ghost predicate Held(m: Memory, bs: seq<Block>, j: nat)
    requires j < |bs|
  {
    bs[j].addr in m && m[bs[j].addr] == HeaderAt(bs, j)
  }

  /** The assignments of split_block, in order. */
  function SplitWrites(m: Memory, at: nat, size: nat): Memory
    requires at in m
  {
    var remaining := Remaining(m[at].size, size);
    if remaining < OVERHEAD then m
    else
      var created := at + OVERHEAD + size;
      var next := m[at].next;
      var m1 := m[created := Header(remaining - OVERHEAD, false, next, Some(at))];
      var m2 := if next.Some? && next.value in m1 then m1[next.value := m1[next.value].(prev := Some(created))] else m1;
      m2[at := m2[at].(next := Some(created), size := size)]
  }

  /** The list `ss` is `bs` with block `i` cut to `size` and `rest` behind it. */
  ghost predicate CutIn(bs: seq<Block>, ss: seq<Block>, i: nat, size: nat, rest: Block) {
    && i < |bs| && |ss| == |bs| + 1 && ss[i] == bs[i].(size := size) && ss[i + 1] == rest
    && (forall k :: 0 <= k < i ==> ss[k] == bs[k])
    && (forall k :: i + 1 < k < |ss| ==> ss[k] == bs[k - 1])
  }

  /** What the assignments change when no header was at `created`: the block, its successor and the new header. */
  ghost predicate Wrote(m: Memory, m': Memory, at: nat, size: nat, created: nat, rest: Block) {
    && at in m && m'.Keys == m.Keys + {created}
    && m'[created] == Header(rest.size, rest.used, m[at].next, Some(at))
    && m'[at] == m[at].(next := Some(created), size := size)
    && (m[at].next.Some? ==>
          && m[at].next.value in m
          && m'[m[at].next.value] == m[m[at].next.value].(prev := Some(created)))
    && (forall a :: a in m && a != at && Some(a) != m[at].next ==> m'[a] == m[a])
  }

  lemma SplitWrote(m: Memory, at: nat, size: nat)
    requires at in m && (m[at].next.Some? ==> m[at].next.value in m && m[at].next.value != at)
    requires OVERHEAD <= Remaining(m[at].size, size) && at + OVERHEAD + size !in m
    ensures
      var created := at + OVERHEAD + size;
      Wrote(m, SplitWrites(m, at, size), at, size, created,
            Block(created, Remaining(m[at].size, size) - OVERHEAD, false))
  {
  }

  /** With room the new header lies inside the old block, away from all others. */
  lemma NewAddressFree(bs: seq<Block>, i: nat, size: nat, heapSize: nat, j: nat)
    requires Laid(bs, heapSize) && i < |bs| && size + OVERHEAD <= bs[i].size && j < |bs|
    ensures bs[j].addr != NewAddress(bs, i, size)
  {
    if j < i {
      assert bs[j].End() <= bs[i].addr;
    } else if i < j {
      assert bs[i].End() <= bs[j].addr;
    }
  }

  /** Addresses tell the blocks of a list apart. */
  ghost predicate Distinct(bs: seq<Block>) {
    forall j, k :: 0 <= j < k < |bs| ==> bs[j].addr != bs[k].addr
  }

  lemma LaidDistinct(bs: seq<Block>, heapSize: nat)
    requires Laid(bs, heapSize)
    ensures Distinct(bs)
  {
    forall j, k | 0 <= j < k < |bs|
      ensures bs[j].addr != bs[k].addr
    {
      assert bs[j].End() <= bs[k].addr;
    }
  }

  /** The header of an old block after the split. */
  lemma OldHeader(m: Memory, m': Memory, bs: seq<Block>, ss: seq<Block>, i: nat, size: nat, rest: Block, j: nat)
    requires Distinct(bs) && CutIn(bs, ss, i, size, rest) && j < |bs| && Held(m, bs, i) && Held(m, bs, j)
    requires Wrote(m, m', bs[i].addr, size, rest.addr, rest)
    ensures Held(m', ss, if j <= i then j else j + 1)
  {
    if i + 1 < |bs| {
      assert ss[i + 2] == bs[i + 1];
    }
    if i < j {
      assert ss[j + 1] == bs[j];
    }
  }

  lemma NewHeader(m: Memory, m': Memory, bs: seq<Block>, ss: seq<Block>, i: nat, size: nat, rest: Block)
    requires CutIn(bs, ss, i, size, rest) && Held(m, bs, i) && Wrote(m, m', bs[i].addr, size, rest.addr, rest)
    ensures Held(m', ss, i + 1)
  {
    if i + 1 < |bs| {
      assert ss[i + 2] == bs[i + 1];
    }
  }

  lemma CutAddresses(bs: seq<Block>, ss: seq<Block>, i: nat, size: nat, rest: Block)
    requires CutIn(bs, ss, i, size, rest)
    ensures Addresses(ss) == Addresses(bs) + {rest.addr}
  {
    forall b | b in bs
      ensures b.addr in Addresses(ss)
    {
      var j :| 0 <= j < |bs| && bs[j] == b;
      var k := if j <= i then j else j + 1;
      assert ss[k].addr == b.addr && ss[k] in ss;
    }
    forall b | b in ss
      ensures b.addr in Addresses(bs) + {rest.addr}
    {
      var k :| 0 <= k < |ss| && ss[k] == b;
      if k != i + 1 {
        var j := if k <= i then k else k - 1;
        assert bs[j].addr == b.addr && bs[j] in bs;
      }
    }
    assert ss[i + 1] in ss;
  }

  lemma CutDescribed(m: Memory, m': Memory, bs: seq<Block>, ss: seq<Block>, i: nat, size: nat, rest: Block)
    requires Describes(m, bs) && Distinct(bs) && CutIn(bs, ss, i, size, rest)
    requires Wrote(m, m', bs[i].addr, size, rest.addr, rest)
    ensures Describes(m', ss)
  {
    assert Held(m, bs, i);
    CutAddresses(bs, ss, i, size, rest);
    forall k: nat | k < |ss|
      ensures Held(m', ss, k)
    {
      CutHeld(m, m', bs, ss, i, size, rest, k);
    }
  }

  lemma CutHeld(m: Memory, m': Memory, bs: seq<Block>, ss: seq<Block>, i: nat, size: nat, rest: Block, k: nat)
    requires Describes(m, bs) && Distinct(bs) && CutIn(bs, ss, i, size, rest) && Held(m, bs, i) && k < |ss|
    requires Wrote(m, m', bs[i].addr, size, rest.addr, rest)
    ensures Held(m', ss, k)
  {
    if k == i + 1 {
      NewHeader(m, m', bs, ss, i, size, rest);
    } else {
      var j := if k <= i then k else k - 1;
      assert Held(m, bs, j);
      OldHeader(m, m', bs, ss, i, size, rest, j);
    }
  }

  lemma SplitCuts(bs: seq<Block>, i: nat, size: nat)
    requires i < |bs| && OVERHEAD <= Remaining(bs[i].size, size)
    ensures CutIn(bs, SplitAt(bs, i, size), i, size,
                  Block(NewAddress(bs, i, size), Remaining(bs[i].size, size) - OVERHEAD, false))
  {
    var rest := Block(NewAddress(bs, i, size), Remaining(bs[i].size, size) - OVERHEAD, false);
    PairInserted(bs, i, bs[i].(size := size), rest);
  }

  lemma PairInserted(bs: seq<Block>, i: nat, x: Block, y: Block)
    requires i < |bs|
    ensures
      var ss := bs[..i] + [x, y] + bs[i + 1..];
      && |ss| == |bs| + 1 && ss[i] == x && ss[i + 1] == y
      && (forall k :: 0 <= k < i ==> ss[k] == bs[k]) && (forall k :: i + 1 < k < |ss| ==> ss[k] == bs[k - 1])
  {
  }

  /** A split with room leaves in memory what `HeapLayout` says: nothing but its own block and the new one changes. */
  lemma RoomySplitDescribed(m: Memory, bs: seq<Block>, i: nat, size: nat, heapSize: nat)
    requires Describes(m, bs) && Laid(bs, heapSize) && i < |bs| && Held(m, bs, i)
    requires size + OVERHEAD <= bs[i].size < U32
    ensures Describes(SplitWrites(m, bs[i].addr, size), SplitAt(bs, i, size))
  {
    if OVERHEAD <= Remaining(bs[i].size, size) {
      LaidDistinct(bs, heapSize);
      SplitCuts(bs, i, size);
      RoomyWrote(m, bs, i, size, heapSize);
      CutDescribed(m, SplitWrites(m, bs[i].addr, size), bs, SplitAt(bs, i, size), i, size,
                   Block(NewAddress(bs, i, size), Remaining(bs[i].size, size) - OVERHEAD, false));
    }
  }

  lemma RoomyWrote(m: Memory, bs: seq<Block>, i: nat, size: nat, heapSize: nat)
    requires Describes(m, bs) && Laid(bs, heapSize) && i < |bs| && Held(m, bs, i)
    requires size + OVERHEAD <= bs[i].size && OVERHEAD <= Remaining(bs[i].size, size)
    ensures
      var created := NewAddress(bs, i, size);
      Wrote(m, SplitWrites(m, bs[i].addr, size), bs[i].addr, size, created,
            Block(created, Remaining(bs[i].size, size) - OVERHEAD, false))
  {
    RoomyPlace(m, bs, i, size, heapSize);
    SplitWrote(m, bs[i].addr, size);
  }

  /** No header is where a split with room puts one, and the next header is not the block itself. */
  lemma RoomyPlace(m: Memory, bs: seq<Block>, i: nat, size: nat, heapSize: nat)
    requires Describes(m, bs) && Laid(bs, heapSize) && i < |bs| && size + OVERHEAD <= bs[i].size
    ensures NewAddress(bs, i, size) !in m
    ensures i + 1 < |bs| ==> bs[i + 1].addr in m && bs[i + 1].addr != bs[i].addr
  {
    if NewAddress(bs, i, size) in Addresses(bs) {
      var b :| b in bs && b.addr == NewAddress(bs, i, size);
      var j :| 0 <= j < |bs| && bs[j] == b;
      NewAddressFree(bs, i, size, heapSize, j);
    }
    if i + 1 < |bs| {
      assert Held(m, bs, i + 1);
      assert bs[i].End() <= bs[i + 1].addr;
    }
  }

  /**
   An exact fit in front of an adjacent block: that block, though nobody freed it, ends up free,
   almost 4 GiB large, and linked to itself, so following the list never ends.
   */
  lemma ExactFitDestroysNext(m: Memory, bs: seq<Block>, i: nat)
    requires Describes(m, bs) && i + 1 < |bs| && Held(m, bs, i) && bs[i].End() == bs[i + 1].addr
    ensures
      var n := bs[i + 1].addr;
      var m' := SplitWrites(m, bs[i].addr, bs[i].size);
      && m'[n] == Header(U32 - 2 * OVERHEAD, false, Some(n), Some(n))
      && m'[bs[i].addr].next == Some(n)
  {
    assert Held(m, bs, i + 1);
  }

  /** So in the run above the live block at 156 is lost, whatever memory looked like before. */
  lemma LiveBlockLost(m: Memory, bs: seq<Block>)
    requires bs == Final(InitialBlocks(1000), [Alloc(100, false), Alloc(100, false), Free(0, true)], 1000)
    requires Describes(m, bs)
    ensures 0 in m && 156 in m && m[156].used
    ensures SplitWrites(m, 0, 104)[156] == Header(U32 - 2 * OVERHEAD, false, Some(156), Some(156))
  {
    ThreeCalls();
    assert Held(m, bs, 0) && Held(m, bs, 1);
    ExactFitDestroysNext(m, bs, 0);
  }
}
