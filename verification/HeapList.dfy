/**
 The linked list of src/runtime/memory/memory_manager.c: a doubly linked list of block
 headers with best-fit allocation, splitting, two-sided merging, in-place resizing and
 defragmentation. Every method is proved to do to the list exactly what the functions of
 `HeapLayout` do to the sequence of blocks.
 */
module HeapList {
  import opened Basics
  import opened HeapCalls
  import opened HeapLayout

  class MemBlock {
    var addr: nat
    var size: nat
    var used: bool
    var next: MemBlock?
    var prev: MemBlock?

    constructor (addr: nat, size: nat, used: bool, next: MemBlock?, prev: MemBlock?)
      ensures this.addr == addr && this.size == size && this.used == used
      ensures this.next == next && this.prev == prev
    {
      this.addr, this.size, this.used, this.next, this.prev := addr, size, used, next, prev;
    }
  }

  class Heap {
    const heapSize: nat
    var first: MemBlock
    var last: MemBlock
    ghost var nodes: seq<MemBlock>   // the headers, following `next` from `first`
    ghost var blocks: seq<Block>     // what the headers say
    ghost var repr: set<MemBlock>    // every header made so far

    ghost predicate Valid()
      reads this, repr
    {
      Linked() && Described()
    }

    /** `nodes` is the list read in both directions, without repetition. */
    ghost predicate Linked()
      reads this, repr
    {
      && 0 < |nodes|
      && (forall i :: 0 <= i < |nodes| ==> nodes[i] in repr)
      && first == nodes[0] && last == nodes[|nodes| - 1]
      && first.prev == null && last.next == null
      && (forall i, j :: 0 <= i < j < |nodes| ==> nodes[i] != nodes[j])
      && (forall i {:trigger nodes[i].next} :: 0 <= i < |nodes| - 1 ==> nodes[i].next == nodes[i + 1])
      && (forall i {:trigger nodes[i].prev} :: 0 < i < |nodes| ==> nodes[i].prev == nodes[i - 1])
    }

    /** `blocks` is what the headers say. */
    ghost predicate Described()
      reads this, repr
    {
      && |nodes| == |blocks|
      && forall i :: 0 <= i < |nodes| ==>
           && nodes[i] in repr
           && blocks[i] == Block(nodes[i].addr, nodes[i].size, nodes[i].used)
           && blocks[i].size < U32
    }

    /** Memory_Init: one free block that fills the heap. */
    constructor (heapSize: nat)
      requires OVERHEAD <= heapSize < U32
      ensures Valid() && fresh(repr) && this.heapSize == heapSize
      ensures blocks == InitialBlocks(heapSize)
    {
      var block := new MemBlock(0, heapSize - OVERHEAD, false, null, null);
      this.heapSize := heapSize;
      first, last := block, block;
      nodes, blocks, repr := [block], InitialBlocks(heapSize), {block};
    }

    method FindBestFit(size: nat) returns (best: MemBlock?, ghost at: nat)
      requires Valid()
      ensures best == null <==> !HasFit(blocks, size)
      ensures best != null ==> at < |nodes| && nodes[at] == best && IsBestFit(blocks, size, at)
    {
      best, at := null, 0;
      var bestSize := U32 - 1;
      var block: MemBlock? := first;
      ghost var k := 0;
      while block != null
        invariant 0 <= k <= |nodes|
        invariant block == if k < |nodes| then nodes[k] else null
        invariant best == null ==> bestSize == U32 - 1 && !HasFit(blocks[..k], size)
        invariant best != null ==> at < k && nodes[at] == best && bestSize == best.size
        invariant best != null ==> IsBestFit(blocks[..k], size, at)
        decreases |nodes| - k
      {
        assert blocks[..k + 1] == blocks[..k] + [blocks[k]];
        if !block.used && size <= block.size && block.size < bestSize {
          best, at, bestSize := block, k, block.size;
          assert IsBestFit(blocks[..k + 1], size, at);
          if block.size == size {
            assert IsBestFit(blocks, size, at) by {
              forall j | 0 <= j < |blocks| && Fits(blocks[j], size)
                ensures blocks[at].size < blocks[j].size || (blocks[at].size == blocks[j].size && at <= j)
              {
                assert j <= k ==> blocks[..k + 1][j] == blocks[j];
              }
            }
            return;
          }
        }
        block, k := block.next, k + 1;
      }
      assert blocks[..|nodes|] == blocks;
    }

    method LinkAfter(block: MemBlock, newBlock: MemBlock, ghost i: nat)
      requires Linked() && i < |nodes| && nodes[i] == block && newBlock !in repr
      modifies this`last, this`nodes, this`repr, newBlock`next, newBlock`prev, repr`next, repr`prev
      ensures Linked() && repr == old(repr) + {newBlock}
      ensures nodes == old(nodes)[..i + 1] + [newBlock] + old(nodes)[i + 1..]
    {
      newBlock.next := block.next;
      newBlock.prev := block;
      if block.next != null {
        block.next.prev := newBlock;
      } else {
        last := newBlock;
      }
      block.next := newBlock;
      nodes := nodes[..i + 1] + [newBlock] + nodes[i + 1..];
      repr := repr + {newBlock};
      assert forall j {:trigger nodes[j]} :: i + 1 < j < |nodes| ==> nodes[j] == old(nodes)[j - 1];
    }

    method SplitBlock(block: MemBlock, size: nat, ghost i: nat)
      requires Valid() && i < |nodes| && nodes[i] == block && size < U32
      modifies this, repr
      ensures Valid() && fresh(repr - old(repr)) && blocks == SplitAt(old(blocks), i, size)
      ensures Shifted(old(nodes), nodes, i)
    {
      var remaining := (block.size - size - OVERHEAD) % U32;
      if remaining >= OVERHEAD {
        CutBlock(block, size, remaining, i);
      }
    }

    method CutBlock(block: MemBlock, size: nat, remaining: nat, ghost i: nat)
      requires Valid() && i < |nodes| && nodes[i] == block && size < U32
      requires OVERHEAD <= remaining == Remaining(blocks[i].size, size)
      modifies this, repr
      ensures Valid() && fresh(repr - old(repr)) && blocks == SplitAt(old(blocks), i, size)
      ensures Shifted(old(nodes), nodes, i)
    {
      SplitIsInsert(blocks, i, size);
      assert blocks[i] == Block(block.addr, block.size, block.used);
      var newBlock := new MemBlock(block.addr + OVERHEAD + size, remaining - OVERHEAD, false, null, null);
      InsertAndCut(block, newBlock, size, i);
    }

    method InsertAndCut(block: MemBlock, newBlock: MemBlock, size: nat, ghost i: nat)
      requires Valid() && i < |nodes| && nodes[i] == block && size < U32 && newBlock !in repr && newBlock.size < U32
      modifies this, repr, newBlock
      ensures Valid() && repr == old(repr) + {newBlock} && Shifted(old(nodes), nodes, i)
      ensures blocks == Inserted(old(blocks), i, Block(old(newBlock.addr), old(newBlock.size), old(newBlock.used)))
                          [i := old(blocks)[i].(size := size)]
    {
      InsertAfter(block, newBlock, i);
      Resize(block, size, i);
    }

    method InsertAfter(block: MemBlock, newBlock: MemBlock, ghost i: nat)
      requires Valid() && i < |nodes| && nodes[i] == block && newBlock !in repr && newBlock.size < U32
      modifies this, newBlock`next, newBlock`prev, repr`next, repr`prev
      ensures Valid() && repr == old(repr) + {newBlock}
      ensures blocks == Inserted(old(blocks), i, Block(newBlock.addr, newBlock.size, newBlock.used))
      ensures nodes[i] == block && Shifted(old(nodes), nodes, i)
    {
      LinkAfter(block, newBlock, i);
      blocks := Inserted(blocks, i, Block(newBlock.addr, newBlock.size, newBlock.used));
      DescribeInsert(old(nodes), old(blocks), newBlock, i);
    }

    lemma DescribeInsert(was: seq<MemBlock>, bs: seq<Block>, newBlock: MemBlock, i: nat)
      requires i < |was| == |bs| && nodes == was[..i + 1] + [newBlock] + was[i + 1..]
      requires blocks == Inserted(bs, i, Block(newBlock.addr, newBlock.size, newBlock.used))
      requires newBlock in repr && newBlock.size < U32
      requires forall k :: 0 <= k < |was| ==> was[k] in repr
      requires forall k :: 0 <= k < |was| ==> bs[k] == Block(was[k].addr, was[k].size, was[k].used) && bs[k].size < U32
      ensures Described() && Shifted(was, nodes, i) && nodes[i] == was[i]
    {
      forall j | 0 <= j < |nodes|
        ensures nodes[j] in repr && blocks[j] == Block(nodes[j].addr, nodes[j].size, nodes[j].used)
        ensures blocks[j].size < U32
      {
        if j != i + 1 {
          var k := if j <= i then j else j - 1;
          assert nodes[j] == was[k] && blocks[j] == bs[k];
        }
      }
    }

    method Update(block: MemBlock, size: nat, used: bool, ghost i: nat)
      requires Valid() && i < |nodes| && nodes[i] == block && size < U32
      modifies this`blocks, block`size, block`used
      ensures Valid() && blocks == old(blocks)[i := old(blocks)[i].(size := size, used := used)]
    {
      block.size, block.used := size, used;
      blocks := blocks[i := blocks[i].(size := size, used := used)];
    }

    method Resize(block: MemBlock, size: nat, ghost i: nat)
      requires Valid() && i < |nodes| && nodes[i] == block && size < U32
      modifies this`blocks, block`size, block`used
      ensures Valid() && blocks == old(blocks)[i := old(blocks)[i].(size := size)]
    {
      assert blocks[i].used == block.used;
      Update(block, size, block.used, i);
    }

    /** The nodes up to `at` stay where they are, the later ones move by the growth of the list. */
    static ghost predicate Shifted(before: seq<MemBlock>, after: seq<MemBlock>, at: nat) {
      && |before| <= |after| && at < |before|
      && after[..at + 1] == before[..at + 1]
      && after[|after| - (|before| - at - 1)..] == before[at + 1..]
    }

    static lemma ShiftedAt(before: seq<MemBlock>, after: seq<MemBlock>, at: nat, k: nat)
      requires Shifted(before, after, at) && k < |before|
      ensures before[k] == after[if at < k then k + |after| - |before| else k]
    {
      if at < k {
        assert before[k] == before[at + 1..][k - at - 1];
      } else {
        assert before[k] == before[..at + 1][k];
      }
    }

    method UnlinkNext(block: MemBlock, ghost i: nat)
      requires Linked() && i + 1 < |nodes| && nodes[i] == block
      modifies this`last, this`nodes, repr`next, repr`prev
      ensures Linked() && nodes == old(nodes)[..i + 1] + old(nodes)[i + 2..]
    {
      block.next := block.next.next;
      if block.next != null {
        block.next.prev := block;
      } else {
        last := block;
      }
      nodes := nodes[..i + 1] + nodes[i + 2..];
    }

    /** The merge of Memory_Free, Memory_Realloc and Memory_Defragment: swallow the next block. */
    method MergeWithNext(block: MemBlock, ghost i: nat)
      requires Valid() && i + 1 < |nodes| && nodes[i] == block
      modifies this, repr
      ensures Valid() && blocks == MergeAt(old(blocks), i)
      ensures nodes == old(nodes)[..i + 1] + old(nodes)[i + 2..] && repr == old(repr)
    {
      block.size := (block.size + block.next.size + OVERHEAD) % U32;
      UnlinkNext(block, i);
      blocks := MergeAt(blocks, i);
    }

    /** Memory_Alloc once the pools are out of the question (`pooled` when one served it). */
    method Alloc(size: nat, pooled: bool) returns (r: MemBlock?, ghost at: nat)
      requires Valid() && size < U32
      modifies this, repr
      ensures Valid() && fresh(repr - old(repr))
      ensures blocks == Step(old(blocks), Op.Alloc(size, pooled), heapSize)
      ensures r == null <==> pooled || size == 0 || !HasFit(old(blocks), AlignUp(size))
      ensures r != null ==>
        && at < |old(nodes)| <= |nodes| && nodes[at] == r == old(nodes)[at]
        && blocks[at].used && AlignUp(size) <= blocks[at].size
    {
      r, at := null, 0;
      if size == 0 || pooled { return; }
      r, at := AllocBestFit(AlignUp(size));
    }

    method AllocBestFit(need: nat) returns (r: MemBlock?, ghost at: nat)
      requires Valid() && need < U32
      modifies this, repr
      ensures Valid() && fresh(repr - old(repr))
      ensures r == null <==> !HasFit(old(blocks), need)
      ensures r == null ==> BestFit(old(blocks), need).None? && nodes == old(nodes) && blocks == old(blocks)
      ensures r != null ==>
        && BestFit(old(blocks), need) == Some(at) && blocks == AllocAt(old(blocks), at, need)
        && Shifted(old(nodes), nodes, at) && nodes[at] == r == old(nodes)[at]
    {
      r, at := FindBestFit(need);
      if r == null { return; }
      BestFitUnique(blocks, need, at);
      TakeBlock(r, need, at);
    }

    method TakeBlock(block: MemBlock, need: nat, ghost i: nat)
      requires Valid() && i < |nodes| && nodes[i] == block && need < U32
      modifies this, repr
      ensures Valid() && fresh(repr - old(repr)) && blocks == AllocAt(old(blocks), i, need)
      ensures Shifted(old(nodes), nodes, i) && nodes[i] == block
    {
      SplitBlock(block, need, i);
      ShiftedAt(old(nodes), nodes, i, i);
      Update(block, block.size, true, i);
    }

    method Free(block: MemBlock, guardsOk: bool, ghost i: nat)
      requires Valid() && OVERHEAD <= heapSize && i < |nodes| && nodes[i] == block
      modifies this, repr
      ensures Valid() && repr == old(repr)
      ensures blocks == FreeStep(old(blocks), i, heapSize, guardsOk)
    {
      assert blocks[i] == Block(block.addr, block.size, block.used);
      if block.addr >= heapSize || block.size == 0 || block.size > heapSize - OVERHEAD { return; }
      if !block.used { return; }
      if !guardsOk { return; }
      Release(block, i);
    }

    method Release(block: MemBlock, ghost i: nat)
      requires Valid() && i < |nodes| && nodes[i] == block
      modifies this, repr
      ensures Valid() && repr == old(repr) && blocks == FreeAt(old(blocks), i)
    {
      Update(block, block.size, false, i);
      if block.next != null && !block.next.used {
        MergeWithNext(block, i);
      }
      assert nodes[i] == block && nodes[0].prev == null;
      if block.prev != null && !block.prev.used {
        assert nodes[i].prev == nodes[i - 1];
        MergeWithNext(block.prev, i - 1);
      }
    }

    /** The heap block Memory_Realloc answers with: the same one where it can stay, else the best fit. */
    ghost function Resized(i: nat, need: nat, pooled: bool): MemBlock?
      requires Valid() && i < |nodes|
      reads this, repr
    {
      if need <= blocks[i].size || CanGrow(blocks, i, need) then nodes[i]
      else if pooled || BestFit(blocks, need).None? then null
      else nodes[BestFit(blocks, need).value]
    }

    /** The same in plain sizes. */
    lemma PlainAnswer(i: nat, size: nat, guardsOk: bool, pooled: bool)
      requires Valid() && i < |nodes| && Laid(blocks, heapSize) && heapSize < U32
      requires !Refused(blocks[i], size, guardsOk)
      ensures CanResize(blocks, i, size, heapSize, guardsOk)
      ensures Resized(i, AlignUp(size), pooled) == nodes[i] <==> CanStay(blocks, i, AlignUp(size))
      ensures Resized(i, AlignUp(size), pooled) == null <==>
              !CanStay(blocks, i, AlignUp(size)) && (pooled || !FreeRoom(blocks, AlignUp(size)))
    {
      CanResizeIff(blocks, i, size, heapSize, guardsOk);
      CanStayIff(blocks, i, AlignUp(size), heapSize);
      FitIff(blocks, AlignUp(size), heapSize);
      BestFitIff(blocks, AlignUp(size));
    }

    /** Memory_Realloc on a heap block. */
    method Realloc(block: MemBlock, size: nat, guardsOk: bool, pooled: bool, ghost i: nat) returns (r: MemBlock?)
      requires Valid() && OVERHEAD <= heapSize && size < U32 && i < |nodes| && nodes[i] == block
      modifies this, repr
      ensures Valid() && fresh(repr - old(repr))
      ensures blocks == Final(old(blocks), ReallocOps(old(blocks), i, size, heapSize, guardsOk, pooled), heapSize)
      ensures r == if CanResize(old(blocks), i, size, heapSize, guardsOk) then old(Resized(i, AlignUp(size), pooled))
                   else null
      ensures Laid(old(blocks), heapSize) && heapSize < U32 && !Refused(old(blocks)[i], size, guardsOk) ==>
        && (r == block <==> CanStay(old(blocks), i, AlignUp(size)))
        && (r == null <==> !CanStay(old(blocks), i, AlignUp(size)) && (pooled || !FreeRoom(old(blocks), AlignUp(size))))
    {
      if Laid(blocks, heapSize) && heapSize < U32 && !Refused(blocks[i], size, guardsOk) {
        PlainAnswer(i, size, guardsOk, pooled);
      }
      assert blocks[i] == Block(block.addr, block.size, block.used);
      if size == 0 {
        ReallocOnce(blocks, i, size, heapSize, guardsOk, pooled);
        Free(block, guardsOk, i);
        return null;
      }
      if block.addr >= heapSize || block.size == 0 || block.size > heapSize - OVERHEAD || !guardsOk { return null; }
      r := ReallocValid(block, size, guardsOk, pooled, i);
    }

    method ReallocValid(block: MemBlock, size: nat, guardsOk: bool, pooled: bool, ghost i: nat) returns (r: MemBlock?)
      requires Valid() && OVERHEAD <= heapSize && size < U32 && i < |nodes| && nodes[i] == block
      requires CanResize(blocks, i, size, heapSize, guardsOk)
      modifies this, repr
      ensures Valid() && fresh(repr - old(repr))
      ensures blocks == Final(old(blocks), ReallocOps(old(blocks), i, size, heapSize, guardsOk, pooled), heapSize)
      ensures r == old(Resized(i, AlignUp(size), pooled))
    {
      var done := ResizeInPlace(block, AlignUp(size), i);
      if done {
        ReallocOnce(old(blocks), i, size, heapSize, guardsOk, pooled);
        return block;
      }
      if pooled {
        ReallocOnce(blocks, i, size, heapSize, guardsOk, pooled);
        Free(block, guardsOk, i);
        return null;
      }
      ghost var at, taken, j;
      r, at, taken, j := Move(block, AlignUp(size), guardsOk, i);
      if r == null {
        ReallocOnce(blocks, i, size, heapSize, guardsOk, pooled);
      } else {
        ReallocTwice(old(blocks), i, size, heapSize, guardsOk, at, taken, j);
      }
    }

    method ResizeInPlace(block: MemBlock, need: nat, ghost i: nat) returns (done: bool)
      requires Valid() && need < U32 && i < |nodes| && nodes[i] == block
      modifies this, repr
      ensures Valid() && fresh(repr - old(repr))
      ensures blocks == ResizeAt(old(blocks), i, need)
      ensures done <==> need <= old(blocks)[i].size || CanGrow(old(blocks), i, need)
      ensures !done ==> nodes == old(nodes)
    {
      assert blocks[i] == Block(block.addr, block.size, block.used);
      if need <= block.size {
        if need < block.size {
          SplitBlock(block, need, i);
        }
        return true;
      }
      var grows := MayGrow(block, need, i);
      if grows {
        Grow(block, need, i);
      }
      return grows;
    }

    method MayGrow(block: MemBlock, need: nat, ghost i: nat) returns (ok: bool)
      requires Valid() && i < |nodes| && nodes[i] == block
      ensures ok <==> CanGrow(blocks, i, need)
    {
      assert blocks[i] == Block(block.addr, block.size, block.used);
      if i + 1 < |nodes| {
        assert nodes[i].next == nodes[i + 1];
        assert blocks[i + 1] == Block(nodes[i + 1].addr, nodes[i + 1].size, nodes[i + 1].used);
      }
      ok := block.next != null && !block.next.used && (block.size + block.next.size) % U32 + OVERHEAD >= need;
    }

    method Grow(block: MemBlock, need: nat, ghost i: nat)
      requires Valid() && need < U32 && i + 1 < |nodes| && nodes[i] == block
      modifies this, repr
      ensures Valid() && fresh(repr - old(repr))
      ensures blocks == SplitAt(MergeAt(old(blocks), i), i, need)
    {
      MergeWithNext(block, i);
      SplitBlock(block, need, i);
    }

    /** The last resort of Memory_Realloc: a new block, then the old one is freed. */
    method Move(block: MemBlock, need: nat, guardsOk: bool, ghost i: nat)
      returns (r: MemBlock?, ghost at: nat, ghost taken: seq<Block>, ghost j: nat)
      requires Valid() && OVERHEAD <= heapSize && need < U32
      requires i < |nodes| && nodes[i] == block
      modifies this, repr
      ensures Valid() && fresh(repr - old(repr))
      ensures r == null ==> BestFit(old(blocks), need).None? && blocks == old(blocks)
      ensures r != null ==>
        && BestFit(old(blocks), need) == Some(at) && taken == AllocAt(old(blocks), at, need)
        && r == old(nodes)[at] && j == IndexAfter(old(blocks), taken, at, i)
        && blocks == FreeStep(taken, j, heapSize, guardsOk)
    {
      taken, j := blocks, i;
      r, at := AllocBestFit(need);
      if r == null { return; }
      taken, j := blocks, IndexAfter(old(blocks), blocks, at, i);
      ShiftedAt(old(nodes), nodes, at, i);
      assert j < |nodes| && nodes[j] == block;
      Free(block, guardsOk, j);
    }

    /** Memory_Defragment: passes over the list until one finds nothing to merge. */
    method Defragment()
      requires Valid()
      modifies this, repr
      ensures Valid() && repr == old(repr) && blocks == Coalesce(old(blocks))
    {
      var merged := true;
      while merged
        invariant Valid() && repr == old(repr)
        invariant Coalesce(blocks) == Coalesce(old(blocks))
        invariant !merged ==> blocks == Coalesce(blocks)
        decreases |nodes|, merged
      {
        ghost var before := blocks;
        merged := MergePass();
        CoalesceNormalises(before);
        CoalesceFixpoint(blocks);
      }
    }

    method MergePass() returns (merged: bool)
      requires Valid()
      modifies this, repr
      ensures Valid() && repr == old(repr) && blocks == Coalesce(old(blocks))
      ensures if merged then |nodes| < |old(nodes)| else |nodes| == |old(nodes)|
    {
      merged := false;
      var block := first;
      ghost var i := 0;
      assert blocks[..0] + Coalesce(blocks[0..]) == Coalesce(old(blocks));
      while block.next != null
        invariant Valid() && repr == old(repr) && i < |nodes| && nodes[i] == block
        invariant blocks[..i] + Coalesce(blocks[i..]) == Coalesce(old(blocks))
        invariant if merged then |nodes| < |old(nodes)| else |nodes| == |old(nodes)|
        decreases |nodes| - i
      {
        assert blocks[i] == Block(block.addr, block.size, block.used);
        assert nodes[i + 1] == block.next;
        if !block.used && !block.next.used {
          CoalesceMerges(blocks, i);
          MergeWithNext(block, i);
          merged := true;
        } else {
          CoalesceSkips(blocks, i);
          block, i := block.next, i + 1;
        }
      }
      assert blocks[i..] == [blocks[i]];
      assert blocks[..i] + blocks[i..] == blocks;
    }

    /** Block `k` is valid, and its guard words are not corrupt while it is in use. */
    ghost predicate Sound(k: nat, corrupt: set<MemBlock>)
      reads this
      requires k < |blocks| == |nodes|
    {
      IsValidBlock(blocks[k], heapSize) && (blocks[k].used ==> nodes[k] !in corrupt)
    }

    method CheckBlock(block: MemBlock, corrupt: set<MemBlock>, ghost k: nat) returns (ok: bool)
      requires Valid() && OVERHEAD <= heapSize && k < |nodes| && nodes[k] == block
      ensures ok <==> Sound(k, corrupt)
    {
      assert blocks[k] == Block(block.addr, block.size, block.used);
      if block.addr >= heapSize || block.size == 0 || block.size > heapSize - OVERHEAD { return false; }
      if block.used && block in corrupt { return false; }
      assert k + 1 < |nodes| ==> nodes[k].next == nodes[k + 1] && nodes[k + 1].prev == nodes[k];
      ok := if block.next != null then block.next.prev == block else block == last;
    }

    /** Memory_CheckIntegrity; `corrupt` holds the blocks whose guard words fail. */
    method CheckIntegrity(corrupt: set<MemBlock>) returns (ok: bool)
      requires Valid() && OVERHEAD <= heapSize
      ensures ok <==> Total(blocks) % U32 <= heapSize && forall i :: 0 <= i < |blocks| ==> Sound(i, corrupt)
    {
      var block: MemBlock? := first;
      var total := 0;
      ghost var k := 0;
      while block != null
        invariant 0 <= k <= |nodes| && block == if k < |nodes| then nodes[k] else null
        invariant total == Total(blocks[..k]) % U32
        invariant forall i :: 0 <= i < k ==> Sound(i, corrupt)
        decreases |nodes| - k
      {
        ok := CheckBlock(block, corrupt, k);
        if !ok { return; }
        total := (total + block.size + OVERHEAD) % U32;
        TotalMore(blocks, k);
        assert blocks[k].size == block.size;
        assert k + 1 < |nodes| ==> nodes[k].next == nodes[k + 1];
        block, k := block.next, k + 1;
      }
      assert blocks[..k] == blocks;
      ok := total <= heapSize;
    }
  }
}
