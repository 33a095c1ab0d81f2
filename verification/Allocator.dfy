/** The bit map of used blocks, and the all-or-nothing request of several of them. */
module Allocation {
  import opened Bitarrays
  import opened BlockLists

  ghost predicate AllBefore(a: set<nat>, b: set<nat>) {
    forall x, y :: x in a && y in b ==> x < y
  }

  /** The blocks are the lowest of those that were free, each listed once, and the others still are. */
  ghost predicate LowestTaken(before: set<nat>, free: set<nat>, blocks: seq<nat>) {
    && Distinct(blocks) && AsSet(blocks) <= before && free == before - AsSet(blocks)
    && AllBefore(AsSet(blocks), free)
  }

  lemma TakeLowest(before: set<nat>, free: set<nat>, blocks: seq<nat>, block: nat)
    requires LowestTaken(before, free, blocks) && block in free && forall b :: b in free ==> block <= b
    ensures LowestTaken(before, free - {block}, blocks + [block])
  {
    AsSetAppend(blocks, block);
  }

  lemma LowestCount(before: set<nat>, free: set<nat>, blocks: seq<nat>)
    requires LowestTaken(before, free, blocks)
    ensures |before| == |free| + |blocks| && before == free + AsSet(blocks)
  {
    assert before == AsSet(blocks) + free;
  }

  /** The bit map of the blocks in use (`bitArray` and the operations on it). */
  class BlockAllocator {
    const numBlocks: nat
    const bitmap: Bitarray
    /** The blocks whose bit is clear. */
    ghost var free: set<nat>

    ghost predicate Valid()
      reads this, bitmap, bitmap.bytes
    {
      && bitmap.mode == LsbFirst && bitmap.Valid() && numBlocks <= |bitmap.bits|
      && free <= Upto(numBlocks)
      && forall b {:trigger bitmap.bits[b]} :: 0 <= b < numBlocks ==> (b in free <==> !bitmap.bits[b])
    }

    constructor (numBlocks: nat)
      ensures Valid() && fresh(bitmap) && fresh(bitmap.bytes)
      ensures this.numBlocks == numBlocks && free == Upto(numBlocks)
    {
      this.numBlocks := numBlocks;
      var bytes := numBlocks / 8;
      if numBlocks % 8 != 0 { bytes := bytes + 1; }
      bitmap := new Bitarray(bytes, LsbFirst);
      free := Upto(numBlocks);
    }

    lemma FreeIsAbove(i: nat)
      requires Valid() && i <= numBlocks
      requires forall b :: 0 <= b < i ==> bitmap.bits[b]
      ensures forall b :: b in free ==> i <= b < numBlocks
    {
      forall b | b in free ensures i <= b < numBlocks {
        assert !bitmap.bits[b];
      }
    }

    /** The first clear bit, or the number of blocks.  The bound is tested before the bit. */
    method FirstClear() returns (i: nat)
      requires Valid()
      ensures i <= numBlocks && (forall b :: 0 <= b < i ==> bitmap.bits[b])
      ensures i < numBlocks ==> !bitmap.bits[i]
    {
      i := 0;
      while i < numBlocks
        invariant 0 <= i <= numBlocks
        invariant forall b :: 0 <= b < i ==> bitmap.bits[b]
      {
        var used := bitmap.TestBit(i);
        if !used {
          break;
        }
        i := i + 1;
      }
    }

    /** First free block, marked as used. */
    method FindFreeBlock() returns (found: bool, block: nat)
      requires Valid()
      modifies this`free, bitmap, bitmap.bytes
      ensures Valid()
      ensures found <==> old(free) != {}
      ensures found ==> block in old(free) && (forall b :: b in old(free) ==> block <= b)
      ensures free == if found then old(free) - {block} else old(free)
    {
      block := FirstClear();
      found := block < numBlocks;
      FreeIsAbove(block);
      if found {
        bitmap.SetBit(block);
        free := free - {block};
      }
    }

    method MarkFree(block: nat)
      requires Valid() && block < numBlocks
      modifies this`free, bitmap, bitmap.bytes
      ensures Valid() && free == old(free) + {block}
    {
      bitmap.CleanBit(block);
      free := free + {block};
    }

    method MarkAllFree(blocks: seq<nat>)
      requires Valid() && AsSet(blocks) <= Upto(numBlocks)
      modifies this`free, bitmap, bitmap.bytes
      ensures Valid() && free == old(free) + AsSet(blocks)
    {
      for i := 0 to |blocks|
        invariant Valid() && free == old(free) + AsSet(blocks[..i])
      {
        AsSetStep(blocks, i);
        MarkFree(blocks[i]);
      }
      assert blocks[..|blocks|] == blocks;
    }

    /** All n blocks or none: the ones already obtained are given back when the disk runs out. */
    method RequestBlocks(n: nat) returns (ok: bool, blocks: seq<nat>)
      requires Valid()
      modifies this`free, bitmap, bitmap.bytes
      ensures Valid()
      ensures ok <==> n <= |old(free)|
      ensures ok ==> |blocks| == n && Distinct(blocks) && AsSet(blocks) <= old(free)
      ensures ok ==> free == old(free) - AsSet(blocks) && |old(free)| == |free| + n
      ensures ok ==> AllBefore(AsSet(blocks), free)
      ensures !ok ==> blocks == [] && free == old(free)
    {
      ok, blocks := true, [];
      while ok && |blocks| < n
        invariant Valid() && |blocks| <= n && LowestTaken(old(free), free, blocks)
        invariant ok || (free == {} && |blocks| < n)
        decreases ok, n - |blocks|
      {
        var block;
        ghost var before := free;
        ok, block := FindFreeBlock();
        if ok {
          TakeLowest(old(free), before, blocks, block);
          blocks := blocks + [block];
        }
      }
      LowestCount(old(free), free, blocks);
      if !ok {
        MarkAllFree(blocks);
        blocks := [];
      }
    }
  }
}
