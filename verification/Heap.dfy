/**
 The kernel heap: kmalloc and kfree of kernel/memory/MemoryManager.cpp.
 */
module Heaps {
  import opened Bitmaps
  import opened HeapChain
  import opened HeapMemory
  import opened Masks

  class Heap {
    /** KMALLOC_POOL_START */
    const poolStart: nat
    /** KMALLOC_POOL_END */
    const poolEnd: nat
    var memory: Memory
    var heapHead: nat
    /** The blocks that the `next` links run through from `heap_head`. */
    ghost var chain: seq<Block>

    /** The chain tiles the pool up to its end, and its headers are linked both ways. */
    ghost predicate Tiled()
      reads this
    {
      && Tiles(chain, poolEnd) && 0 < chain[0].addr && heapHead == chain[0].addr
      && Linked(memory, chain, 0, 0)
      && poolStart <= chain[0].addr && poolEnd < WORD
    }

    /** The bytes at the start of the pool that no block holds any more. */
    ghost function Gap(): nat
      requires Tiled()
      reads this
    {
      chain[0].addr - poolStart
    }

    /** Headers, data and the gap make up the pool, after any sequence of calls. */
    lemma PoolBytes()
      requires Tiled()
      ensures Gap() + Bytes(chain) == poolEnd - poolStart
    {
      TilesBytes(chain, poolEnd);
    }

    ghost predicate Valid()
      reads this
    {
      Tiled() && Coalesced(chain)
    }

    /** `init_heap`: one free block over the whole pool. */
    constructor (poolStart: nat, poolSize: nat)
      requires 0 < poolStart && HEADER <= poolSize && poolStart + poolSize < WORD
      ensures Valid() && this.poolStart == poolStart && poolEnd == poolStart + poolSize && Gap() == 0
      ensures chain == [Block(poolStart, poolSize - HEADER, false)]
    {
      this.poolStart := poolStart;
      poolEnd := poolStart + poolSize;
      heapHead := poolStart;
      memory := map[poolStart := Header(MAGIC, false, false, poolSize - HEADER, 0, 0)];
      chain := [Block(poolStart, poolSize - HEADER, false)];
    }

    /** `init_header` followed by setting the size and both links. */
    method InitHeader(header: nat, dataSize: nat, next: nat, prev: nat)
      modifies this`memory
      ensures memory == old(memory)[header := Header(MAGIC, false, false, dataSize, next, prev)]
    {
      memory := memory[header := Header(MAGIC, false, false, dataSize, next, prev)];
    }

    /** Lines 86-105: the header moves `offset` bytes up, and the gap goes to the left or is dropped. */
    method MoveHeader(header: nat, offset: nat, ghost i: nat) returns (newHeader: nat)
      requires Tiled() && i < |chain| && chain[i].addr == header && 0 < offset
               && header + offset + HEADER <= chain[i].End()
      modifies this`memory, this`heapHead
      ensures newHeader == header + offset
      ensures heapHead == First(Front(chain, i, offset), newHeader)
      ensures 0 < heapHead && newHeader in memory && !memory[newHeader].used
      ensures Opened(memory, Front(chain, i, offset), newHeader, chain[i + 1..], header, chain[0].addr, chain[i].End())
    {
      hide Opened, Linked, Tiles;
      ghost var post, low, end := chain[i + 1..], chain[0].addr, chain[i].End();
      OpenChain(memory, chain, poolEnd, i);
      OpenedFields(memory, chain[..i], header, post, header, low, end);
      assert i == 0 ==> chain[..i] == [];
      var prev := memory[header].prev;
      var next := memory[header].next;
      newHeader := header + offset;
      if prev != 0 {
        GapToPrevious(memory, chain[..i], header, post, header, low, end, offset);
        InitHeader(newHeader, 0, next, prev);
        memory := memory[prev := memory[prev].(dataSize := memory[prev].dataSize + offset, next := newHeader)];
        assert chain[..i][..i - 1] == chain[..i - 1];
      } else if offset > HEADER {
        GapToBlock(memory, header, post, header, low, end, offset);
        InitHeader(newHeader, 0, next, header);
        memory := memory[header := memory[header].(used := false, next := newHeader, dataSize := offset - HEADER)];
      } else {
        GapDropped(memory, header, post, header, low, end, offset);
        InitHeader(newHeader, 0, next, prev);
        heapHead := newHeader;
      }
    }

    /** `if (next) next->prev = address` */
    method PointBack(next: nat, address: nat)
      requires next != 0 ==> next in memory
      modifies this`memory
      ensures memory == SetPrev(old(memory), next, address)
    {
      if next != 0 {
        memory := memory[next := memory[next].(prev := address)];
      }
    }

    /** Lines 109-120 with their three slips repaired: the end of the block is cut off as a free block, or kept. */
    method CutTail(newHeader: nat, splitAt: nat, blockEnd: nat, ghost front: seq<Block>, ghost post: seq<Block>,
                   ghost back: nat, ghost low: nat)
      requires Opened(memory, front, newHeader, post, back, low, blockEnd)
      requires newHeader + HEADER <= splitAt <= blockEnd
      modifies this`memory
      ensures Linked(memory, front + Carved(Block(newHeader, blockEnd - newHeader - HEADER, false), splitAt, 0,
                                            old(memory)[newHeader].used) + post, 0, 0)
      ensures var used := old(memory)[newHeader].used;
              if blockEnd - splitAt > HEADER then
                Linked(memory, front + [Block(newHeader, splitAt - newHeader - HEADER, used),
                                        Block(splitAt, blockEnd - splitAt - HEADER, false)] + post, 0, 0)
              else
                Linked(memory, front + [Block(newHeader, blockEnd - newHeader - HEADER, used)] + post, 0, 0)
    {
      hide Opened, Linked;
      OpenedFields(memory, front, newHeader, post, back, low, blockEnd);
      var next := memory[newHeader].next;
      var remainder := blockEnd - splitAt;
      if remainder > HEADER {
        TailLinked(memory, front, newHeader, post, back, low, blockEnd, splitAt);
        memory := memory[newHeader := memory[newHeader].(dataSize := splitAt - newHeader - HEADER, next := splitAt)];
        // Repaired: line 115 stores null here, which drops the rest of the chain.
        InitHeader(splitAt, blockEnd - splitAt - HEADER, next, newHeader);
        // Repaired: the next header is left pointing back at the old block.
        PointBack(next, splitAt);
      } else {
        NoTailLinked(memory, front, newHeader, post, back, low, blockEnd);
        // Repaired: line 119 forgets the header's own size.
        memory := memory[newHeader := memory[newHeader].(dataSize := blockEnd - newHeader - HEADER)];
        // Repaired: as above.
        PointBack(next, newHeader);
      }
    }

    /** Lines 60-74: the same for a block whose data is aligned already. */
    method CutAligned(header: nat, splitAt: nat, ghost i: nat)
      requires Tiled() && i < |chain| && chain[i].addr == header && chain[i].Data() <= splitAt <= chain[i].End()
      modifies this`memory
      ensures Linked(memory, Carve(chain, i, splitAt, 0, chain[i].used), 0, 0)
      ensures var b := chain[i];
              if b.End() - splitAt > HEADER then
                Linked(memory, chain[..i] + [Block(header, splitAt - b.Data(), b.used),
                                             Block(splitAt, b.End() - splitAt - HEADER, false)] + chain[i + 1..], 0, 0)
              else Linked(memory, chain, 0, 0)
    {
      hide Opened, Linked, Tiles;
      ghost var front, post := chain[..i], chain[i + 1..];
      OpenChain(memory, chain, poolEnd, i);
      OpenedFields(memory, front, header, post, header, chain[0].addr, chain[i].End());
      var next := memory[header].next;
      var blockEnd := header + HEADER + memory[header].dataSize;
      var remainder := blockEnd - splitAt;
      if remainder > HEADER {
        TailLinked(memory, front, header, post, header, chain[0].addr, blockEnd, splitAt);
        memory := memory[header := memory[header].(dataSize := splitAt - header - HEADER, next := splitAt)];
        InitHeader(splitAt, remainder - HEADER, next, header);
        PointBack(next, splitAt);
      } else {
        assert chain == front + [chain[i]] + post;
      }
    }

    /**
     `split_block`, repaired: carves the block out of free block `i`.  In a coalesced chain the branch for a
     free right neighbour (lines 75-84) cannot be reached.
     */
    method SplitBlock(header: nat, splitAt: nat, alignOffset: nat, ghost i: nat) returns (block: nat)
      requires Valid() && i < |chain| && chain[i].addr == header && !chain[i].used
      requires chain[i].Data() + alignOffset <= splitAt <= chain[i].End()
      modifies this
      ensures Tiled() && chain == Carve(old(chain), i, splitAt, alignOffset, false)
      ensures Gap() == old(Gap()) + Dropped(i, alignOffset)
      ensures block == header + alignOffset
    {
      hide Opened, Linked, Tiles;
      CarveTiles(chain, poolEnd, i, splitAt, alignOffset, false);
      OpenChain(memory, chain, poolEnd, i);
      OpenedFields(memory, chain[..i], header, chain[i + 1..], header, chain[0].addr, chain[i].End());
      if alignOffset == 0 {
        var next := memory[header].next;
        NextUsed(i);
        if next == 0 || memory[next].used {
          CutAligned(header, splitAt, i);
        } else {
          assert false;
        }
        block := header;
      } else {
        var blockEnd := header + HEADER + memory[header].dataSize;
        ghost var front, post, low := Front(chain, i, alignOffset), chain[i + 1..], chain[0].addr;
        block := MoveHeader(header, alignOffset, i);
        CutTail(block, splitAt, blockEnd, front, post, header, low);
      }
      chain := Carve(chain, i, splitAt, alignOffset, false);
    }

    /** The right neighbour of a free block is not free. */
    lemma NextUsed(i: nat)
      requires Valid() && i < |chain| && !chain[i].used
      ensures var h := chain[i].addr;
              h in memory && (memory[h].next != 0 ==> memory[h].next in memory && memory[memory[h].next].used)
    {
      assert At(memory, chain, i, 0, 0);
      if i + 1 < |chain| {
        assert At(memory, chain, i + 1, 0, 0);
      }
    }

    /** `merge_blocks` */
    method MergeBlocks(left: nat, right: nat, ghost i: nat) returns (merged: nat)
      requires Tiled() && i + 1 < |chain| && left == chain[i].addr && right == chain[i + 1].addr
      modifies this`memory, this`chain
      ensures Tiled() && chain == MergeAt(old(chain), i) && merged == left && Gap() == old(Gap())
      ensures forall h :: h in old(memory) ==> h in memory && memory[h].magic == old(memory)[h].magic
    {
      hide Linked, Tiles;
      MergeLinked(memory, chain, poolEnd, i);
      MergeTiles(chain, poolEnd, i);
      memory := memory[left := memory[left].(next := memory[right].next)];
      memory := memory[left := memory[left].(dataSize := memory[left].dataSize + memory[right].dataSize + HEADER)];
      NextOf(i);
      PointBack(memory[left].next, left);
      merged := left;
      chain := MergeAt(chain, i);
    }

    lemma NextOf(i: nat)
      requires Tiles(chain, poolEnd) && i + 1 < |chain|
      ensures First(chain[i + 2..], 0) == if i + 2 < |chain| then chain[i + 2].addr else 0
    {
    }

    // ----- allocation

    /** Where a walk stands: at block `k`, or past the end. */
    ghost predicate Cursor(cur: nat, k: nat)
      reads this
    {
      k <= |chain| && cur == if k < |chain| then chain[k].addr else 0
    }

    /** What the header under the cursor says, and where the walk goes next. */
    lemma AtCursor(cur: nat, k: nat)
      requires Tiled() && Cursor(cur, k)
      ensures cur == 0 <==> k == |chain|
      ensures k < |chain| ==>
                && cur in memory && memory[cur].used == chain[k].used && memory[cur].dataSize == chain[k].size
                && Cursor(memory[cur].next, k + 1) && chain[k].End() <= poolEnd
    {
      if k < |chain| {
        assert At(memory, chain, k, 0, 0);
        TilesInside(chain, poolEnd, k);
        FillsWithin(chain, chain[0].addr, poolEnd);
      }
    }

    lemma AtStart()
      requires Tiled()
      ensures Cursor(heapHead, 0)
    {
    }

    /** Lines 150-159: where `size` bytes would end in a free block that is large enough, or 0. */
    method SplitPoint(cur: nat, size: nat, alignment: nat, ghost k: nat) returns (splitAt: nat)
      requires Tiled() && k < |chain| && Cursor(cur, k) && !chain[k].used && size <= chain[k].size
      requires alignment < WORD
      ensures Wraps(chain[k], size, alignment) ==>
                0 < splitAt < chain[k].Data() + size && !Fits(chain[k], size, alignment)
      ensures !Wraps(chain[k], size, alignment) ==> (splitAt != 0 <==> Fits(chain[k], size, alignment))
      ensures !Wraps(chain[k], size, alignment) && splitAt != 0 ==>
                && chain[k].Data() <= Place(chain[k].Data(), alignment)
                && splitAt == Place(chain[k].Data(), alignment) + size <= chain[k].End()
    {
      AtCursor(cur, k);
      if alignment == 1 {
        splitAt := cur + HEADER + size;
      } else {
        if Wraps(chain[k], size, alignment) {
          WrappedAnswer(chain[k], size, alignment);
        } else {
          AlignBlockExact(chain[k], size, alignment);
        }
        splitAt := AlignBlock(Block(cur, memory[cur].dataSize, memory[cur].used), size, alignment);
      }
    }

    /** `size` bytes at `r`, the aligned place of the first block that fits, were carved out of it. */
    ghost predicate CarvedFirstFit(before: seq<Block>, after: seq<Block>, r: nat, size: nat, alignment: nat)
    {
      var i := FirstFit(before, size, alignment);
      && i < |before|
      && before[i].Data() <= r == Place(before[i].Data(), alignment)
      && r + size <= before[i].End()
      && after == Carve(before, i, r + size, r - before[i].Data(), true)
    }

    /** A free block `b` had room for the bytes, and its tail is cut off behind them. */
    ghost predicate CutFrom(before: seq<Block>, after: seq<Block>, r: nat, size: nat, b: Block) {
      b in before && !b.used && b.Data() <= r && r + size <= b.End() && TailCut(after, r, size, b.End())
    }

    /** The bytes that giving `r` to a caller drops in front of the first block. */
    ghost function FirstDropped(before: seq<Block>, r: nat, size: nat, alignment: nat): nat
    {
      var i := FirstFit(before, size, alignment);
      if i < |before| && r >= before[i].Data() then Dropped(i, r - before[i].Data()) else 0
    }

    /**
     `kmalloc_common`: the first block that can hold `size` aligned bytes gives them up; null exactly when
     there is none, and then nothing changes.  If the walk first meets a block for which a place in front of its data is
     computed, `split_block` is called for that place; that is what `wrapped` says, and the model stops there.
     */
    method KmallocCommon(size: nat, alignment: nat) returns (r: nat, wrapped: bool)
      requires Valid() && alignment < WORD
      modifies this
      ensures Valid()
      ensures wrapped <==> WrapsFirst(old(chain), size, alignment)
      ensures !wrapped ==> (r == 0 <==> FirstFit(old(chain), size, alignment) == |old(chain)|)
      ensures wrapped || r == 0 ==> chain == old(chain) && memory == old(memory) && heapHead == old(heapHead)
      ensures !wrapped && r != 0 ==> CarvedFirstFit(old(chain), chain, r, size, alignment)
      ensures Gap() == old(Gap()) + if wrapped || r == 0 then 0 else FirstDropped(old(chain), r, size, alignment)
    {
      hide Linked, Tiles, Fits, Place, Carve, Coalesced, Wraps;
      wrapped := false;
      var retried := false;
      while true
        invariant Valid() && chain == old(chain) && memory == old(memory) && heapHead == old(heapHead)
        invariant retried ==> FirstFit(chain, size, alignment) == |chain| && !WrapsFirst(chain, size, alignment)
        decreases !retried
      {
        var cur: nat := heapHead;
        ghost var k: nat := 0;
        AtStart();
        while cur != 0
          invariant Valid() && chain == old(chain) && memory == old(memory) && heapHead == old(heapHead)
          invariant Cursor(cur, k) && k <= FirstFit(chain, size, alignment)
          invariant forall j :: 0 <= j < k ==> !Wraps(chain[j], size, alignment)
          decreases |chain| - k
        {
          AtCursor(cur, k);
          FirstFitStep(chain, size, alignment, k);
          if memory[cur].used || memory[cur].dataSize < size {
            Unfit(chain[k], size, alignment);
            cur := memory[cur].next;
          } else {
            var splitAt := SplitPoint(cur, size, alignment, k);
            if splitAt != 0 {
              if splitAt - size < cur + HEADER {
                return 0, true;
              }
              r := Take(cur, size, splitAt, splitAt - size - (cur + HEADER), k);
              return;
            }
            cur := memory[cur].next;
          }
          k := k + 1;
        }
        AtCursor(cur, k);
        if retried {
          return 0, false;
        }
        // merge_all_free() is empty, and would find nothing to merge.
        retried := true;
      }
    }

    lemma FirstFitStep(chain: seq<Block>, size: nat, alignment: nat, k: nat)
      requires k < |chain| && k <= FirstFit(chain, size, alignment)
      ensures Fits(chain[k], size, alignment) <==> FirstFit(chain, size, alignment) == k
    {
    }

    lemma Unfit(b: Block, size: nat, alignment: nat)
      requires b.used || b.size < size
      ensures !Fits(b, size, alignment) && !Wraps(b, size, alignment)
    {
    }

    /** If the alignment fits behind the pool, no sum leaves 32 bits. */
    lemma NothingWraps(size: nat, alignment: nat)
      requires Tiled() && alignment > 0 && poolEnd + alignment <= WORD
      ensures !WrapsFirst(chain, size, alignment)
    {
      hide Wraps, Tiles, AlignDown, FirstFit;
      forall k | 0 <= k < |chain|
        ensures !Wraps(chain[k], size, alignment)
      {
        TilesInside(chain, poolEnd, k);
        StaysInWord(chain[k], size, alignment);
      }
    }

    lemma StaysInWord(b: Block, size: nat, alignment: nat)
      requires 0 < alignment && b.End() + alignment <= WORD
      ensures !Wraps(b, size, alignment)
    {
      assert AlignDown(0, alignment) == 0;
      hide AlignDown;
    }

    /** Lines 160-162 and 178: the block is split off and marked. */
    method Take(cur: nat, size: nat, splitAt: nat, alignOffset: nat, ghost k: nat) returns (r: nat)
      requires Valid() && k < |chain| && chain[k].addr == cur && !chain[k].used
      requires splitAt == chain[k].Data() + alignOffset + size <= chain[k].End()
      modifies this
      ensures Valid() && chain == Carve(old(chain), k, splitAt, alignOffset, true)
      ensures Gap() == old(Gap()) + Dropped(k, alignOffset)
      ensures r == old(chain)[k].Data() + alignOffset
    {
      hide Linked, Tiles, Coalesced;
      CarveCoalesced(chain, k, splitAt, alignOffset);
      ghost var n := |Front(chain, k, alignOffset)|;
      CarveMark(chain, k, splitAt, alignOffset);
      var block := SplitBlock(cur, splitAt, alignOffset, k);
      MarkLinked(memory, chain, poolEnd, n, true);
      memory := memory[block := memory[block].(used := true)];
      chain := chain[n := chain[n].(used := true)];
      r := block + HEADER;
    }

    lemma CarveMark(chain: seq<Block>, k: nat, splitAt: nat, offset: nat)
      requires k < |chain| && chain[k].Data() + offset <= splitAt <= chain[k].End()
      ensures var n, c := |Front(chain, k, offset)|, Carve(chain, k, splitAt, offset, false);
              && n < |c| && c[n].addr == chain[k].addr + offset
              && c[n := c[n].(used := true)] == Carve(chain, k, splitAt, offset, true)
              && (n > 0 ==> c[0].addr == c[n := c[n].(used := true)][0].addr)
    {
    }

    /** `kmalloc` */
    method Kmalloc(size: nat) returns (r: nat)
      requires Valid() && poolEnd + 8 <= WORD
      modifies this
      ensures Valid()
      ensures r == 0 <==> forall b :: b in old(chain) ==> !Fits(b, size, if size < 8 then 1 else 8)
      ensures r == 0 ==> chain == old(chain)
      ensures r != 0 && size >= 8 ==> r % 8 == 0
      ensures r != 0 ==> exists b :: b in chain && b.used && b.Data() == r && size <= b.size <= size + HEADER
      ensures r != 0 ==> exists b :: CutFrom(old(chain), chain, r, size, b)
      ensures r != 0 ==> CarvedFirstFit(old(chain), chain, r, size, if size < 8 then 1 else 8)
      ensures Gap() ==
              old(Gap()) + if r == 0 then 0 else FirstDropped(old(chain), r, size, if size < 8 then 1 else 8)
    {
      hide Tiles, Coalesced, Linked, Fits, Place, AlignUp, AlignDown, PowerOfTwo, Carve;
      SmallPowers();
      var alignment := if size < 8 then 1 else 8;
      NothingWraps(size, alignment);
      var wrapped: bool;
      if size < 8 {
        r, wrapped := KmallocCommon(size, 1);
      } else {
        r, wrapped := KmallocCommon(size, 8);
      }
      Given(old(chain), r, size, alignment);
    }

    /** `kmalloc_aligned` */
    method KmallocAligned(size: nat, alignment: nat) returns (r: nat, wrapped: bool)
      requires Valid() && alignment < WORD
      modifies this
      ensures Valid()
      ensures wrapped <==> WrapsFirst(old(chain), size, alignment)
      ensures !wrapped ==> (r == 0 <==> forall b :: b in old(chain) ==> !Fits(b, size, alignment))
      ensures wrapped || r == 0 ==> chain == old(chain)
      ensures !wrapped && r != 0 ==>
                && AlignDown(r, alignment) == r && (PowerOfTwo(alignment) && alignment > 0 ==> r % alignment == 0)
                && (exists b :: b in chain && b.used && b.Data() == r && size <= b.size <= size + HEADER)
                && (exists b :: CutFrom(old(chain), chain, r, size, b))
                && CarvedFirstFit(old(chain), chain, r, size, alignment)
      ensures Gap() == old(Gap()) + if wrapped || r == 0 then 0 else FirstDropped(old(chain), r, size, alignment)
    {
      hide Tiles, Coalesced, Linked, Fits, Place, AlignUp, AlignDown, PowerOfTwo, Carve;
      r, wrapped := KmallocCommon(size, alignment);
      Given(old(chain), r, size, alignment);
    }

    /** What the caller of kmalloc sees. */
    lemma Given(before: seq<Block>, r: nat, size: nat, alignment: nat)
      requires alignment < WORD
      ensures FirstFit(before, size, alignment) == |before| <==> forall b :: b in before ==> !Fits(b, size, alignment)
      ensures var i := FirstFit(before, size, alignment);
              i < |before| && before[i].Data() <= r == Place(before[i].Data(), alignment)
              && r + size <= before[i].End() ==>
                && AlignDown(r, alignment) == r
                && (PowerOfTwo(alignment) && alignment > 0 ==>
                      r % alignment == 0 && r == AlignUp(before[i].Data(), alignment))
                && var after := Carve(before, i, r + size, r - before[i].Data(), true);
                   && (exists b :: b in after && b.used && b.Data() == r && size <= b.size <= size + HEADER)
                   && (exists b :: CutFrom(before, after, r, size, b))
    {
      hide AlignDown, AlignUp, PowerOfTwo, Carve, TailCut;
      var i := FirstFit(before, size, alignment);
      if i < |before| {
        assert before[i] in before && Fits(before[i], size, alignment);
        hide Fits;
        if before[i].Data() <= r == Place(before[i].Data(), alignment) && r + size <= before[i].End() {
          PlaceIsMasked(before[i].Data(), alignment);
          if PowerOfTwo(alignment) && alignment > 0 {
            PlaceIsAlignUp(before[i].Data(), alignment);
          }
          CarveCutsTail(before, i, size, r - before[i].Data());
          assert CutFrom(before, Carve(before, i, r + size, r - before[i].Data(), true), r, size, before[i]);
        }
      }
    }

    // ----- release

    /**
     `kfree`.  A wrong magic number panics.  But a freed block keeps its magic number, so the test passes when it is
     freed again, even if its header was merged into the block in front of it and is no block's any more: the caller
     must pass the address of a block.
     */
    method Kfree(address: nat, ghost i: nat) returns (panic: bool)
      requires Valid() && address >= HEADER
      requires address - HEADER in memory && memory[address - HEADER].magic == MAGIC ==>
                 i < |chain| && chain[i].addr == address - HEADER
      modifies this
      ensures Valid() && Gap() == old(Gap())
      ensures panic <==> !(address - HEADER in old(memory) && old(memory)[address - HEADER].magic == MAGIC)
      ensures panic ==> chain == old(chain) && memory == old(memory)
      ensures !panic ==> chain == Release(old(chain), i)
      ensures !panic ==> address - HEADER in memory && memory[address - HEADER].magic == MAGIC
      ensures !panic ==>
                ((exists b :: b in chain && b.addr == address - HEADER) <==> i == 0 || old(chain)[i - 1].used)
    {
      hide Linked, Tiles, Coalesced;
      var header := address - HEADER;
      if header !in memory || memory[header].magic != MAGIC {
        return true;
      }
      panic := false;
      ReleaseCoalesced(chain, i);
      ReleasedIsBlockIff(chain, poolEnd, i);
      MarkLinked(memory, chain, poolEnd, i, false);
      memory := memory[header := memory[header].(used := false)];
      chain := chain[i := chain[i].(used := false)];
      ghost var k := i;
      Neighbours(k);
      var prev := memory[header].prev;
      if prev != 0 && !memory[prev].used {
        header := MergeBlocks(prev, header, i - 1);
        k := i - 1;
        Neighbours(k);
      }
      var next := memory[header].next;
      if next != 0 {
        if !memory[next].used {
          var merged := MergeBlocks(header, next, k);
        }
      }
    }

    /** What a header says about its neighbours. */
    lemma Neighbours(k: nat)
      requires Tiled() && k < |chain|
      ensures var h := chain[k].addr;
              && h in memory
              && (if k > 0 then memory[h].prev == chain[k - 1].addr && memory[h].prev != 0 && memory[h].prev in memory
                                && memory[memory[h].prev].used == chain[k - 1].used
                  else memory[h].prev == 0)
              && (if k + 1 < |chain| then memory[h].next == chain[k + 1].addr && memory[h].next != 0
                  && memory[h].next in memory
                                          && memory[memory[h].next].used == chain[k + 1].used
                  else memory[h].next == 0)
    {
      FillsWithin(chain, chain[0].addr, poolEnd);
      assert At(memory, chain, k, 0, 0);
      if k > 0 {
        assert At(memory, chain, k - 1, 0, 0);
      }
      if k + 1 < |chain| {
        assert At(memory, chain, k + 1, 0, 0);
      }
    }

    // ----- split_block as written

    /** Lines 109-120 as written. */
    method CutTailAsWritten(newHeader: nat, splitAt: nat, blockEnd: nat, ghost front: seq<Block>,
                            ghost post: seq<Block>, ghost back: nat, ghost low: nat)
      returns (ghost walk: seq<Block>)
      requires Opened(memory, front, newHeader, post, back, low, blockEnd) && !memory[newHeader].used
      requires newHeader + HEADER <= splitAt <= blockEnd
      modifies this`memory
      ensures Walk(memory, walk, 0)
      ensures blockEnd - splitAt > HEADER ==>
                walk == front + [Block(newHeader, splitAt - newHeader - HEADER, false),
                                 Block(splitAt, blockEnd - splitAt - HEADER, false)]
      ensures blockEnd - splitAt > HEADER && post == [] ==> Linked(memory, walk, 0, 0)
      ensures blockEnd - splitAt <= HEADER ==> walk == front + [Block(newHeader, blockEnd - newHeader, false)] + post
    {
      hide Opened, Linked, Walk;
      OpenedFields(memory, front, newHeader, post, back, low, blockEnd);
      var remainder := blockEnd - splitAt;
      if remainder > HEADER {
        TailWalk(memory, front, newHeader, post, back, low, blockEnd, splitAt);
        memory := memory[newHeader := memory[newHeader].(dataSize := splitAt - newHeader - HEADER, next := splitAt)];
        InitHeader(splitAt, remainder - HEADER, 0, newHeader);
        walk := front + [Block(newHeader, splitAt - newHeader - HEADER, false),
                         Block(splitAt, blockEnd - splitAt - HEADER, false)];
      } else {
        NoTailWalk(memory, front, newHeader, post, back, low, blockEnd);
        memory := memory[newHeader := memory[newHeader].(dataSize := blockEnd - newHeader)];
        walk := front + [Block(newHeader, blockEnd - newHeader, false)] + post;
      }
    }

    /**
     `split_block` exactly as written.  The chain still tiles the pool with its links inverse to each other
     exactly when the data needed no aligning, or the block was the last one and a free tail is cut off.
     */
    method SplitBlockAsWritten(header: nat, splitAt: nat, alignOffset: nat, ghost i: nat) returns (block: nat)
      requires Valid() && i < |chain| && chain[i].addr == header && !chain[i].used
      requires chain[i].Data() + alignOffset <= splitAt <= chain[i].End()
      modifies this
      ensures block == header + alignOffset
      ensures |chain| > 0 && heapHead == chain[0].addr && Walk(memory, chain, 0)
      ensures Linked(memory, chain, 0, 0) && Tiles(chain, poolEnd) <==>
              alignOffset == 0 || (old(chain)[i].End() - splitAt > HEADER && i == |old(chain)| - 1)
    {
      hide Opened, Linked, Tiles, Walk;
      CarveTiles(chain, poolEnd, i, splitAt, alignOffset, false);
      OpenChain(memory, chain, poolEnd, i);
      OpenedFields(memory, chain[..i], header, chain[i + 1..], header, chain[0].addr, chain[i].End());
      if alignOffset == 0 {
        var next := memory[header].next;
        NextUsed(i);
        if next == 0 || memory[next].used {
          CutAligned(header, splitAt, i);
        } else {
          assert false;
        }
        block := header;
        chain := Carve(chain, i, splitAt, 0, false);
        LinkedWalk(memory, chain, 0, 0);
      } else {
        var blockEnd := header + HEADER + memory[header].dataSize;
        ghost var front, post, low := Front(chain, i, alignOffset), chain[i + 1..], chain[0].addr;
        block := MoveHeader(header, alignOffset, i);
        ghost var walk := CutTailAsWritten(block, splitAt, blockEnd, front, post, header, low);
        WalkTiles(chain, i, splitAt, alignOffset, walk);
        chain := walk;
      }
    }

    /** Which walks of the as-written split tile the pool. */
    lemma WalkTiles(before: seq<Block>, i: nat, splitAt: nat, offset: nat, walk: seq<Block>)
      requires Tiles(before, poolEnd) && i < |before| && before[i].Data() + offset <= splitAt <= before[i].End()
      requires var n, end, front := before[i].addr + offset, before[i].End(), Front(before, i, offset);
               walk == if end - splitAt > HEADER then
                         front + [Block(n, splitAt - n - HEADER, false), Block(splitAt, end - splitAt - HEADER, false)]
                       else front + [Block(n, end - n, false)] + before[i + 1..]
      ensures |walk| > 0 && walk[0].addr == First(Front(before, i, offset), before[i].addr + offset)
      ensures Tiles(walk, poolEnd) <==> before[i].End() - splitAt > HEADER && i == |before| - 1
    {
      var front, n := Front(before, i, offset), before[i].addr + offset;
      if before[i].End() - splitAt > HEADER {
        if i == |before| - 1 {
          CarveTiles(before, poolEnd, i, splitAt, offset, false);
          assert walk == Carve(before, i, splitAt, offset, false);
        } else {
          TilesOrdered(before, poolEnd, i, i + 1);
          assert walk[|walk| - 1].End() == before[i].End();
        }
      } else {
        var x := Block(n, before[i].End() - n, false);
        assert walk[|front|] == x;
        if i + 1 < |before| {
          assert walk[|front| + 1] == before[i + 1];
          assert before[i].End() == before[i + 1].addr;
        } else {
          assert before[i].End() == poolEnd;
        }
      }
    }
  }
}
