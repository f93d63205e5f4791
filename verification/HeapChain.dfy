/**
 The kernel heap of kernel/memory/MemoryManager.cpp as a chain of blocks, and what kmalloc and kfree do to it.
 */
module HeapChain {
  import opened Bitmaps
  import opened Masks

  /** sizeof(HeapBlockHeader). */
  const HEADER: nat := 16

  /** A header at `addr`, and the `size` data bytes behind it. */
  datatype Block = Block(addr: nat, size: nat, used: bool) {
    /** BLOCK_DATA_START */
    function Data(): nat {
      addr + HEADER
    }

    /** BLOCK_END */
    function End(): nat {
      addr + HEADER + size
    }
  }

  /** The blocks of `seg` fill the addresses from `start` to `end`, one behind the other. */
  ghost predicate Fills(seg: seq<Block>, start: nat, end: nat) {
    if seg == [] then start == end
    else
      && seg[0].addr == start && seg[|seg| - 1].End() == end
      && forall i :: 0 <= i < |seg| - 1 ==> seg[i].End() == seg[i + 1].addr
  }

  /** The whole chain: it ends at the end of the pool. */
  ghost predicate Tiles(chain: seq<Block>, end: nat) {
    |chain| > 0 && Fills(chain, chain[0].addr, end)
  }

  /** No two neighbours are both free. */
  ghost predicate Coalesced(chain: seq<Block>) {
    forall i :: 0 <= i < |chain| - 1 ==> chain[i].used || chain[i + 1].used
  }

  /** Headers and data bytes. */
  function Bytes(chain: seq<Block>): nat {
    if chain == [] then 0 else HEADER + chain[0].size + Bytes(chain[1..])
  }

  /** A tiling accounts for every byte from its first header to its end. */
  lemma {:induction false} TilesBytes(chain: seq<Block>, end: nat)
    requires Tiles(chain, end)
    ensures chain[0].addr + Bytes(chain) == end
  {
    if |chain| > 1 {
      assert chain[0].End() == chain[1].addr;
      TilesBytes(chain[1..], end);
    } else {
      assert Bytes(chain[1..]) == 0;
    }
  }

  /** Blocks of a tiling lie one after the other. */
  lemma {:induction false} TilesOrdered(chain: seq<Block>, end: nat, i: nat, j: nat)
    requires Tiles(chain, end) && i < j < |chain|
    ensures chain[i].End() <= chain[j].addr && chain[j].End() <= end
    decreases j - i
  {
    assert chain[i].End() == chain[i + 1].addr;
    TilesInside(chain, end, j);
    if i + 1 < j {
      TilesOrdered(chain, end, i + 1, j);
    }
  }

  lemma {:induction false} TilesInside(chain: seq<Block>, end: nat, i: nat)
    requires Tiles(chain, end) && i < |chain|
    ensures chain[i].End() <= end
    decreases |chain| - i
  {
    if i + 1 < |chain| {
      assert chain[i].End() == chain[i + 1].addr;
      TilesInside(chain, end, i + 1);
    }
  }

  lemma FillsJoin(a: seq<Block>, b: seq<Block>, start: nat, middle: nat, end: nat)
    requires Fills(a, start, middle) && Fills(b, middle, end)
    ensures Fills(a + b, start, end)
  {
    var c := a + b;
    if a != [] && b != [] {
      forall i | 0 <= i < |c| - 1
        ensures c[i].End() == c[i + 1].addr
      {
        if i < |a| - 1 {
          assert c[i] == a[i] && c[i + 1] == a[i + 1];
        } else if i == |a| - 1 {
          assert c[i + 1] == b[0];
        } else {
          assert c[i] == b[i - |a|] && c[i + 1] == b[i - |a| + 1];
        }
      }
    }
  }

  /** Cutting a filled stretch at a block. */
  lemma FillsCut(seg: seq<Block>, start: nat, end: nat, i: nat)
    requires Fills(seg, start, end) && i < |seg|
    ensures Fills(seg[..i], start, seg[i].addr) && Fills(seg[i..], seg[i].addr, end)
    ensures Fills(seg[i + 1..], seg[i].End(), end)
  {
    if i > 0 {
      assert seg[i - 1].End() == seg[i].addr;
    }
    if i + 1 < |seg| {
      assert seg[i].End() == seg[i + 1].addr;
    }
  }

  lemma CoalescedJoin(a: seq<Block>, b: seq<Block>)
    requires Coalesced(a) && Coalesced(b)
    requires a != [] && b != [] ==> a[|a| - 1].used || b[0].used
    ensures Coalesced(a + b)
  {
    var c := a + b;
    forall i | 0 <= i < |c| - 1
      ensures c[i].used || c[i + 1].used
    {
      if i < |a| - 1 {
        assert c[i] == a[i] && c[i + 1] == a[i + 1];
      } else if i >= |a| {
        assert c[i] == b[i - |a|] && c[i + 1] == b[i - |a| + 1];
      }
    }
  }

  // ----- allocation

  /** What is left in front of a block carved out of block `i`, `offset` bytes from its start. */
  function Front(chain: seq<Block>, i: nat, offset: nat): seq<Block>
    requires i < |chain|
  {
    if offset == 0 then chain[..i]
    else if i > 0 then chain[..i - 1] + [chain[i - 1].(size := chain[i - 1].size + offset)]
    else if offset > HEADER then [Block(chain[0].addr, offset - HEADER, false)]
    else []
  }

  /** The carved block, whose data ends at `splitAt`, and what is left behind it. */
  function Carved(b: Block, splitAt: nat, offset: nat, used: bool): (r: seq<Block>)
    requires b.Data() + offset <= splitAt <= b.End()
    ensures |r| > 0
  {
    if b.End() - splitAt > HEADER then
      [Block(b.addr + offset, splitAt - (b.Data() + offset), used), Block(splitAt, b.End() - splitAt - HEADER, false)]
    else
      [Block(b.addr + offset, b.End() - (b.Data() + offset), used)]
  }

  /** `split_block`: the chain with a block carved out of block `i`. */
  function Carve(chain: seq<Block>, i: nat, splitAt: nat, offset: nat, used: bool): seq<Block>
    requires i < |chain| && chain[i].Data() + offset <= splitAt <= chain[i].End()
  {
    Front(chain, i, offset) + Carved(chain[i], splitAt, offset, used) + chain[i + 1..]
  }

  /** The bytes in front of the whole chain that carving drops: too few for a header, and no block in front of them. */
  function Dropped(i: nat, offset: nat): nat {
    if i == 0 && 0 < offset <= HEADER then offset else 0
  }

  lemma CarveTiles(chain: seq<Block>, end: nat, i: nat, splitAt: nat, offset: nat, used: bool)
    requires Tiles(chain, end) && i < |chain| && chain[i].Data() + offset <= splitAt <= chain[i].End()
    ensures Tiles(Carve(chain, i, splitAt, offset, used), end)
    ensures Carve(chain, i, splitAt, offset, used)[0].addr == chain[0].addr + Dropped(i, offset)
  {
    var start := chain[0].addr + Dropped(i, offset);
    var b := chain[i];
    FillsCut(chain, chain[0].addr, end, i);
    FrontFills(chain, end, i, offset);
    var front, carved := Front(chain, i, offset), Carved(b, splitAt, offset, used);
    assert Fills(carved, b.addr + offset, b.End());
    FillsJoin(front, carved, start, b.addr + offset, b.End());
    FillsJoin(front + carved, chain[i + 1..], start, b.End(), end);
  }

  lemma FrontFills(chain: seq<Block>, end: nat, i: nat, offset: nat)
    requires Tiles(chain, end) && i < |chain|
    ensures Fills(Front(chain, i, offset), chain[0].addr + Dropped(i, offset), chain[i].addr + offset)
  {
    FillsCut(chain, chain[0].addr, end, i);
    if offset > 0 && i > 0 {
      FillsCut(chain, chain[0].addr, end, i - 1);
      var p := chain[i - 1].(size := chain[i - 1].size + offset);
      assert chain[i - 1].End() == chain[i].addr;
      FillsJoin(chain[..i - 1], [p], chain[0].addr, p.addr, p.End());
    }
  }

  /** Allocation keeps the chain coalesced. */
  lemma CarveCoalesced(chain: seq<Block>, i: nat, splitAt: nat, offset: nat)
    requires Coalesced(chain) && i < |chain| && !chain[i].used && chain[i].Data() + offset <= splitAt <= chain[i].End()
    ensures Coalesced(Carve(chain, i, splitAt, offset, true))
  {
    var front, carved := Front(chain, i, offset), Carved(chain[i], splitAt, offset, true);
    if offset > 0 && i > 0 {
      var p := chain[i - 1].(size := chain[i - 1].size + offset);
      assert chain[i - 1].used;
      CoalescedJoin(chain[..i - 1], [p]);
    }
    assert i + 1 < |chain| ==> chain[i].used || chain[i + 1].used;
    CoalescedJoin(front, carved);
    CoalescedJoin(front + carved, chain[i + 1..]);
  }

  /**
   A caller has `size` bytes at `r`, of a free block that ended at `end`: what is behind them is a free block if it has
   room for more than a header, and otherwise is the caller's too.
   */
  predicate TailCut(chain: seq<Block>, r: nat, size: nat, end: nat)
    requires HEADER <= r && r + size <= end
  {
    if end - (r + size) > HEADER then
      Block(r - HEADER, size, true) in chain && Block(r + size, end - (r + size) - HEADER, false) in chain
    else Block(r - HEADER, end - r, true) in chain
  }

  /** Carving cuts the tail off like that, and what the caller gets exceeds what is asked for by a header at most. */
  lemma CarveCutsTail(chain: seq<Block>, i: nat, size: nat, offset: nat)
    requires i < |chain| && chain[i].Data() + offset + size <= chain[i].End()
    ensures var r := chain[i].Data() + offset;
            var c := Carve(chain, i, r + size, offset, true);
            && TailCut(c, r, size, chain[i].End())
            && exists b :: b in c && b.used && b.Data() == r && size <= b.size <= size + HEADER
  {
    var r := chain[i].Data() + offset;
    var front, carved := Front(chain, i, offset), Carved(chain[i], r + size, offset, true);
    var c := front + carved + chain[i + 1..];
    assert c[|front|] == carved[0] && carved[0].used && carved[0].Data() == r;
    if chain[i].End() - (r + size) > HEADER {
      assert c[|front| + 1] == carved[1];
    }
  }

  // ----- release

  /** `merge_blocks`: block `i` takes in the block behind it. */
  function MergeAt(chain: seq<Block>, i: nat): seq<Block>
    requires i + 1 < |chain|
  {
    chain[..i] + [chain[i].(size := chain[i].size + chain[i + 1].size + HEADER)] + chain[i + 2..]
  }

  /** `kfree`: block `i` becomes free and merges with free neighbours, the left one first. */
  function Release(chain: seq<Block>, i: nat): seq<Block>
    requires i < |chain|
  {
    var freed := chain[i := chain[i].(used := false)];
    if i > 0 && !chain[i - 1].used then MergeRight(MergeAt(freed, i - 1), i - 1) else MergeRight(freed, i)
  }

  function MergeRight(chain: seq<Block>, i: nat): seq<Block>
    requires i < |chain|
  {
    if i + 1 < |chain| && !chain[i + 1].used then MergeAt(chain, i) else chain
  }

  lemma MergeTiles(chain: seq<Block>, end: nat, i: nat)
    requires Tiles(chain, end) && i + 1 < |chain|
    ensures Tiles(MergeAt(chain, i), end) && MergeAt(chain, i)[0].addr == chain[0].addr
  {
    var start := chain[0].addr;
    var b := chain[i].(size := chain[i].size + chain[i + 1].size + HEADER);
    FillsCut(chain, start, end, i);
    FillsCut(chain, start, end, i + 1);
    assert chain[i].End() == chain[i + 1].addr;
    FillsMerged(chain[..i], b, chain[i + 2..], start, end);
  }

  lemma FillsMerged(a: seq<Block>, b: Block, c: seq<Block>, start: nat, end: nat)
    requires Fills(a, start, b.addr) && Fills(c, b.End(), end)
    ensures Tiles(a + [b] + c, end) && (a + [b] + c)[0].addr == start
  {
    FillsJoin(a, [b], start, b.addr, b.End());
    FillsJoin(a + [b], c, start, b.End(), end);
  }

  lemma ReleaseTiles(chain: seq<Block>, end: nat, i: nat)
    requires Tiles(chain, end) && i < |chain|
    ensures Tiles(Release(chain, i), end) && Release(chain, i)[0].addr == chain[0].addr
  {
    var freed := chain[i := chain[i].(used := false)];
    assert Tiles(freed, end);
    if i > 0 && !chain[i - 1].used {
      MergeTiles(freed, end, i - 1);
      if i < |MergeAt(freed, i - 1)| {
        MergeTiles(MergeAt(freed, i - 1), end, i - 1);
      }
    } else if i + 1 < |chain| {
      MergeTiles(freed, end, i);
    }
  }

  /** Every neighbouring pair that does not contain block `i` has a used block. */
  ghost predicate CoalescedBut(chain: seq<Block>, i: nat) {
    forall j :: 0 <= j < |chain| - 1 && j != i && j + 1 != i ==> chain[j].used || chain[j + 1].used
  }

  /** Release keeps the chain coalesced. */
  lemma ReleaseCoalesced(chain: seq<Block>, i: nat)
    requires Coalesced(chain) && i < |chain|
    ensures Coalesced(Release(chain, i))
  {
    var freed := chain[i := chain[i].(used := false)];
    assert CoalescedBut(freed, i);
    if i > 0 && !chain[i - 1].used {
      var merged := MergeAt(freed, i - 1);
      assert i >= 2 ==> chain[i - 2].used;
      MergeLeftCoalesced(freed, i - 1);
      MergeRightCoalesced(merged, i - 1);
    } else {
      MergeRightCoalesced(freed, i);
    }
  }

  lemma MergeLeftCoalesced(chain: seq<Block>, i: nat)
    requires CoalescedBut(chain, i + 1) && i + 1 < |chain| && (i > 0 ==> chain[i - 1].used)
    ensures CoalescedBut(MergeAt(chain, i), i) && (i > 0 ==> MergeAt(chain, i)[i - 1].used)
  {
    var m := MergeAt(chain, i);
    forall j | 0 <= j < |m| - 1 && j != i && j + 1 != i
      ensures m[j].used || m[j + 1].used
    {
      if j < i {
        assert chain[j].used || chain[j + 1].used;
      } else {
        assert chain[j + 1].used || chain[j + 2].used;
      }
    }
  }

  lemma MergeRightCoalesced(chain: seq<Block>, i: nat)
    requires CoalescedBut(chain, i) && i < |chain| && (i > 0 ==> chain[i - 1].used)
    requires i + 2 < |chain| ==> chain[i + 1].used || chain[i + 2].used
    ensures Coalesced(MergeRight(chain, i))
  {
    var m := MergeRight(chain, i);
    forall j | 0 <= j < |m| - 1
      ensures m[j].used || m[j + 1].used
    {
      if j < i - 1 {
        assert chain[j].used || chain[j + 1].used;
      } else if j > i {
        if |m| == |chain| {
          assert chain[j].used || chain[j + 1].used;
        } else {
          assert chain[j + 1].used || chain[j + 2].used;
        }
      }
    }
  }

  // ----- what the operations do to the other blocks

  /** Allocation leaves every other used block where it is; only the block in front may grow, by `offset`. */
  lemma CarveKeepsUsed(chain: seq<Block>, i: nat, splitAt: nat, offset: nat, j: nat)
    requires i < |chain| && !chain[i].used && chain[i].Data() + offset <= splitAt <= chain[i].End()
    requires j < |chain| && j != i && chain[j].used
    ensures (if j == i - 1 then chain[j].(size := chain[j].size + offset) else chain[j]) in Carve(chain, i, splitAt,
            offset, true)
  {
    var front, carved := Front(chain, i, offset), Carved(chain[i], splitAt, offset, true);
    var c := front + carved + chain[i + 1..];
    if j > i {
      assert c[|front| + |carved| + (j - i - 1)] == chain[j];
    } else {
      assert c[j] == front[j];
    }
  }

  /** And adds no used block but the carved one. */
  lemma CarveAddsOne(chain: seq<Block>, i: nat, splitAt: nat, offset: nat, b: Block)
    requires i < |chain| && !chain[i].used && chain[i].Data() + offset <= splitAt <= chain[i].End()
    requires b in Carve(chain, i, splitAt, offset, true) && b.used
    ensures b == Carved(chain[i], splitAt, offset, true)[0] || b in chain
            || (i > 0 && b == chain[i - 1].(size := chain[i - 1].size + offset))
  {
  }

  /** Release leaves every other used block exactly as it is, and frees the released one. */
  lemma ReleaseKeepsUsed(chain: seq<Block>, end: nat, i: nat, b: Block)
    requires Tiles(chain, end) && i < |chain| && b.used
    ensures b in Release(chain, i) <==> b in chain && b != chain[i]
  {
    var freed := chain[i := chain[i].(used := false)];
    Others(chain, end, i);
    assert b in freed <==> b in chain && b != chain[i] by {
      if b in chain && b != chain[i] {
        var j :| 0 <= j < |chain| && chain[j] == b;
        assert freed[j] == b;
      }
    }
    if i > 0 && !chain[i - 1].used {
      MergeKeepsUsed(freed, i - 1, b);
      if i < |MergeAt(freed, i - 1)| && !MergeAt(freed, i - 1)[i].used {
        MergeKeepsUsed(MergeAt(freed, i - 1), i - 1, b);
      }
    } else if i + 1 < |chain| && !chain[i + 1].used {
      MergeKeepsUsed(freed, i, b);
    }
  }

  lemma Others(chain: seq<Block>, end: nat, i: nat)
    requires Tiles(chain, end) && i < |chain|
    ensures forall j :: 0 <= j < |chain| && j != i ==> chain[j] != chain[i]
  {
    forall j | 0 <= j < |chain| && j != i
      ensures chain[j] != chain[i]
    {
      if j < i {
        TilesOrdered(chain, end, j, i);
      } else {
        TilesOrdered(chain, end, i, j);
      }
    }
  }

  lemma MergeKeepsUsed(chain: seq<Block>, i: nat, b: Block)
    requires i + 1 < |chain| && !chain[i].used && !chain[i + 1].used && b.used
    ensures b in MergeAt(chain, i) <==> b in chain
  {
    var m := MergeAt(chain, i);
    if b in chain {
      var j :| 0 <= j < |chain| && chain[j] == b;
      assert b == m[if j < i then j else j - 1];
    }
  }

  /** A released block is still a block exactly if it was not merged into a free one in front of it. */
  lemma ReleasedIsBlockIff(chain: seq<Block>, end: nat, i: nat)
    requires Tiles(chain, end) && i < |chain|
    ensures (exists b :: b in Release(chain, i) && b.addr == chain[i].addr) <==> i == 0 || chain[i - 1].used
  {
    var released := Release(chain, i);
    if i == 0 || chain[i - 1].used {
      assert released[i].addr == chain[i].addr;
    } else {
      forall k | 0 <= k < |released|
        ensures released[k].addr != chain[i].addr
      {
        var j := if k < i then k else k + |chain| - |released|;
        assert released[k].addr == chain[j].addr && j != i;
        if j < i {
          TilesOrdered(chain, end, j, i);
        } else {
          TilesOrdered(chain, end, i, j);
        }
      }
    }
  }

  // ----- does release undo allocation?

  lemma MergeRightAt(front: seq<Block>, x: Block, rest: seq<Block>)
    ensures MergeRight(front + [x] + rest, |front|) ==
            if rest != [] && !rest[0].used then front + [x.(size := x.size + rest[0].size + HEADER)] + rest[1..]
            else front + [x] + rest
  {
    var c := front + [x] + rest;
    if rest != [] {
      assert c[|front| + 1] == rest[0];
      assert c[|front| + 2..] == rest[1..];
    }
    assert c[..|front|] == front;
  }

  /** Releasing a carved block without a free block in front of it leaves one free block up to its old end. */
  lemma ReleaseCarved(front: seq<Block>, b: Block, post: seq<Block>, splitAt: nat, offset: nat)
    requires b.Data() + offset <= splitAt <= b.End()
    requires front != [] ==> front[|front| - 1].used
    requires post != [] ==> post[0].used
    ensures Release(front + Carved(b, splitAt, offset, true) + post, |front|) ==
            front + [Block(b.addr + offset, b.End() - (b.Data() + offset), false)] + post
  {
    var carved := Carved(b, splitAt, offset, true);
    var c := front + carved + post;
    var x := carved[0].(used := false);
    var rest := carved[1..] + post;
    assert c[|front|] == carved[0];
    assert c[|front| := x] == front + [x] + rest;
    MergeRightAt(front, x, rest);
    if |carved| == 2 {
      assert rest[1..] == post;
    } else {
      assert rest == post;
    }
    assert front != [] ==> c[|front| - 1] == front[|front| - 1];
  }

  /** Releasing a block with a free block in front of it. */
  lemma ReleaseSecond(gap: Block, y: Block, rest: seq<Block>)
    requires !gap.used
    ensures Release([gap, y] + rest, 1) == MergeRight([gap.(size := gap.size + y.size + HEADER)] + rest, 0)
  {
    var x := y.(used := false);
    var c := [gap, y] + rest;
    assert c[1 := c[1].(used := false)] == [gap, x] + rest;
    assert ([gap, x] + rest)[2..] == rest;
    assert ([gap, x] + rest)[..0] == [];
    assert MergeAt([gap, x] + rest, 0) == [gap.(size := gap.size + y.size + HEADER)] + rest;
  }

  lemma ReleaseBehindGap(gap: Block, b: Block, post: seq<Block>, splitAt: nat, offset: nat)
    requires b.Data() + offset <= splitAt <= b.End() && !gap.used
    requires post != [] ==> post[0].used
    ensures Release([gap] + Carved(b, splitAt, offset, true) + post, 1) ==
            [gap.(size := gap.size + HEADER + b.End() - (b.Data() + offset))] + post
  {
    hide Release, MergeRight;
    var carved := Carved(b, splitAt, offset, true);
    var y, rest := carved[0], carved[1..] + post;
    var g := gap.(size := gap.size + y.size + HEADER);
    assert [gap] + carved + post == [gap, y] + rest;
    ReleaseSecond(gap, y, rest);
    MergeRightAt([], g, rest);
    assert [] + [g] + rest == [g] + rest;
    if |carved| == 2 {
      assert rest[1..] == post;
    } else {
      assert rest == post;
    }
  }

  /**
   Releasing a block right after it was carved out of a free block restores the chain exactly when nothing
   was given away in front of it: no offset, or an offset that became a free block of its own.
   */
  lemma FreeUndoesAllocIff(chain: seq<Block>, end: nat, i: nat, splitAt: nat, offset: nat)
    requires Tiles(chain, end) && Coalesced(chain) && i < |chain| && !chain[i].used
    requires chain[i].Data() + offset <= splitAt <= chain[i].End()
    ensures |Front(chain, i, offset)| < |Carve(chain, i, splitAt, offset, true)|
    ensures Release(Carve(chain, i, splitAt, offset, true), |Front(chain, i, offset)|) == chain <==>
            offset == 0 || (i == 0 && offset > HEADER)
  {
    hide Release, Carved;
    var b, post := chain[i], chain[i + 1..];
    var front := Front(chain, i, offset);
    assert Coalesced(chain) && i > 0 ==> chain[i - 1].used;
    assert i + 1 < |chain| ==> chain[i].used || chain[i + 1].used;
    if i == 0 && offset > HEADER {
      ReleaseBehindGap(front[0], b, post, splitAt, offset);
      assert chain == [b] + post;
    } else {
      assert front != [] ==> front[|front| - 1].used;
      ReleaseCarved(front, b, post, splitAt, offset);
      var x := Block(b.addr + offset, b.End() - (b.Data() + offset), false);
      var result := front + [x] + post;
      if offset == 0 {
        assert x == b;
        assert chain == chain[..i] + [b] + post;
      } else if i == 0 {
        assert result[0] == x;
      } else {
        assert result[i - 1] == front[i - 1];
      }
    }
  }

  // ----- where a block fits

  /** Free block `b` can hold `size` bytes at an aligned place. */
  predicate Fits(b: Block, size: nat, alignment: nat) {
    && !b.used && size <= b.size
    && (alignment == 1
        || (b.Data() <= Place(b.Data(), alignment) < b.End() && Place(b.Data(), alignment) + size <= b.End()))
  }

  /** The first block that fits, or the length of the chain. */
  function FirstFit(chain: seq<Block>, size: nat, alignment: nat): (i: nat)
    ensures i <= |chain| && forall j :: 0 <= j < i ==> !Fits(chain[j], size, alignment)
    ensures i < |chain| ==> Fits(chain[i], size, alignment)
  {
    if chain == [] || Fits(chain[0], size, alignment) then 0 else 1 + FirstFit(chain[1..], size, alignment)
  }

  /** Lines 31-35. */
  function AlignedAt(data: nat, alignment: nat): nat {
    var down := AlignDown(data, alignment);
    if down != data then AlignDown((data + alignment) % WORD, alignment) else down
  }

  /** `align_block`, with its 32-bit sum: the end of `size` aligned bytes in `b`, or 0. */
  function AlignBlock(b: Block, size: nat, alignment: nat): nat {
    var alignedAt := AlignedAt(b.Data(), alignment);
    if alignedAt >= b.End() then 0
    else if b.End() - alignedAt < size then 0
    else alignedAt + size
  }

  /** What `align_block` is meant to compute. */
  function AlignedEnd(b: Block, size: nat, alignment: nat): nat {
    var at := Place(b.Data(), alignment);
    if b.Data() <= at < b.End() && at + size <= b.End() then at + size else 0
  }

  /** The alignment is 0, or the sum for data that is not aligned leaves 32 bits. */
  predicate LeavesWord(data: nat, alignment: nat) {
    alignment == 0 || (AlignDown(data, alignment) != data && data + alignment >= WORD)
  }

  /** Only then a place in front of the data is computed. */
  lemma LeavesWordIff(data: nat, alignment: nat)
    requires 0 < data < WORD && alignment < WORD
    ensures LeavesWord(data, alignment) <==> AlignedAt(data, alignment) < data
    ensures LeavesWord(data, alignment) ==>
              && AlignedAt(data, alignment) == AlignDown((data + alignment) % WORD, alignment)
              && (alignment > 0 ==> Place(data, alignment) >= WORD)
              && (alignment == 0 ==> Place(data, alignment) == 0)
    ensures !LeavesWord(data, alignment) ==> AlignedAt(data, alignment) == Place(data, alignment)
  {
    hide AlignDown;
    if alignment == 0 {
      MaskOfZero(data);
    } else if LeavesWord(data, alignment) {
      AlignDownHigh(data + alignment, alignment);
      Wrap(data + alignment);
    } else if AlignDown(data, alignment) != data {
      assert (data + alignment) % WORD == data + alignment;
    }
  }

  lemma Wrap(x: nat)
    requires WORD <= x < 2 * WORD
    ensures x % WORD == x - WORD
  {
  }

  /** `align_block` is right exactly when this does not happen, or it answers 0 all the same. */
  lemma AlignBlockExact(b: Block, size: nat, alignment: nat)
    requires alignment < WORD && b.End() < WORD && size <= b.size
    ensures AlignBlock(b, size, alignment) == AlignedEnd(b, size, alignment) <==>
            !LeavesWord(b.Data(), alignment)
            || size + AlignDown((b.Data() + alignment) % WORD, alignment) == 0
  {
    hide AlignDown, Place, AlignedAt, LeavesWord;
    LeavesWordIff(b.Data(), alignment);
    if 0 < alignment && !LeavesWord(b.Data(), alignment) {
      assert Place(b.Data(), alignment) >= b.Data();
    }
  }

  /** Free block `b` is large enough, but a place in front of its data is computed. */
  predicate Wraps(b: Block, size: nat, alignment: nat) {
    && !b.used && size <= b.size && alignment != 1 && LeavesWord(b.Data(), alignment)
    && size + AlignDown((b.Data() + alignment) % WORD, alignment) > 0
  }

  /** For a power of two that is the place at address 0, and some bytes are wanted. */
  lemma WrapsPower(b: Block, size: nat, alignment: nat)
    requires PowerOfTwo(alignment) && 0 < alignment < WORD && b.End() < WORD
    ensures Wraps(b, size, alignment) <==>
            && !b.used && 0 < size <= b.size
            && b.Data() % alignment != 0 && b.Data() + alignment >= WORD
    ensures Wraps(b, size, alignment) ==> AlignBlock(b, size, alignment) == size
  {
    hide AlignDown, PowerOfTwo, Place;
    MaskRoundsIff(alignment);
    var data := b.Data();
    assert AlignDown(data, alignment) == RoundDown(data, alignment);
    if data % alignment != 0 && data + alignment >= WORD {
      Wrap(data + alignment);
      LeavesWordIff(data, alignment);
      PowerBelowWord(data, alignment);
      assert AlignDown(data + alignment - WORD, alignment) == RoundDown(data + alignment - WORD, alignment) == 0;
    }
  }

  /** One alignment step from an address in a word leads less than one step past it. */
  lemma PowerBelowWord(data: nat, alignment: nat)
    requires 0 < alignment && data < WORD <= data + alignment
    ensures (data + alignment - WORD) % alignment == data + alignment - WORD
  {
    Remainder(0, data + alignment - WORD, alignment);
  }

  /** Then `align_block` answers with a place in front of the block's data. */
  lemma WrappedAnswer(b: Block, size: nat, alignment: nat)
    requires alignment < WORD && b.End() < WORD && Wraps(b, size, alignment)
    ensures 0 < AlignBlock(b, size, alignment) < b.Data() + size
    ensures AlignBlock(b, size, alignment) == AlignedAt(b.Data(), alignment) + size && !Fits(b, size, alignment)
  {
    hide AlignDown, Place, AlignedAt, LeavesWord;
    LeavesWordIff(b.Data(), alignment);
  }

  /** A walk meets such a block before any block that fits. */
  ghost predicate WrapsFirst(chain: seq<Block>, size: nat, alignment: nat) {
    exists k :: 0 <= k < FirstFit(chain, size, alignment) && Wraps(chain[k], size, alignment)
  }
}
