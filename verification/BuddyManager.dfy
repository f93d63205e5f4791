/**
 The buddy frame allocator of kernel/memory/BuddyManager.cpp and .hpp.
 */
module BuddyManagers {
  import opened Bitmaps
  import opened BuddyBlocks
  import opened BuddyLists
  import opened BuddyRange
  import opened BuddyTree
  import opened CMath
  import opened Options
  import opened Orders
  import opened Seqs

  class BuddyManager {
    const frameCount: nat
    const maxOrder: nat
    const bitmap: array<uint32>
    const frames: array<Option<FrameChunk>>
    const orderMap: array<seq<FrameChunk>>

    /** The tree nodes of the blocks on the free lists. */
    ghost var free: set<nat>
    /** The tree nodes of the blocks that were taken off the free lists and not given back. */
    ghost var live: set<nat>

    ghost predicate Shape() {
      && frameCount == Pow2(maxOrder)
      && frames.Length == frameCount
      && orderMap.Length == maxOrder + 1
      && frameCount <= 4 * bitmap.Length
    }

    /** Everything but the bitmap. */
    ghost predicate Structure()
      reads this, frames, orderMap
    {
      Shape() && Structured(orderMap[..], frames[..], free, live, maxOrder)
    }

    ghost predicate Valid()
      reads this, bitmap, frames, orderMap
    {
      Structure() && BitsOk(bitmap[..], free, frameCount)
    }

    ghost function FreeFrames(): set<nat>
      reads this
    {
      Frames(free, frameCount)
    }

    /** The frames of free and of lent blocks: all that was ever handed in. */
    ghost function Managed(): set<nat>
      reads this
    {
      Frames(free, frameCount) + Frames(live, frameCount)
    }

    /**
     The constructor.  The manager is valid exactly for powers of two; for other sizes bit_index does not
     pair buddies (BuddyNumbering.PairsBuddiesIff).  The bitmap is taken to start zeroed.
     */
    constructor (frameCount: nat)
      ensures this.frameCount == frameCount && maxOrder == CeilOrder(frameCount)
      ensures Valid() <==> frameCount == Pow2(CeilOrder(frameCount))
      ensures free == {} && live == {} && fresh(bitmap) && fresh(frames) && fresh(orderMap)
      ensures frames.Length == frameCount && forall f :: 0 <= f < frameCount ==> frames[f].None?
      ensures orderMap.Length == maxOrder + 1 && forall k :: 0 <= k <= maxOrder ==> orderMap[k] == []
      ensures forall p: nat :: !BitSet(bitmap[..], p)
    {
      this.frameCount := frameCount;
      maxOrder := CeilOrder(frameCount);
      orderMap := new seq<FrameChunk>[CeilOrder(frameCount) + 1](_ => []);
      bitmap := new uint32[CeilDivide(Pow2(CeilOrder(frameCount)), 4)](_ => 0);
      frames := new Option<FrameChunk>[frameCount](_ => None);
      free, live := {}, {};
      new;
      hide Structured, BitsOk, BitSet, CeilOrder, CeilDivide;
      NoBits(bitmap[..]);
      if frameCount == Pow2(maxOrder) {
        NothingYet(orderMap[..], frames[..], bitmap[..], maxOrder);
      }
      CeilDivideLeast(Pow2(maxOrder), 4, bitmap.Length);
    }

    ghost predicate InHand(a: nat, c: FrameChunk)
      reads this, frames, orderMap
    {
      Shape() && Held(orderMap[..], frames[..], free, live, maxOrder, a, c)
    }

    ghost predicate OnList(a: nat, c: FrameChunk)
      reads this, frames, orderMap
    {
      Shape() && Listed(orderMap[..], frames[..], free, live, maxOrder, a, c)
    }

    // ----- the bitmap

    method GetBit(index: nat) returns (bit: bool)
      requires index / 32 < bitmap.Length
      ensures bit == BitSet(bitmap[..], index)
    {
      bit := TestBit(bitmap[index / 32], index % 32);
    }

    method SetBit(index: nat)
      requires index / 32 < bitmap.Length
      modifies bitmap
      ensures forall p: nat :: BitSet(bitmap[..], p) <==> p == index || BitSet(old(bitmap[..]), p)
    {
      ghost var w := bitmap[index / 32];
      WordSize();
      BitsStayInWord(w, index % 32, 32);
      bitmap[index / 32] := OrBit(bitmap[index / 32], index % 32);
      forall p: nat
        ensures BitSet(bitmap[..], p) <==> p == index || BitSet(old(bitmap[..]), p)
      {
        OrBitTest(w, index % 32, p % 32);
      }
    }

    method ClearBit(index: nat)
      requires index / 32 < bitmap.Length
      modifies bitmap
      ensures forall p: nat :: BitSet(bitmap[..], p) <==> p != index && BitSet(old(bitmap[..]), p)
    {
      ghost var w := bitmap[index / 32];
      WordSize();
      BitsStayInWord(w, index % 32, 32);
      bitmap[index / 32] := AndNotBit(bitmap[index / 32], index % 32);
      forall p: nat
        ensures BitSet(bitmap[..], p) <==> p != index && BitSet(old(bitmap[..]), p)
      {
        AndNotBitTest(w, index % 32, p % 32);
      }
    }

    /** Every pair's bit lies in the bitmap. */
    lemma BitInRange(a: nat, c: FrameChunk)
      requires Shape() && IsNode(a, c.start, c.order, maxOrder)
      ensures BitIndex(frameCount, c.start, c.order) == a / 2 < frameCount
      ensures a / 2 / 32 < bitmap.Length
    {
      BitIndexIsParent(a, c.start, c.order, maxOrder);
      NodeInRange(a, c.start, c.order, maxOrder);
    }

    // ----- freeing

    /** `free_pages`, lines 79-82: a block whose buddy is not free joins its list. */
    method Insert(ghost a: nat, c: FrameChunk, index: nat)
      requires InHand(a, c) && BitsOk(bitmap[..], free, frameCount) && index == a / 2
      requires !BitSet(bitmap[..], index)
      modifies this`free, frames, orderMap, bitmap
      ensures Valid() && free == old(free) + {a}
      ensures FreeFrames() == old(FreeFrames()) + FramesOf(a, frameCount)
      ensures BitSet(bitmap[..], 0) <==> BitSet(old(bitmap[..]), 0) || a == 1
      ensures orderMap[..] == old(orderMap[..])[c.order := old(orderMap[c.order]) + [c]]
    {
      BitInRange(a, c);
      InHandRange(a, c);
      PairDecides(bitmap[..], free, frameCount, a);
      InsertStep(orderMap[..], frames[..], free, live, maxOrder, a, c);
      SetBit(index);
      BitsAfterPut(old(bitmap[..]), bitmap[..], free, frameCount, a);
      orderMap[c.order] := orderMap[c.order] + [c];
      frames[c.start] := Some(c);
      free := free + {a};
      assert orderMap[..] == old(orderMap[..])[c.order := old(orderMap[c.order]) + [c]];
      assert frames[..] == old(frames[..])[c.start := Some(c)];
    }

    /** `free_pages`, lines 84-103: one merge of the block in hand with its free buddy. */
    method MergeWithBuddy(ghost a: nat, chunkStart: nat, order: nat, newChunk: FrameChunk, curBit: nat)
      returns (merged: FrameChunk)
      requires InHand(a, newChunk) && BitsOk(bitmap[..], free, frameCount)
      requires newChunk == FrameChunk(chunkStart, order) && curBit == a / 2 && a > 1 && BitSet(bitmap[..], curBit)
      modifies this`free, frames, orderMap, bitmap
      ensures InHand(a / 2, merged) && BitsOk(bitmap[..], free, frameCount)
      ensures BitSet(bitmap[..], 0) == BitSet(old(bitmap[..]), 0)
      ensures merged == WithMate(newChunk)
      ensures Mate(newChunk) in old(orderMap[order])
      ensures orderMap[..] == old(orderMap[..])[order := Without(old(orderMap[order]), Mate(newChunk))]
      ensures FreeFrames() + FramesOf(a / 2, frameCount) == old(FreeFrames()) + FramesOf(a, frameCount)
    {
      hide Held, Without, BitSet, IsNode, Mate, WithMate;
      ghost var b := Buddy(a);
      BuddyListed(a, newChunk);
      InHandRange(a, newChunk);
      BitInRange(a, newChunk);
      PairDecides(bitmap[..], free, frameCount, a);
      PairStart(a, newChunk, maxOrder);
      ClearBit(curBit);
      BitsAfterTake(old(bitmap[..]), bitmap[..], free, frameCount, b);
      MergeFrames(a, newChunk);
      var buddyStart := ShiftLeft(curBit, order + 1) - frameCount;
      var buddy;
      if buddyStart == chunkStart {
        buddyStart := buddyStart + Pow2(order);
        MergeLeft(orderMap[..], frames[..], free, live, maxOrder, a / 2, newChunk, FrameChunk(buddyStart, order));
        buddy := frames[buddyStart].value;
        frames[buddyStart] := None;
        merged := newChunk;
      } else {
        MergeRight(orderMap[..], frames[..], free, live, maxOrder, a / 2, newChunk, FrameChunk(buddyStart, order));
        frames[chunkStart] := None;
        merged := frames[buddyStart].value;
        buddy := merged;
      }
      orderMap[buddy.order] := Without(orderMap[buddy.order], buddy);
      assert orderMap[..] == old(orderMap[..])[buddy.order := Without(old(orderMap[buddy.order]), buddy)];
      merged := merged.(order := merged.order + 1);
      free := free - {b};
    }

    /** The buddy of the block in hand is on its list exactly if it is free. */
    lemma BuddyListed(a: nat, c: FrameChunk)
      requires InHand(a, c) && a > 1
      ensures c.order < maxOrder && (Mate(c) in orderMap[c.order] <==> Buddy(a) in free)
      ensures Mate(c).order == c.order && WithMate(c).order == c.order + 1
      ensures Mate(c).start == if a % 2 == 0 then c.start + Pow2(c.order) else c.start - Pow2(c.order)
      ensures WithMate(c).start == if a % 2 == 0 then c.start else Mate(c).start
    {
      MateIsBuddy(orderMap[..], free, maxOrder, a, c);
      MateNode(a, c, maxOrder);
      PairStart(a, c, maxOrder);
    }

    lemma InHandRange(a: nat, c: FrameChunk)
      requires InHand(a, c)
      ensures 0 < a < 2 * frameCount && a !in free && InTree(free, maxOrder) && Proper(free, frameCount)
      ensures c.order <= maxOrder && (c.order == maxOrder <==> a == 1)
      ensures IsNode(a, c.start, c.order, maxOrder)
    {
      NodeInRange(a, c.start, c.order, maxOrder);
    }

    lemma MergeFrames(a: nat, c: FrameChunk)
      requires InHand(a, c) && a > 1 && Buddy(a) in free
      ensures Frames(free - {Buddy(a)}, frameCount) + FramesOf(a / 2, frameCount) == FreeFrames() + FramesOf(a,
              frameCount)
    {
      HandMerge(free, live, frameCount, a);
    }

    lemma GiveBack(a: nat, c: FrameChunk)
      requires Structure() && a in live && IsNode(a, c.start, c.order, maxOrder)
      ensures Held(orderMap[..], frames[..], free, live - {a}, maxOrder, a, c)
      ensures Frames(live - {a}, frameCount) + FramesOf(a, frameCount) == Frames(live, frameCount)
    {
      TakeBack(orderMap[..], frames[..], free, live, maxOrder, a, c);
      ReturnFrames(free, live, frameCount, a);
    }

    /** The frames of a chunk that names a block. */
    lemma ChunkFrames(c: FrameChunk)
      requires Shape() && IsNode(NodeOf(c, maxOrder), c.start, c.order, maxOrder)
      ensures FramesOf(NodeOf(c, maxOrder), frameCount) == Interval(c.start, c.order)
    {
      NodeFrames(NodeOf(c, maxOrder), c.start, c.order, maxOrder);
    }

    /**
     `free_pages`, line by line.  Bit 0 belongs to no pair: it is set when all of memory becomes one free block, and
     nothing clears it.  When all of memory becomes free again, `buddy_start` is less than zero and lines 95-96
     reach outside `frames`; that is what `outside` says, and the model stops there.
     */
    method FreePages(grp: FrameChunk) returns (outside: bool)
      requires Valid() && Named(live, grp, maxOrder)
      modifies this, frames, orderMap, bitmap
      ensures outside <==>
                BitSet(old(bitmap[..]), 0)
                    && old(FreeFrames()) + Interval(grp.start, grp.order) == Interval(0, maxOrder)
      ensures !outside ==>
                && Valid()
                && FreeFrames() == old(FreeFrames()) + Interval(grp.start, grp.order)
                && live == old(live) - {NodeOf(grp, maxOrder)}
                && Managed() == old(Managed())
                && (BitSet(bitmap[..], 0) <==> BitSet(old(bitmap[..]), 0) || FreeFrames() == Interval(0, maxOrder))
      ensures grp.order <= maxOrder
      ensures !outside ==>
                && orderMap[..] == FreedLists(old(orderMap[..]), grp)
                && exists e :: EndsCascade(old(orderMap[..]), orderMap[..], grp, e)
      ensures !outside && !BitSet(old(bitmap[..]), BitIndex(frameCount, grp.start, grp.order)) ==>
                && Choice(grp.order) == Some(grp)
                && orderMap[..] == old(orderMap[..])[grp.order := old(orderMap[grp.order]) + [grp]]
    {
      hide ListsOk, SlotsName, SlotsFresh, IsNode, BitsOk, Interval, BuddyTree.Hand, BuddyTree.Separate, FreedLists,
           EndsCascade;
      var chunkStart, order, newChunk := grp.start, grp.order, grp;
      ghost var a := NodeOf(grp, maxOrder);
      ghost var all := FreeFrames() + Interval(grp.start, grp.order);
      outside := false;
      ChunkFrames(grp);
      GiveBack(a, grp);
      live := live - {a};
      InHandRange(a, grp);
      ghost var e := FreedEnds(orderMap[..], grp);
      while order <= maxOrder
        invariant InHand(a, newChunk) && BitsOk(bitmap[..], free, frameCount)
        invariant newChunk == FrameChunk(chunkStart, order)
        invariant FreeFrames() + FramesOf(a, frameCount) == all
        invariant BitSet(bitmap[..], 0) == BitSet(old(bitmap[..]), 0)
        invariant live == old(live) - {NodeOf(grp, maxOrder)}
        invariant newChunk.order <= maxOrder
        invariant FreedLists(orderMap[..], newChunk) == FreedLists(old(orderMap[..]), grp)
        invariant newChunk == grp ==> bitmap[..] == old(bitmap[..]) && orderMap[..] == old(orderMap[..])
        invariant newChunk != grp ==> BitSet(old(bitmap[..]), BitIndex(frameCount, grp.start, grp.order))
      {
        BitInRange(a, newChunk);
        InHandRange(a, newChunk);
        var curBit := BitIndex(frameCount, chunkStart, order);
        var canMerge := GetBit(curBit);
        RootIsAll(a);
        if !canMerge {
          CascadeStops(a, newChunk);
          Insert(a, newChunk, curBit);
          AllIsRoot(a);
          return;
        }
        BelowZeroIff(a, newChunk);
        if ShiftLeft(curBit, order + 1) < frameCount {
          ClearBit(curBit);
          outside := true;
          return;
        }
        CascadeGoesOn(a, newChunk);
        newChunk := MergeWithBuddy(a, chunkStart, order, newChunk, curBit);
        InHandRange(a / 2, newChunk);
        chunkStart := newChunk.start;
        order := order + 1;
        a := a / 2;
      }
      InHandRange(a, newChunk);
    }

    /** A clear bit ends the cascade ... */
    lemma CascadeStops(a: nat, c: FrameChunk)
      requires InHand(a, c) && BitsOk(bitmap[..], free, frameCount) && !BitSet(bitmap[..], a / 2)
      ensures c.order <= maxOrder
      ensures FreedLists(orderMap[..], c) == orderMap[..][c.order := orderMap[c.order] + [c]]
    {
      hide Mate, WithMate, BitSet;
      InHandRange(a, c);
      PairDecides(bitmap[..], free, frameCount, a);
      if a > 1 {
        BuddyListed(a, c);
      }
    }

    /** ... and a set one merges the block with its buddy. */
    lemma CascadeGoesOn(a: nat, c: FrameChunk)
      requires InHand(a, c) && BitsOk(bitmap[..], free, frameCount) && a > 1 && BitSet(bitmap[..], a / 2)
      ensures c.order < maxOrder
      ensures FreedLists(orderMap[..], c) ==
              FreedLists(orderMap[..][c.order := Without(orderMap[c.order], Mate(c))], WithMate(c))
    {
      hide Mate, BitSet, Without;
      InHandRange(a, c);
      PairDecides(bitmap[..], free, frameCount, a);
      BuddyListed(a, c);
    }

    /** `buddy_start` is less than zero exactly for the block of all of memory. */
    lemma BelowZeroIff(a: nat, c: FrameChunk)
      requires InHand(a, c)
      ensures ShiftLeft(a / 2, c.order + 1) < frameCount <==> a == 1
    {
      if a > 1 {
        PairStart(a, c, maxOrder);
      }
      ShiftLeftIsProduct(a / 2, c.order + 1);
    }

    /** If a free block is not all of memory, memory is not all free. */
    lemma AllIsRoot(a: nat)
      requires Structure() && a in free
      ensures FreeFrames() == Interval(0, maxOrder) <==> a == 1
    {
      RootIsAll(1);
      Take(free, frameCount, a);
      if a == 1 {
        assert FreeFrames() + FramesOf(1, frameCount) == FreeFrames();
      }
      if FreeFrames() == Interval(0, maxOrder) {
        assert forall f :: f in Frames({1}, frameCount) ==> f in Interval(0, maxOrder);
        RootAlone(frameCount);
        FramesDetermineBlocks(free, {1}, frameCount);
      }
    }

    /** All of memory in one free block. */
    lemma WhenAllIsFree()
      requires Valid() && FreeFrames() == Interval(0, maxOrder)
      ensures free == {1} && BitSet(bitmap[..], 0)
      ensures orderMap[maxOrder] != [] && forall k :: 0 <= k < maxOrder ==> orderMap[k] == []
    {
      RootIsAll(1);
      RootAlone(frameCount);
      FramesDetermineBlocks(free, {1}, frameCount);
      ShiftLeftPow2(0, maxOrder);
      var c := FrameChunk(0, maxOrder);
      NodeNames(1, c, maxOrder);
      forall k | 0 <= k < maxOrder
        ensures orderMap[k] == []
      {
        if orderMap[k] != [] {
          HeadNamed(orderMap[..], free, maxOrder, k);
          NodeNames(1, orderMap[k][0], maxOrder);
        }
      }
    }

    lemma RootIsAll(a: nat)
      requires Shape()
      ensures a == 1 ==> FramesOf(a, frameCount) == Interval(0, maxOrder)
      ensures a == 1 ==> FreeFrames() + FramesOf(a, frameCount) == Interval(0, maxOrder)
    {
      if a == 1 {
        ShiftLeftPow2(0, maxOrder);
        NodeFrames(1, 0, maxOrder, maxOrder);
        assert forall f :: f in Interval(0, maxOrder) <==> 0 <= f < frameCount;
      }
    }

    // ----- allocating

    /** `split_chunk`: the block is replaced on the lists by its halves; the right half is returned. */
    method SplitChunk(ghost a: nat, frame: FrameChunk) returns (newChunk: FrameChunk)
      requires OnList(a, frame) && frame.order > 0
      modifies this`free, frames, orderMap
      ensures OnList(2 * a + 1, newChunk)
      ensures newChunk == FrameChunk(frame.start + Pow2(frame.order - 1), frame.order - 1)
      ensures free == old(free) + {2 * a}
      ensures FreeFrames() + FramesOf(2 * a + 1, frameCount) == old(FreeFrames()) + FramesOf(a, frameCount)
      ensures frame.order <= maxOrder
      ensures orderMap[..] ==
              old(orderMap[..])[frame.order := Without(old(orderMap[frame.order]), frame)]
                               [frame.order - 1 := old(orderMap[frame.order - 1])
                                                   + [frame.(order := frame.order - 1), newChunk]]
    {
      hide ListsOk, SlotsName, SlotsFresh, Separate, Hand, IsNode;
      SplitStep(orderMap[..], frames[..], free, live, maxOrder, a, frame,
                frame.(order := frame.order - 1), FrameChunk(frame.start + Pow2(frame.order - 1), frame.order - 1));
      SplitFrames(a, frame);
      orderMap[frame.order] := Without(orderMap[frame.order], frame);
      var newOrder := frame.order - 1;
      // `--frame->order` is seen through frames[].chunk, which names the same chunk.
      var left := frame.(order := newOrder);
      frames[left.start] := Some(left);
      var buddyStart := left.start + Pow2(newOrder);
      newChunk := FrameChunk(buddyStart, newOrder);
      frames[buddyStart] := Some(newChunk);
      orderMap[newOrder] := orderMap[newOrder] + [left];
      orderMap[newOrder] := orderMap[newOrder] + [newChunk];
      assert orderMap[newOrder] == old(orderMap[newOrder]) + [left, newChunk];
      free := free + {2 * a};
    }

    lemma SplitFrames(a: nat, c: FrameChunk)
      requires OnList(a, c) && c.order > 0
      ensures Frames(free + {2 * a}, frameCount) + FramesOf(2 * a + 1, frameCount) == FreeFrames() + FramesOf(a,
              frameCount)
    {
      NodeInRange(a, c.start, c.order, maxOrder);
      HandSplit(free, live, frameCount, a);
    }

    /** Lines 39-45: the bit of a pair toggles when one of the two leaves its list. */
    method ToggleBit(index: nat)
      requires index / 32 < bitmap.Length
      modifies bitmap
      ensures forall p: nat :: BitSet(bitmap[..], p) <==> (p == index) != BitSet(old(bitmap[..]), p)
    {
      var bit := GetBit(index);
      if !bit {
        SetBit(index);
      } else {
        ClearBit(index);
      }
    }

    /** Lines 34-46: the last block of a list is taken. */
    method PopExact(order: nat) returns (chunk: FrameChunk, ghost a: nat)
      requires Valid() && order <= maxOrder && orderMap[order] != []
      modifies this, orderMap, bitmap
      ensures Valid() && a in old(free) && a == NodeOf(chunk, maxOrder)
      ensures free == old(free) - {a} && live == old(live) + {a}
      ensures IsNode(a, chunk.start, chunk.order, maxOrder) && chunk.order == order
      ensures chunk == old(orderMap[order])[|old(orderMap[order])| - 1]
      ensures orderMap[..] == old(orderMap[..])[order := old(orderMap[order])[..|old(orderMap[order])| - 1]]
      ensures BitSet(bitmap[..], 0) == BitSet(old(bitmap[..]), 0)
    {
      hide ListsOk, SlotsName, SlotsFresh, Separate, Hand, IsNode;
      PopIsWithout(orderMap[..], free, maxOrder, order);
      chunk := orderMap[order][|orderMap[order]| - 1];
      a := NodeOf(chunk, maxOrder);
      Claim(orderMap[..], frames[..], free, live, maxOrder, a, chunk);
      Lend(orderMap[..], frames[..], free - {a}, live, maxOrder, a, chunk);
      FreeBlock(a, chunk);
      orderMap[order] := orderMap[order][..|orderMap[order]| - 1];
      if order != maxOrder {
        var bIndex := BitIndex(frameCount, chunk.start, order);
        BitInRange(a, chunk);
        ToggleBit(bIndex);
      }
      BitsAfterTake(old(bitmap[..]), bitmap[..], free, frameCount, a);
      free, live := free - {a}, live + {a};
    }

    lemma FreeBlock(a: nat, c: FrameChunk)
      requires Valid() && a in free && IsNode(a, c.start, c.order, maxOrder)
      ensures Proper(free, frameCount)
      ensures c.order == maxOrder <==> a == 1
      ensures a > 1 ==> BitSet(bitmap[..], a / 2)
    {
      NodeInRange(a, c.start, c.order, maxOrder);
      FreePairBit(bitmap[..], free, frameCount, a);
    }

    /** Claims the head of a list that is about to be split. */
    ghost method ClaimHead(k: nat) returns (a: nat)
      requires Structure() && k <= maxOrder && orderMap[k] != []
      modifies this`free
      ensures a == NodeOf(orderMap[k][0], maxOrder)
      ensures a in old(free) && free == old(free) - {a} && OnList(a, orderMap[k][0]) && orderMap[k][0].order == k
      ensures FreeFrames() == old(FreeFrames()) - FramesOf(a, frameCount)
      ensures FramesOf(a, frameCount) <= old(FreeFrames()) && a < 2 * frameCount && (a == 1 <==> k == maxOrder)
    {
      var c := orderMap[k][0];
      HeadNamed(orderMap[..], free, maxOrder, k);
      a := NodeOf(c, maxOrder);
      Claim(orderMap[..], frames[..], free, live, maxOrder, a, c);
      HandTake(free, live, frameCount, a);
      NodeInRange(a, c.start, c.order, maxOrder);
      free := free - {a};
    }

    /** Lines 65-66: the claimed block leaves its list for the caller. */
    method LendListed(ghost a: nat, c: FrameChunk)
      requires OnList(a, c)
      modifies this`live, orderMap
      ensures Structure() && live == old(live) + {a} && c.order <= maxOrder
      ensures orderMap[..] == old(orderMap[..])[c.order := Without(old(orderMap[c.order]), c)]
    {
      Lend(orderMap[..], frames[..], free, live, maxOrder, a, c);
      orderMap[c.order] := Without(orderMap[c.order], c);
      live := live + {a};
    }

    /** Lines 61-64, repaired: halves the claimed block until it has the requested order, keeping every bit right. */
    method SplitDown(ghost a: nat, bigger: FrameChunk, order: nat) returns (chunk: FrameChunk, ghost r: nat)
      requires OnList(a, bigger) && BitsOk(bitmap[..], free, frameCount) && order <= bigger.order
      modifies this`free, frames, orderMap, bitmap
      ensures OnList(r, chunk) && BitsOk(bitmap[..], free, frameCount)
      ensures chunk.order == order && chunk.start + Pow2(order) == bigger.start + Pow2(bigger.order)
      ensures FreeFrames() + FramesOf(r, frameCount) == old(FreeFrames()) + FramesOf(a, frameCount)
      ensures BitSet(bitmap[..], 0) == BitSet(old(bitmap[..]), 0)
      ensures old(EmptyBetween(order - 1, bigger.order)) ==>
                Halving(old(orderMap[..]), orderMap[..], bigger, chunk)
    {
      OnListInRange(a, bigger);
      hide OnList, BitsOk, Pow2, Frames, FramesOf, Halving, Without;
      chunk, r := bigger, a;
      ghost var lists, empty := orderMap[..], EmptyBetween(order - 1, bigger.order);
      StartHalving(bigger);
      while chunk.order > order
        invariant OnList(r, chunk) && BitsOk(bitmap[..], free, frameCount)
        invariant order <= chunk.order <= bigger.order
        invariant chunk.start + Pow2(chunk.order) == bigger.start + Pow2(bigger.order)
        invariant FreeFrames() + FramesOf(r, frameCount) == old(FreeFrames()) + FramesOf(a, frameCount)
        invariant BitSet(bitmap[..], 0) == BitSet(old(bitmap[..]), 0)
        invariant empty ==> Halving(lists, orderMap[..], bigger, chunk)
        decreases chunk.order
      {
        ghost var half, lists1 := chunk, orderMap[..];
        chunk, r := SplitAndMark(r, chunk);
        if empty {
          HalvingStep(lists, lists1, orderMap[..], bigger, half, chunk);
        }
      }
    }

    lemma OnListInRange(a: nat, c: FrameChunk)
      requires OnList(a, c)
      ensures c.order <= maxOrder
    {
    }

    lemma StartHalving(c: FrameChunk)
      requires c.order < orderMap.Length
      ensures Halving(orderMap[..], orderMap[..], c, c)
    {
    }

    /** One round of SplitDown. */
    method SplitAndMark(ghost a: nat, bigger: FrameChunk) returns (chunk: FrameChunk, ghost r: nat)
      requires OnList(a, bigger) && BitsOk(bitmap[..], free, frameCount) && bigger.order > 0
      modifies this`free, frames, orderMap, bitmap
      ensures OnList(r, chunk) && BitsOk(bitmap[..], free, frameCount)
      ensures chunk.order == bigger.order - 1
      ensures chunk.start + Pow2(chunk.order) == bigger.start + Pow2(bigger.order)
      ensures FreeFrames() + FramesOf(r, frameCount) == old(FreeFrames()) + FramesOf(a, frameCount)
      ensures BitSet(bitmap[..], 0) == BitSet(old(bitmap[..]), 0)
      ensures bigger.order <= maxOrder
      ensures chunk == FrameChunk(bigger.start + Pow2(bigger.order - 1), bigger.order - 1)
      ensures orderMap[..] ==
              old(orderMap[..])[bigger.order := Without(old(orderMap[bigger.order]), bigger)]
                               [bigger.order - 1 := old(orderMap[bigger.order - 1])
                                                    + [bigger.(order := bigger.order - 1), chunk]]
    {
      hide ListsOk, SlotsName, SlotsFresh, Separate, Hand, IsNode;
      HalvesNotFree(a, bigger);
      chunk := SplitChunk(a, bigger);
      r := 2 * a + 1;
      BitInRange(r, chunk);
      SetBit(BitIndex(frameCount, chunk.start, chunk.order));
      BitsAfterPut(old(bitmap[..]), bitmap[..], old(free), frameCount, 2 * a);
    }

    lemma ListDistinct(a: nat, c: FrameChunk)
      requires OnList(a, c)
      ensures c.order <= maxOrder && Distinct(orderMap[c.order])
    {
    }

    lemma HalvesNotFree(a: nat, c: FrameChunk)
      requires OnList(a, c) && c.order > 0
      ensures 0 < a < frameCount && 2 * a !in free && 2 * a + 1 !in free
    {
      NodeInRange(a, c.start, c.order, maxOrder);
      HandSplit(free, live, frameCount, a);
    }

    /** Lines 61-66: the head of list `found` is split until a block of the requested order comes off. */
    method SplitOff(found: nat, order: nat) returns (chunk: FrameChunk)
      requires Valid() && order < found <= maxOrder && orderMap[found] != []
      modifies this, frames, orderMap, bitmap
      ensures Valid() && chunk.order == order
      ensures chunk.start + Pow2(order) == old(orderMap[found][0]).start + Pow2(found)
      ensures Named(live, chunk, maxOrder) && live == old(live) + {NodeOf(chunk, maxOrder)}
      ensures Interval(chunk.start, order) <= old(FreeFrames())
      ensures FreeFrames() == old(FreeFrames()) - Interval(chunk.start, order)
      ensures BitSet(bitmap[..], 0) == BitSet(old(bitmap[..]), 0)
      ensures old(EmptyBetween(order - 1, found)) ==> HeadSplit(old(orderMap[..]), orderMap[..], found, order)
    {
      hide HeadSplit, Halving, Without, ListsOk, SlotsName, SlotsFresh, Separate, Hand, IsNode, BitsOk;
      var bigger := orderMap[found][0];
      HeadBit(found);
      ghost var a := ClaimHead(found);
      if found < maxOrder {
        // Repaired: the pair of the block being split loses it too.
        BitInRange(a, bigger);
        ToggleBit(BitIndex(frameCount, bigger.start, found));
      }
      BitsAfterTake(old(bitmap[..]), bitmap[..], old(free), frameCount, a);
      ghost var r;
      chunk, r := SplitDown(a, bigger, order);
      OnListFrames(r, chunk);
      if old(EmptyBetween(order - 1, found)) {
        HalvingEnds(old(orderMap[..]), orderMap[..], found, chunk);
      }
      LendListed(r, chunk);
    }

    lemma OnListFrames(a: nat, c: FrameChunk)
      requires OnList(a, c)
      ensures a == NodeOf(c, maxOrder) && IsNode(a, c.start, c.order, maxOrder)
      ensures FramesOf(a, frameCount) == Interval(c.start, c.order)
      ensures FramesOf(a, frameCount) !! FreeFrames()
    {
      NodeNames(a, c, maxOrder);
      NodeFrames(a, c.start, c.order, maxOrder);
      ApartFrames(free, frameCount, a);
    }

    lemma HeadBit(k: nat)
      requires Valid() && k <= maxOrder && orderMap[k] != []
      ensures var a := NodeOf(orderMap[k][0], maxOrder);
              a in free && Proper(free, frameCount) && (a > 1 ==> BitSet(bitmap[..], a / 2))
    {
      HeadNamed(orderMap[..], free, maxOrder, k);
      FreePairBit(bitmap[..], free, frameCount, NodeOf(orderMap[k][0], maxOrder));
    }

    lemma LentFrames(s: set<nat>, a: nat, c: FrameChunk)
      requires Shape() && Proper(s, frameCount) && a in s && IsNode(a, c.start, c.order, maxOrder)
      ensures Frames(s - {a}, frameCount) == Frames(s, frameCount) - Interval(c.start, c.order)
      ensures Interval(c.start, c.order) <= Frames(s, frameCount)
      ensures Aligned(c.start, c.order) && c.start < frameCount
    {
      Take(s, frameCount, a);
      NodeFrames(a, c.start, c.order, maxOrder);
      NodeInRange(a, c.start, c.order, maxOrder);
    }

    /** The lists strictly between two orders are empty. */
    ghost predicate EmptyBetween(low: int, high: nat)
      reads orderMap
    {
      forall k :: low < k < high && 0 <= k < orderMap.Length ==> orderMap[k] == []
    }

    /** The block taken for an order: the last one of its list, or the right end of the head of the next list. */
    ghost function Choice(order: nat): Option<FrameChunk>
      requires order < orderMap.Length
      reads orderMap
    {
      if orderMap[order] != [] then Some(orderMap[order][|orderMap[order]| - 1]) else ChoiceAbove(order, order + 1)
    }

    ghost function ChoiceAbove(order: nat, found: nat): Option<FrameChunk>
      requires order < found
      reads orderMap
      decreases orderMap.Length - found
    {
      Pow2Monotone(order, found);
      if found >= orderMap.Length then None
      else if orderMap[found] != [] then
        Some(FrameChunk(orderMap[found][0].start + Pow2(found) - Pow2(order), order))
      else ChoiceAbove(order, found + 1)
    }

    /** Lines 48-55: the next list that has a block. */
    method FindLarger(order: nat) returns (found: nat)
      requires order <= maxOrder && orderMap.Length == maxOrder + 1 && orderMap[order] == []
      ensures order < found <= maxOrder + 1 && (found <= maxOrder ==> orderMap[found] != [])
      ensures forall k :: order <= k < found ==> orderMap[k] == []
      ensures Choice(order) == ChoiceAbove(order, found)
    {
      found := order + 1;
      // Repaired: line 55 lets the search read one list past the last.
      while found <= maxOrder && orderMap[found] == []
        invariant order < found <= maxOrder + 1
        invariant forall k :: order <= k < found ==> orderMap[k] == []
        invariant Choice(order) == ChoiceAbove(order, found)
      {
        found := found + 1;
      }
    }

    /** No aligned run of 2^order frames lies in `fs`. */
    ghost predicate NoRunIn(fs: set<nat>, order: nat) {
      forall start: nat :: Aligned(start, order) ==> !(Interval(start, order) <= fs)
    }

    /**
     What a request for 2^order of the frames `before` must give: an aligned run of exactly that many of them,
     which are then not free any more, or nothing if there is no such run.
     */
    ghost predicate Served(before: set<nat>, order: nat, r: Option<FrameChunk>)
      reads this
    {
      match r
      case None => FreeFrames() == before && NoRunIn(before, order)
      case Some(c) =>
        && c.order == order && Aligned(c.start, order)
        && Interval(c.start, order) <= before && FreeFrames() == before - Interval(c.start, order)
    }

    /** `alloc_frames` with its evident slips repaired; each repair is marked. */
    method AllocFrames(count: nat) returns (r: Option<FrameChunk>)
      requires Valid()
      modifies this, frames, orderMap, bitmap
      ensures Valid() && Served(old(FreeFrames()), CeilOrder(count), r)
      ensures r.None? <==> NoRunIn(old(FreeFrames()), CeilOrder(count))
      ensures r.Some? ==> Named(live, r.value, maxOrder) && live == old(live) + {NodeOf(r.value, maxOrder)}
      ensures r.None? ==> free == old(free) && live == old(live)
      ensures Managed() == old(Managed())
      ensures r == if CeilOrder(count) <= maxOrder then old(Choice(CeilOrder(count))) else None
      ensures BitSet(bitmap[..], 0) == BitSet(old(bitmap[..]), 0)
      ensures r.None? ==> orderMap[..] == old(orderMap[..])
      ensures r.Some? ==>
                var order := CeilOrder(count);
                && order <= maxOrder
                && if old(orderMap[order]) != [] then
                     orderMap[..] == old(orderMap[..])[order := old(orderMap[order])[..|old(orderMap[order])| - 1]]
                   else exists found :: HeadSplit(old(orderMap[..]), orderMap[..], found, order)
    {
      hide HeadSplit, ListsOk, SlotsName, SlotsFresh, Separate, Hand, IsNode, BitsOk, Interval;
      var order := ComputeCeilOrder(count);
      ProperNow();
      // Repaired: line 34 reads past the lists if more is asked for than there is.
      if order > maxOrder {
        NoLongRun(order);
        return None;
      }
      if orderMap[order] != [] {
        var chunk, a := PopExact(order);
        LentFrames(old(free), a, chunk);
        LiveFrames(old(live), chunk);
        // Repaired: line 46 falls through to the search and loses the chunk.
        return Some(chunk);
      }
      var found := FindLarger(order);
      if found > maxOrder {
        NoRunLeft(order);
        return None;
      }
      var chunk := SplitOff(found, order);
      NamedInRange(chunk);
      LiveFrames(old(live), chunk);
      r := Some(chunk);
    }

    lemma NoLongRun(order: nat)
      requires Shape() && order > maxOrder
      ensures NoRunIn(FreeFrames(), order)
    {
      Pow2Monotone(maxOrder, order);
      forall start: nat | Aligned(start, order)
        ensures !(Interval(start, order) <= FreeFrames())
      {
        var last := start + Pow2(order) - 1;
        assert Within(start, order, last);
        assert last in Interval(start, order) && last !in FreeFrames();
      }
    }

    lemma NoRunLeft(order: nat)
      requires Structure() && order <= maxOrder && forall k :: order <= k <= maxOrder ==> orderMap[k] == []
      ensures NoRunIn(FreeFrames(), order)
    {
      NoRun(orderMap[..], free, maxOrder, order);
      forall start: nat | Aligned(start, order) && start >= frameCount
        ensures !(Interval(start, order) <= FreeFrames())
      {
        assert Within(start, order, start);
        assert start in Interval(start, order) && start !in FreeFrames();
      }
    }

    lemma LiveFrames(was: set<nat>, c: FrameChunk)
      requires Shape() && Named(live, c, maxOrder)
      ensures Frames(was + {NodeOf(c, maxOrder)}, frameCount) == Frames(was, frameCount) + Interval(c.start, c.order)
    {
      var a := NodeOf(c, maxOrder);
      NodeInRange(a, c.start, c.order, maxOrder);
      NodeFrames(a, c.start, c.order, maxOrder);
      AddFrames(was, a, frameCount);
    }

    lemma ProperNow()
      requires Structure()
      ensures Proper(free, frameCount) && ListsOk(orderMap[..], free, maxOrder)
    {
    }

    lemma NamedInRange(c: FrameChunk)
      requires Shape() && Named(live, c, maxOrder)
      ensures Aligned(c.start, c.order) && c.start < frameCount
    {
      NodeInRange(NodeOf(c, maxOrder), c.start, c.order, maxOrder);
    }

    /** Lines 61-66 as written: one split, and no change to the bit of the block that was split. */
    method SplitOnce(found: nat) returns (chunk: FrameChunk)
      requires Valid() && 0 < found <= maxOrder && orderMap[found] != []
      modifies this, frames, orderMap, bitmap
      ensures Structure()
      ensures BitsOk(bitmap[..], free, frameCount) <==> found == maxOrder
      ensures FreeFrames() == old(FreeFrames()) - Interval(chunk.start, chunk.order)
      ensures Interval(chunk.start, chunk.order) <= old(FreeFrames()) && Aligned(chunk.start, chunk.order)
      ensures chunk == FrameChunk(old(orderMap[found][0]).start + Pow2(found - 1), found - 1)
      ensures Named(live, chunk, maxOrder) && live == old(live) + {NodeOf(chunk, maxOrder)}
      ensures orderMap[..] ==
              old(orderMap[..])[found := old(orderMap[found])[1..]]
                               [found - 1 := old(orderMap[found - 1])
                                             + [FrameChunk(old(orderMap[found][0]).start, found - 1)]]
    {
      hide ListsOk, SlotsName, SlotsFresh, Separate, Hand, IsNode, BitsOk, Without, NodeOf, Interval, BitSet, BitIndex;
      var biggerChunk := orderMap[found][0];
      HeadBit(found);
      ghost var a := ClaimHead(found);
      HalvesNotFree(a, biggerChunk);
      // The loop runs once: the half has a smaller order than the list it was found in.
      chunk := SplitChunk(a, biggerChunk);
      BitInRange(2 * a + 1, chunk);
      SetBit(BitIndex(frameCount, chunk.start, chunk.order));
      UntouchedBitIsWrong(old(bitmap[..]), bitmap[..], old(free), frameCount, a);
      OnListFrames(2 * a + 1, chunk);
      ghost var lists1 := orderMap[..];
      ListDistinct(2 * a + 1, chunk);
      LendListed(2 * a + 1, chunk);
      NamedInRange(chunk);
      OneSplit(old(orderMap[..]), lists1, orderMap[..], found, biggerChunk, chunk);
    }

    /** When the code of `alloc_frames` does what is asked of it. */
    ghost predicate Harmless(order: nat)
      reads orderMap
    {
      order >= maxOrder
      || (EmptyBetween(order - 1, maxOrder)
          && (order + 1 == maxOrder || (maxOrder < orderMap.Length && orderMap[maxOrder] == [])))
    }

    /**
     `alloc_frames` exactly as written, lines 32-67.  `outside` says that it reads past the last list; such a
     read is taken to find an empty list.
     The manager stays valid and the request is served exactly if nothing smaller than all of memory is asked for,
     or the lists from the order asked for up to but excluding the last are empty and so is the last, unless a
     single split of its block gives the order asked for.
     */
    method AllocFramesAsWritten(count: nat) returns (r: Option<FrameChunk>, outside: bool)
      requires Valid()
      modifies this, frames, orderMap, bitmap
      ensures Structure()
      ensures Valid() && Served(old(FreeFrames()), CeilOrder(count), r) <==> old(Harmless(CeilOrder(count)))
      ensures CeilOrder(count) < maxOrder
              && old(EmptyBetween(CeilOrder(count) - 1, maxOrder) && orderMap[maxOrder] != []) ==>
                Valid() && r.Some? && r.value.order == maxOrder - 1
      ensures outside <==>
                && old(EmptyBetween(CeilOrder(count), maxOrder + 1))
                && !(CeilOrder(count) == maxOrder && old(orderMap[maxOrder]) != [])
    {
      hide ListsOk, SlotsName, SlotsFresh, Separate, Hand, IsNode, BitsOk, Interval, Structured, Frames, Named, NoRunIn;
      var order := ComputeCeilOrder(count);
      ghost var requested := order;
      ghost var lost: set<nat>, first: nat := {}, 0;
      outside := order > maxOrder;
      if order <= maxOrder && orderMap[order] != [] {
        ProperNow();
        var chuck, a := PopExact(order);
        LentFrames(old(free), a, chuck);
        if order == maxOrder {
          return Some(chuck), false;
        }
        lost, first := Interval(chuck.start, chuck.order), chuck.start;
        StartInInterval(chuck);
      }
      assert lost != {} ==> first in lost;
      assert FreeFrames() == old(FreeFrames()) - lost && lost <= old(FreeFrames());
      assert lost == {} <==> requested > maxOrder || old(orderMap[requested]) == [];
      order := order + 1;
      while order <= maxOrder && orderMap[order] == []
        invariant requested < order && (order <= maxOrder + 1 || requested > maxOrder)
        invariant forall k :: requested < k < order && k <= maxOrder ==> old(orderMap[k]) == []
      {
        order := order + 1;
      }
      if order > maxOrder {
        if lost == {} {
          Unserved(requested);
        }
        return None, true;
      }
      assert old(orderMap[order]) != [];
      ghost var left := FreeFrames();
      var chunk := SplitOnce(order);
      r := Some(chunk);
      if lost != {} {
        assert first in old(FreeFrames()) && first !in left;
        assert first !in Interval(chunk.start, chunk.order) && first !in FreeFrames();
      } else {
        assert Served(old(FreeFrames()), requested, r) <==> order == requested + 1;
        assert old(EmptyBetween(requested - 1, maxOrder)) <==> order == maxOrder;
      }
    }

    /** Nothing is left to serve a request from. */
    lemma Unserved(order: nat)
      requires Structure()
      requires forall k :: order <= k <= maxOrder ==> orderMap[k] == []
      ensures NoRunIn(FreeFrames(), order)
    {
      if order > maxOrder {
        NoLongRun(order);
      } else {
        NoRunLeft(order);
      }
    }

    lemma StartInInterval(c: FrameChunk)
      ensures c.start in Interval(c.start, c.order)
    {
      assert Within(c.start, c.order, c.start);
    }

    // ----- handing in memory

    /** Lines 115-119: the order of the next block of a range. */
    method NextOrder(left: nat, right: nat) returns (order: nat)
      requires left <= right
      ensures order == PieceOrder(left, right - left + 1)
    {
      var floor := ComputeFloorOrder(right - left + 1);
      var ceil := ComputeCeilOrder(left);
      order := LowerOrder(left, if floor <= ceil then floor else ceil);
    }

    /** Lines 117-119. */
    method LowerOrder(left: nat, start: nat) returns (order: nat)
      ensures order == Lower(left, start)
    {
      hide Pow2;
      order := start;
      AlignedIsMod(left, order);
      while left % Pow2(order) != 0
        invariant Lower(left, order) == Lower(left, start)
        invariant Aligned(left, order) <==> left % Pow2(order) == 0
        decreases order
      {
        order := order - 1;
        AlignedIsMod(left, order);
      }
    }

    /** A block of frames that were never handed in is lent, as if it had been allocated. */
    ghost method Adopt(c: FrameChunk)
      requires Valid() && Aligned(c.start, c.order) && c.order <= maxOrder && c.start < frameCount
      requires Interval(c.start, c.order) !! Managed()
      modifies this`live
      ensures Valid() && Named(live, c, maxOrder)
      ensures NodeOf(c, maxOrder) !in old(live) && live == old(live) + {NodeOf(c, maxOrder)}
      ensures Managed() == old(Managed()) + Interval(c.start, c.order)
    {
      var a := NodeExists(c.start, c.order, maxOrder);
      NodeNames(a, c, maxOrder);
      NodeFrames(a, c.start, c.order, maxOrder);
      HandFresh(free, live, frameCount, a);
      AddFrames(live, a, frameCount);
      FreshGrows(frames[..], free + live, free + (live + {a}), maxOrder);
      live := live + {a};
    }

    /**
     Lines 114-123: the first block of a range is freed.  Past the end of memory a block of an order on the free lists
     is stored, or merged, outside `frames` (BuddyRange.PastEnd), and a larger one is forgotten.
     */
    method FreePiece(left: nat, right: nat) returns (next: nat, outside: bool)
      requires Valid() && left <= right && Range(left, right) !! Managed()
      modifies this, frames, orderMap, bitmap
      ensures next == left + Pow2(PieceOrder(left, right - left + 1)) <= right + 1
      ensures left >= frameCount ==>
                && (outside <==> PieceOrder(left, right - left + 1) <= maxOrder)
                && (!outside ==> Valid() && live == old(live) && free == old(free))
      ensures left < frameCount ==>
                var piece := Interval(left, PieceOrder(left, right - left + 1));
                && (outside <==> BitSet(old(bitmap[..]), 0) && old(FreeFrames()) + piece == Interval(0, maxOrder))
                && (!outside ==>
                      && Valid() && live == old(live)
                      && FreeFrames() == old(FreeFrames()) + piece
                      && Managed() == old(Managed()) + piece
                      && (BitSet(bitmap[..], 0) <==>
                            BitSet(old(bitmap[..]), 0) || FreeFrames() == Interval(0, maxOrder)))
      ensures !outside ==>
                var c := FrameChunk(left, PieceOrder(left, right - left + 1));
                if left >= frameCount then orderMap[..] == old(orderMap[..])
                else c.order <= maxOrder && orderMap[..] == FreedLists(old(orderMap[..]), c)
    {
      hide Structured, BitsOk, Interval, Frames, Range, FreedLists, EndsCascade;
      var order := NextOrder(left, right);
      var rightBound := left + Pow2(order) - 1;
      var chunk := FrameChunk(left, order);
      if left >= frameCount {
        outside := order <= maxOrder;
      } else {
        PieceBelow(left, right, maxOrder);
        RangeStep(left, right, order);
        Adopt(chunk);
        outside := FreePages(chunk);
      }
      next := rightBound + 1;
    }

    /** A range that does not end in memory: does freeing it reach outside `frames`? */
    predicate ReachesPast(left: nat, right: nat) {
      left <= right && (left < frameCount || !(Aligned(left, maxOrder + 1) && Aligned(right + 1, maxOrder + 1)))
    }

    /**
     `free_range`, for byte addresses of the first and the last frame.  In memory it reaches outside `frames` exactly
     when the range completes all of memory while bit 0 is set.  If the last frame is past the end it always does,
     unless the range begins there too and both its bounds are multiples of twice the number of frames.
     Past frame 0, and with nothing free before, the free lists then hold exactly the blocks of Cut.
     */
    method FreeRange(leftAddress: nat, rightAddress: nat) returns (outside: bool)
      requires Valid() && Range(leftAddress / 4096, rightAddress / 4096) !! Managed()
      modifies this, frames, orderMap, bitmap
      ensures var left, right := leftAddress / 4096, rightAddress / 4096;
              outside <==>
              if right >= frameCount then ReachesPast(left, right)
              else left <= right && BitSet(old(bitmap[..]), 0)
                   && old(FreeFrames()) + Range(left, right) == Interval(0, maxOrder)
      ensures !outside ==>
                var left, right := leftAddress / 4096, rightAddress / 4096;
                && Valid() && live == old(live)
                && FreeFrames() == old(FreeFrames()) + (if right < frameCount then Range(left, right) else {})
                && (left > 0 && right < frameCount && old(free) == {} ==>
                      && free == CutNodes(left, right, maxOrder)
                      && forall k :: 0 <= k <= maxOrder ==> orderMap[k] == OfOrder(Cut(left, right), k))
    {
      hide Structured, BitsOk, Interval, Frames, Range, Pow2, PieceOrder, Aligned, Cut, OfOrder, FreedLists;
      var left, right := leftAddress / 4096, rightAddress / 4096;
      ghost var all := old(FreeFrames()) + Range(left, right);
      ghost var inOrder, done: seq<FrameChunk> := left > 0 && right < frameCount && free == {}, [];
      outside := false;
      if left > right {
        EmptyRange(left, right);
      }
      if inOrder {
        NothingListed();
        assert Cut(left, right) == done + Cut(left, right);
      }
      while left <= right
        invariant Valid() && live == old(live)
        invariant Range(left, right) !! Managed()
        invariant right < frameCount ==> FreeFrames() + Range(left, right) == all
        invariant right < frameCount && left <= right ==> BitSet(bitmap[..], 0) == BitSet(old(bitmap[..]), 0)
        invariant right < frameCount && left > right ==>
                    !(leftAddress / 4096 <= right && BitSet(old(bitmap[..]), 0) && all == Interval(0, maxOrder))
        invariant right >= frameCount ==> ReachesPast(left, right) == ReachesPast(leftAddress / 4096, right)
        invariant right >= frameCount && leftAddress / 4096 >= frameCount ==> left >= frameCount && free == old(free)
        invariant inOrder ==> Cut(leftAddress / 4096, right) == done + Cut(left, right)
        invariant inOrder ==> forall k :: 0 <= k <= maxOrder ==> orderMap[k] == OfOrder(done, k)
        decreases right + 1 - left
      {
        RangeStep(left, right, PieceOrder(left, right - left + 1));
        PieceReaches(left, right);
        if right < frameCount {
          NothingBeyond(left, right);
        }
        ghost var lists, c := orderMap[..], FrameChunk(left, PieceOrder(left, right - left + 1));
        ghost var start := left;
        left, outside := FreePiece(left, right);
        if outside {
          return;
        }
        if inOrder {
          NextOfCut(done, leftAddress / 4096, start, right, maxOrder, c);
          NextInOrder(lists, done, maxOrder, c);
          done := done + [c];
        }
        if left > right {
          EmptyRange(left, right);
        } else if right < frameCount {
          NotAllFree(left, right);
        }
      }
      EmptyRange(left, right);
      if inOrder {
        OnlyRange(leftAddress / 4096, right);
        EmptyCut(left, right);
        assert done + [] == done;
      }
    }

    lemma NothingListed()
      requires Structure() && free == {}
      ensures forall k :: 0 <= k <= maxOrder ==> orderMap[k] == OfOrder([], k)
    {
      forall k | 0 <= k <= maxOrder
        ensures orderMap[k] == []
      {
        if orderMap[k] != [] {
          HeadNamed(orderMap[..], free, maxOrder, k);
        }
      }
    }

    /** One block further, the answer for a range that does not end in memory is the same. */
    lemma PieceReaches(left: nat, right: nat)
      requires Shape() && left <= right
      ensures var k := PieceOrder(left, right - left + 1);
              && (left < frameCount <= right ==> ReachesPast(left, right) && ReachesPast(left + Pow2(k), right))
              && (left >= frameCount ==>
                    && (k <= maxOrder ==> ReachesPast(left, right))
                    && (k > maxOrder ==> ReachesPast(left, right) == ReachesPast(left + Pow2(k), right)))
    {
      var k := PieceOrder(left, right - left + 1);
      if left < frameCount {
        PieceBelow(left, right, maxOrder);
        if Aligned(frameCount, maxOrder + 1) {
          AlignedSize(frameCount, maxOrder + 1);
        }
      } else {
        PieceAbove(left, right, maxOrder);
        hide Aligned, PieceOrder;
        assert left + Pow2(k) == right + 1 && k > maxOrder ==> Aligned(right + 1, maxOrder + 1);
      }
    }

    /** Free frames and the frames of a range are frames of memory. */
    lemma NothingBeyond(left: nat, right: nat)
      requires Shape() && right < frameCount
      ensures FreeFrames() + Range(left, right) <= Interval(0, maxOrder)
    {
      forall f | f in FreeFrames() + Range(left, right)
        ensures f in Interval(0, maxOrder)
      {
        assert Within(0, maxOrder, f);
      }
    }

    lemma NotAllFree(left: nat, right: nat)
      requires Shape() && left <= right < frameCount && Range(left, right) !! Managed()
      ensures FreeFrames() != Interval(0, maxOrder)
    {
      assert Between(left, right, left) && Within(0, maxOrder, left);
      assert left in Range(left, right) && left in Interval(0, maxOrder);
    }

    lemma OnlyRange(left: nat, right: nat)
      requires Structure() && 0 < left && right < frameCount
               && FreeFrames() == Frames({}, frameCount) + Range(left, right)
      ensures free == CutNodes(left, right, maxOrder)
    {
      NothingFree(frameCount);
      CutProper(left, right, maxOrder);
      FramesDetermineBlocks(free, CutNodes(left, right, maxOrder), frameCount);
    }
  }
}
