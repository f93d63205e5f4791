/**
 The numbering of "can merge" bits: `bit_index` of kernel/memory/BuddyManager.hpp.
 */
module BuddyNumbering {
  import opened BuddyBlocks
  import opened BuddyCanonical
  import opened BuddyTree
  import opened CMath
  import opened Orders

  ghost predicate IsBlock(c: FrameChunk, m: nat) {
    c.order < m && Aligned(c.start, c.order) && c.start < Pow2(m)
  }

  /** With 2^m frames two blocks share a bit exactly when they are one block or buddies. */
  lemma SameBitIff(c: FrameChunk, d: FrameChunk, m: nat)
    requires IsBlock(c, m) && IsBlock(d, m)
    ensures BitIndex(Pow2(m), c.start, c.order) == BitIndex(Pow2(m), d.start, d.order) <==> c == d || c == Twin(d)
  {
    hide Pow2, ShiftLeft, Aligned, BitIndex, IsNode, Twin;
    var a := NodeExists(c.start, c.order, m);
    var b := NodeExists(d.start, d.order, m);
    NodeInRange(a, c.start, c.order, m);
    NodeInRange(b, d.start, d.order, m);
    BitIndexIsParent(a, c.start, c.order, m);
    BitIndexIsParent(b, d.start, d.order, m);
    NodeAbove(b, d, m);
    assert a / 2 == b / 2 <==> a == b || a == Buddy(b);
    if a == b {
      BlockUnique(a, c.start, c.order, d.start, d.order, m);
    } else if a == Buddy(b) {
      BlockUnique(a, c.start, c.order, Twin(d).start, Twin(d).order, m);
    }
    if c == d {
      NodeUnique(a, b, c.start, c.order, m);
    } else if c == Twin(d) {
      NodeUnique(a, Buddy(b), c.start, c.order, m);
    }
  }

  /** The bit lies in the bitmap, is not bit 0, and the left buddy can be recovered from it. */
  lemma BitInBitmap(c: FrameChunk, m: nat)
    requires IsBlock(c, m)
    ensures var index := BitIndex(Pow2(m), c.start, c.order);
            && 0 < index < Pow2(m)
            && index / 32 < CeilDivide(Pow2(m), 4)
            && ShiftLeft(index, c.order + 1) == Pow2(m) + (if Aligned(c.start,
                c.order + 1) then c.start else Twin(c).start)
  {
    hide Pow2, ShiftLeft, Aligned, BitIndex, Twin;
    var a := NodeExists(c.start, c.order, m);
    NodeInRange(a, c.start, c.order, m);
    BitIndexIsParent(a, c.start, c.order, m);
    NodeAbove(a, c, m);
    AboveStart(a, c, m);
  }

  lemma AboveStart(a: nat, c: FrameChunk, m: nat)
    requires IsNode(a, c.start, c.order, m) && a > 1 && IsNode(a / 2, Above(c).start, Above(c).order, m)
    ensures ShiftLeft(a / 2,
                      c.order + 1) == Pow2(m) + (if Aligned(c.start, c.order + 1) then c.start else Twin(c).start)
  {
  }

  /** `bit_index` gives the halves of every block inside memory the same bit. */
  ghost predicate PairsBuddies(frameCount: nat) {
    forall start: nat, order: nat :: Aligned(start, order + 1) && start + Pow2(order + 1) <= frameCount ==>
      BitIndex(frameCount, start, order) == BitIndex(frameCount, start + Pow2(order), order)
  }

  /** It does so exactly for powers of two. */
  lemma PairsBuddiesIff(frameCount: nat)
    requires frameCount > 0
    ensures PairsBuddies(frameCount) <==> frameCount == Pow2(CeilOrder(frameCount))
  {
    var m := CeilOrder(frameCount);
    if frameCount == Pow2(m) {
      forall start: nat, order: nat | Aligned(start, order + 1) && start + Pow2(order + 1) <= frameCount
        ensures BitIndex(frameCount, start, order) == BitIndex(frameCount, start + Pow2(order), order)
      {
        HalvesPaired(start, order, m);
      }
    } else {
      var v := LowestBit(frameCount);
      OddMultipleSplits(frameCount, v);
      assert Aligned(0, v + 1) by {
        ShiftLeftAligned(0, v + 1);
        ShiftLeftIsProduct(0, v + 1);
      }
      assert 0 + Pow2(v + 1) <= frameCount;
      assert BitIndex(frameCount, 0, v) != BitIndex(frameCount, 0 + Pow2(v), v);
    }
  }

  lemma HalvesPaired(start: nat, order: nat, m: nat)
    requires Aligned(start, order + 1) && start + Pow2(order + 1) <= Pow2(m)
    ensures BitIndex(Pow2(m), start, order) == BitIndex(Pow2(m), start + Pow2(order), order)
  {
    hide ShiftLeft, Aligned, BitIndex;
    if m < order + 1 {
      Pow2Monotone(m, order + 1);
    }
    var b := NodeExists(start, order + 1, m);
    NodeDown(b, start, order + 1, m);
    BitIndexIsParent(2 * b, start, order, m);
    BitIndexIsParent(2 * b + 1, start + Pow2(order), order, m);
  }

  /** The position of the lowest bit of a number that is not a power of two. */
  lemma {:induction false} LowestBit(n: nat) returns (v: nat)
    requires n > 0
    ensures Aligned(n, v) && !Aligned(n, v + 1)
    ensures n != Pow2(CeilOrder(n)) ==> Pow2(v + 1) <= n
  {
    if n % 2 == 1 {
      v := 0;
      CeilOrderOfPow2(0);
    } else {
      v := LowestBit(n / 2);
      v := v + 1;
      if n / 2 == Pow2(CeilOrder(n / 2)) {
        CeilOrderOfPow2(CeilOrder(n / 2) + 1);
      }
    }
  }

  /** At the order of its lowest bit an odd multiple separates the first two blocks. */
  lemma OddMultipleSplits(n: nat, v: nat)
    requires Aligned(n, v) && !Aligned(n, v + 1)
    ensures BitIndex(n, 0, v) != BitIndex(n, Pow2(v), v)
  {
    ShiftRightStep(n, v);
    ShiftRightStep(n + Pow2(v), v);
    AlignedIsShift(n, v);
    ShiftRightOdd(n, v);
    ShiftLeftSuccessor(ShiftRight(n, v), v);
    QuotientUnique(n + Pow2(v), v, ShiftRight(n, v) + 1);
  }

  lemma {:induction false} ShiftRightOdd(n: nat, v: nat)
    requires Aligned(n, v) && !Aligned(n, v + 1)
    ensures ShiftRight(n, v) % 2 == 1
  {
    if v > 0 {
      ShiftRightOdd(n / 2, v - 1);
    }
  }
}
