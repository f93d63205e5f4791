/**
 The two names of a block: its first frame and order, as kept in a FrameChunk
 (kernel/memory/Frame.hpp), and its tree node, from which the bit numbering of
 kernel/memory/BuddyManager.hpp is derived.
 */
module BuddyBlocks {
  import opened BuddyTree
  import opened Orders

  /** Node `a` of a tree with 2^m leaves is the block of 2^order frames beginning at `start`. */
  ghost predicate IsNode(a: nat, start: nat, order: nat, m: nat) {
    order <= m && Pow2(m - order) <= a < 2 * Pow2(m - order) && start + Pow2(m) == ShiftLeft(a, order)
  }

  predicate Within(start: nat, order: nat, f: nat) {
    start <= f < start + Pow2(order)
  }

  /** The frames of the block beginning at `start`. */
  function Interval(start: nat, order: nat): set<nat> {
    set f: nat | f < start + Pow2(order) && Within(start, order, f)
  }

  /** Every aligned block that starts in memory has a node, and lies in memory. */
  lemma NodeExists(start: nat, order: nat, m: nat) returns (a: nat)
    requires order <= m && Aligned(start, order) && start < Pow2(m)
    ensures IsNode(a, start, order, m) && start + Pow2(order) <= Pow2(m)
  {
    var i, q := ShiftRight(start, order), Pow2(m - order);
    AlignedIsShift(start, order);
    ShiftLeftPow2(m - order, order);
    if q < i {
      ShiftLeftMonotone(q, i, order);
    }
    assert i < q;
    ShiftLeftMonotone(i, q, order);
    a := i + q;
    ShiftLeftSum(i, q, order);
  }

  lemma {:induction false} ShiftLeftSum(x: nat, y: nat, k: nat)
    ensures ShiftLeft(x + y, k) == ShiftLeft(x, k) + ShiftLeft(y, k)
    decreases k
  {
    if k > 0 {
      ShiftLeftSum(2 * x, 2 * y, k - 1);
    }
  }

  lemma NodeInRange(a: nat, start: nat, order: nat, m: nat)
    requires IsNode(a, start, order, m)
    ensures 0 < a < 2 * Pow2(m) && start + Pow2(order) <= Pow2(m)
    ensures order == m <==> a == 1
    ensures order == 0 <==> a >= Pow2(m)
    ensures Aligned(start, order)
  {
    NodeLevel(a, order, m);
    var q := Pow2(m - order);
    var i := a - q;
    ShiftLeftPow2(m - order, order);
    ShiftLeftSum(i, q, order);
    assert start == ShiftLeft(i, order);
    ShiftLeftAligned(i, order);
    ShiftLeftMonotone(i, q, order);
  }

  lemma NodeLevel(a: nat, order: nat, m: nat)
    requires order <= m && Pow2(m - order) <= a < 2 * Pow2(m - order)
    ensures 0 < a < 2 * Pow2(m)
    ensures order == m <==> a == 1
    ensures order == 0 <==> a >= Pow2(m)
  {
    Pow2Monotone(m - order, m);
    if order > 0 {
      Pow2Monotone(m - order, m - 1);
    }
    if order < m {
      Pow2Monotone(1, m - order);
    }
  }

  lemma NodeUnique(a: nat, b: nat, start: nat, order: nat, m: nat)
    requires IsNode(a, start, order, m) && IsNode(b, start, order, m)
    ensures a == b
  {
    if a < b {
      ShiftLeftMonotone(a, b, order);
    } else if b < a {
      ShiftLeftMonotone(b, a, order);
    }
  }

  lemma BlockUnique(a: nat, start: nat, order: nat, start': nat, order': nat, m: nat)
    requires IsNode(a, start, order, m) && IsNode(a, start', order', m)
    ensures start == start' && order == order'
  {
    if order < order' {
      Pow2Monotone(m - order', m - order);
    } else if order' < order {
      Pow2Monotone(m - order, m - order');
    }
  }

  /** The buddy and the block above, in both naming schemes: first for a left half ... */
  lemma LeftUp(a: nat, start: nat, order: nat, m: nat)
    requires IsNode(a, start, order, m) && a % 2 == 0
    ensures order < m
    ensures IsNode(a / 2, start, order + 1, m) && IsNode(a + 1, start + Pow2(order), order, m)
  {
    if order == m {
      NodeLevel(a, order, m);
    }
    assert Pow2(m - order) == 2 * Pow2(m - (order + 1));
    ShiftLeftSuccessor(a, order);
    ShiftTwice(a, order);
  }

  /** ... and then for a right half. */
  lemma RightUp(a: nat, start: nat, order: nat, m: nat)
    requires IsNode(a, start, order, m) && a % 2 == 1 && a > 1
    ensures order < m && Pow2(order) <= start
    ensures IsNode(a / 2, start - Pow2(order), order + 1, m) && IsNode(a - 1, start - Pow2(order), order, m)
  {
    RightBuddy(a, start, order, m);
    LeftUp(a - 1, start - Pow2(order), order, m);
    assert a / 2 == (a - 1) / 2;
  }

  lemma RightBuddy(a: nat, start: nat, order: nat, m: nat)
    requires IsNode(a, start, order, m) && a % 2 == 1 && a > 1
    ensures Pow2(order) <= start && IsNode(a - 1, start - Pow2(order), order, m)
  {
    NodeLevel(a, order, m);
    assert Pow2(m - order) == 2 * Pow2(m - (order + 1));
    NodeStart(a - 1, m - order, m);
    ShiftLeftSuccessor(a - 1, order);
  }

  lemma NodeStart(a: nat, k: nat, m: nat)
    requires k <= m && Pow2(k) <= a
    ensures ShiftLeft(a, m - k) >= Pow2(m)
  {
    ShiftLeftPow2(k, m - k);
    if Pow2(k) < a {
      ShiftLeftMonotone(Pow2(k), a, m - k);
    }
  }

  lemma ShiftTwice(a: nat, k: nat)
    requires a % 2 == 0
    ensures ShiftLeft(a / 2, k + 1) == ShiftLeft(a, k)
  {
    assert 2 * (a / 2) == a;
  }

  lemma NodeDown(a: nat, start: nat, order: nat, m: nat)
    requires IsNode(a, start, order, m) && order > 0
    ensures IsNode(2 * a, start, order - 1, m)
    ensures IsNode(2 * a + 1, start + Pow2(order - 1), order - 1, m)
  {
    ShiftLeftSuccessor(2 * a, order - 1);
    assert Pow2(m - order + 1) == 2 * Pow2(m - order);
  }

  /** The frames below a node are the frames of its block. */
  lemma {:induction false} NodeFrames(a: nat, start: nat, order: nat, m: nat)
    requires IsNode(a, start, order, m)
    ensures FramesOf(a, Pow2(m)) == Interval(start, order)
    decreases order
  {
    var n := Pow2(m);
    NodeInRange(a, start, order, m);
    if order == 0 {
      LeavesAreAlone(a, n);
      assert FramesOf(a, n) == {start};
    } else {
      NodeDown(a, start, order, m);
      NodeFrames(2 * a, start, order - 1, m);
      NodeFrames(2 * a + 1, start + Pow2(order - 1), order - 1, m);
      FramesOfHalves(a, n);
      assert Interval(start, order) ==
             Interval(start, order - 1) + Interval(start + Pow2(order - 1), order - 1);
    }
  }

  /** A block contains its first frame. */
  lemma StartInNode(a: nat, start: nat, order: nat, m: nat)
    requires IsNode(a, start, order, m)
    ensures Covers(a, Pow2(m) + start)
  {
    NodeInRange(a, start, order, m);
    NodeFrames(a, start, order, m);
    assert Within(start, order, start);
    assert start in Interval(start, order);
    assert In(a, Pow2(m), start);
  }

  lemma FramesOfHalves(a: nat, n: nat)
    requires 0 < a < n
    ensures FramesOf(a, n) == FramesOf(2 * a, n) + FramesOf(2 * a + 1, n)
  {
    forall f: nat | f < n
      ensures In(a, n, f) <==> In(2 * a, n, f) || In(2 * a + 1, n, f)
    {
      CoversHalves(a, n + f);
    }
  }

  // ----- bit numbering

  /** `bit_index`: (frame_index + frame_count) >> (order + 1). */
  function BitIndex(frameCount: nat, start: nat, order: nat): nat {
    ShiftRight(start + frameCount, order + 1)
  }

  /** The index of a block's bit is the node above the block. */
  lemma BitIndexIsParent(a: nat, start: nat, order: nat, m: nat)
    requires IsNode(a, start, order, m)
    ensures BitIndex(Pow2(m), start, order) == a / 2
  {
    ShiftLeftSuccessor(a / 2 * 2, order);
    QuotientUnique(start + Pow2(m), order + 1, a / 2);
  }

  // ----- chunks and nodes

  /** `FrameChunk`: 2^order frames beginning at frame `start`. */
  datatype FrameChunk = FrameChunk(start: nat, order: nat)

  function NodeOf(c: FrameChunk, m: nat): nat {
    ShiftRight(c.start + Pow2(m), c.order)
  }

  function ChunkOf(a: nat, m: nat): (c: FrameChunk)
    requires 0 < a < 2 * Pow2(m)
    ensures IsNode(a, c.start, c.order, m)
  {
    NodeOrder(a, m);
    NodeStart(a, FloorOrder(a), m);
    var order := m - FloorOrder(a);
    FrameChunk(ShiftLeft(a, order) - Pow2(m), order)
  }

  lemma NodeOrder(a: nat, m: nat)
    requires 0 < a < 2 * Pow2(m)
    ensures FloorOrder(a) <= m
  {
    if FloorOrder(a) > m {
      Pow2Monotone(m + 1, FloorOrder(a));
    }
  }

  /** The two names agree. */
  lemma NodeNames(a: nat, c: FrameChunk, m: nat)
    requires IsNode(a, c.start, c.order, m)
    ensures 0 < a < 2 * Pow2(m) && NodeOf(c, m) == a && ChunkOf(a, m) == c
  {
    NodeInRange(a, c.start, c.order, m);
    QuotientUnique(c.start + Pow2(m), c.order, a);
    BlockUnique(a, c.start, c.order, ChunkOf(a, m).start, ChunkOf(a, m).order, m);
  }
}
