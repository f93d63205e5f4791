/**
 How `free_range` (kernel/memory/BuddyManager.cpp, lines 108-125) cuts a range of frames into blocks.
 */
module BuddyRange {
  import opened BuddyBlocks
  import opened BuddyLists
  import opened BuddyTree
  import opened Orders

  predicate Between(left: nat, right: nat, f: nat) {
    left <= f <= right
  }

  /** The frames left..right, both included. */
  function Range(left: nat, right: nat): set<nat> {
    set f: nat | f <= right && Between(left, right, f)
  }

  /** Lines 117-119: the order is lowered until the block is aligned. */
  function Lower(left: nat, order: nat): (k: nat)
    ensures k <= order && Aligned(left, k)
    ensures forall j :: k < j <= order ==> !Aligned(left, j)
  {
    if Aligned(left, order) then order else Lower(left, order - 1)
  }

  /** Lines 115-119: the order of the next block, for the `length` frames that begin at `left`. */
  function PieceOrder(left: nat, length: nat): (k: nat)
    requires length > 0
    ensures Aligned(left, k) && Pow2(k) <= length && k <= FloorOrder(length)
  {
    var start := if FloorOrder(length) <= CeilOrder(left) then FloorOrder(length) else CeilOrder(left);
    Pow2Monotone(Lower(left, start), FloorOrder(length));
    Lower(left, start)
  }

  /** The blocks that a range is cut into, from left to right. */
  function Cut(left: nat, right: nat): seq<FrameChunk>
    decreases right + 1 - left
  {
    if left > right then []
    else
      var k := PieceOrder(left, right - left + 1);
      [FrameChunk(left, k)] + Cut(left + Pow2(k), right)
  }

  /** The next block is as long as the remaining length allows. */
  predicate LengthLimited(left: nat, right: nat)
    requires left <= right
  {
    PieceOrder(left, right - left + 1) == FloorOrder(right - left + 1)
  }

  lemma {:induction false} AlignedSize(x: nat, k: nat)
    requires Aligned(x, k) && x > 0
    ensures Pow2(k) <= x
  {
    if k > 0 {
      AlignedSize(x / 2, k - 1);
    }
  }

  lemma {:induction false} AlignedLess(x: nat, j: nat, k: nat)
    requires Aligned(x, k) && j <= k
    ensures Aligned(x, j)
  {
    if j > 0 {
      AlignedLess(x / 2, j - 1, k - 1);
    }
  }

  lemma {:induction false} AlignedStep(x: nat, j: nat, k: nat)
    requires Aligned(x, j) && j <= k
    ensures Aligned(x + Pow2(k), j)
  {
    if j > 0 {
      assert (x + Pow2(k)) / 2 == x / 2 + Pow2(k - 1);
      AlignedStep(x / 2, j - 1, k - 1);
    }
  }

  /** Past frame 0, a block that the length does not limit is limited by the alignment of its start. */
  lemma AlignmentLimited(left: nat, right: nat)
    requires 0 < left <= right && !LengthLimited(left, right)
    ensures !Aligned(left, PieceOrder(left, right - left + 1) + 1)
  {
    var k := PieceOrder(left, right - left + 1);
    if Aligned(left, k + 1) {
      AlignedSize(left, k + 1);
    }
  }

  lemma {:induction false} AlignedNext(x: nat, k: nat)
    requires Aligned(x, k) && !Aligned(x, k + 1)
    ensures Aligned(x + Pow2(k), k + 1)
  {
    if k > 0 {
      AlignedNext(x / 2, k - 1);
      assert (x + Pow2(k)) / 2 == x / 2 + Pow2(k - 1);
    }
  }

  lemma OrderBounds(x: nat, k: nat)
    ensures 0 < x < Pow2(k) ==> FloorOrder(x) < k
    ensures Pow2(k) <= x ==> k <= CeilOrder(x)
  {
    if k <= FloorOrder(x) {
      Pow2Monotone(k, FloorOrder(x));
    }
    if CeilOrder(x) < k {
      Pow2Monotone(CeilOrder(x), k);
    }
  }

  /** An aligned start lets the length decide. */
  lemma PieceIsFloor(left: nat, length: nat)
    requires length > 0 && Aligned(left, FloorOrder(length)) && FloorOrder(length) <= CeilOrder(left)
    ensures PieceOrder(left, length) == FloorOrder(length)
  {
  }

  /** Once the length limits a block it limits all that follow, and they get smaller. */
  lemma Falling(left: nat, right: nat, k: nat)
    requires left <= right && k == PieceOrder(left, right - left + 1) && LengthLimited(left, right)
    requires left + Pow2(k) <= right
    ensures LengthLimited(left + Pow2(k), right)
    ensures PieceOrder(left + Pow2(k), right - (left + Pow2(k)) + 1) < k
  {
    hide PieceOrder, FloorOrder, CeilOrder, Aligned;
    var next := left + Pow2(k);
    var length := right - next + 1;
    var f := FloorOrder(length);
    OrderBounds(length, k);
    OrderBounds(next, k);
    AlignedLess(left, f, k);
    AlignedStep(left, f, k);
    PieceIsFloor(next, length);
  }

  /** While alignment limits the blocks they get larger. */
  lemma Rising(left: nat, right: nat, k: nat)
    requires 0 < left <= right && k == PieceOrder(left, right - left + 1) && !LengthLimited(left, right)
    requires left + Pow2(k) <= right && !LengthLimited(left + Pow2(k), right)
    ensures PieceOrder(left + Pow2(k), right - (left + Pow2(k)) + 1) > k
  {
    var next := left + Pow2(k);
    var k' := PieceOrder(next, right - next + 1);
    hide PieceOrder, Pow2, FloorOrder, LengthLimited, Aligned;
    AlignmentLimited(left, right);
    AlignedNext(left, k);
    AlignmentLimited(next, right);
    if k' <= k {
      AlignedLess(next, k' + 1, k + 1);
    }
  }

  ghost predicate Ascending(s: seq<FrameChunk>) {
    forall i, j :: 0 <= i < j < |s| ==> s[i].order < s[j].order
  }

  ghost predicate Descending(s: seq<FrameChunk>) {
    forall i, j :: 0 <= i < j < |s| ==> s[i].order > s[j].order
  }

  lemma {:induction false} CutBounded(left: nat, right: nat)
    requires left <= right
    ensures forall c :: c in Cut(left, right) ==> c.order <= FloorOrder(right - left + 1)
    decreases right - left
  {
    hide PieceOrder, Pow2, FloorOrder;
    var k := PieceOrder(left, right - left + 1);
    if left + Pow2(k) <= right {
      CutBounded(left + Pow2(k), right);
      FloorOrderMonotone(right - (left + Pow2(k)) + 1, right - left + 1);
    }
  }

  /** From the first block that the length limits, orders fall strictly. */
  lemma {:induction false} CutFalls(left: nat, right: nat)
    requires left <= right && LengthLimited(left, right)
    ensures Descending(Cut(left, right))
    decreases right - left
  {
    hide PieceOrder, Pow2, FloorOrder, Aligned;
    var k := PieceOrder(left, right - left + 1);
    var next := left + Pow2(k);
    if next <= right {
      Falling(left, right, k);
      CutFalls(next, right);
      CutBounded(next, right);
      var cut, rest := Cut(left, right), Cut(next, right);
      assert forall i :: 0 < i < |cut| ==> cut[i] == rest[i - 1] && rest[i - 1] in rest;
    }
  }

  /** The blocks of a range past frame 0 rise strictly to a peak and fall strictly after it. */
  lemma {:induction false} CutShape(left: nat, right: nat) returns (peak: nat)
    requires 0 < left
    ensures peak <= |Cut(left, right)|
    ensures Ascending(Cut(left, right)[..peak]) && Descending(Cut(left, right)[peak..])
    ensures peak == 0 <==> left > right || LengthLimited(left, right)
    decreases right + 1 - left
  {
    hide PieceOrder, Pow2, FloorOrder, LengthLimited, Aligned;
    var cut := Cut(left, right);
    if left > right {
      return 0;
    }
    if LengthLimited(left, right) {
      CutFalls(left, right);
      assert cut[0..] == cut;
      return 0;
    }
    var k := PieceOrder(left, right - left + 1);
    var next := left + Pow2(k);
    var rest := Cut(next, right);
    assert cut == [FrameChunk(left, k)] + rest;
    var peak' := CutShape(next, right);
    if peak' > 0 {
      Rising(left, right, k);
      assert forall i :: 0 <= i < peak' ==> rest[..peak'][i].order >= rest[0].order;
    }
    peak := peak' + 1;
    assert cut[peak..] == rest[peak'..];
    assert forall i :: 0 < i < peak ==> cut[..peak][i] == rest[..peak'][i - 1];
  }

  /** So a range is cut into at most two blocks of each order. */
  lemma CutCount(left: nat, right: nat)
    requires 0 < left <= right
    ensures |Cut(left, right)| <= 2 * (FloorOrder(right - left + 1) + 1)
  {
    var peak := CutShape(left, right);
    CutBounded(left, right);
    var cut, f := Cut(left, right), FloorOrder(right - left + 1);
    assert forall i :: 0 <= i < |cut| ==> cut[i] in cut;
    AscendingCount(cut[..peak], f);
    DescendingCount(cut[peak..], f);
  }

  lemma {:induction false} AscendingCount(s: seq<FrameChunk>, f: nat)
    requires Ascending(s) && forall i :: 0 <= i < |s| ==> s[i].order <= f
    ensures |s| <= f + 1
    ensures s != [] ==> s[|s| - 1].order >= |s| - 1
  {
    if |s| > 1 {
      var t := s[..|s| - 1];
      assert t[|t| - 1].order < s[|s| - 1].order;
      AscendingCount(t, f);
    }
  }

  lemma {:induction false} DescendingCount(s: seq<FrameChunk>, f: nat)
    requires Descending(s) && forall i :: 0 <= i < |s| ==> s[i].order <= f
    ensures |s| <= f + 1
    ensures s != [] ==> s[0].order >= |s| - 1
  {
    if |s| > 1 {
      assert s[1].order < s[0].order;
      DescendingCount(s[1..], f);
    }
  }

  lemma FloorOrderMonotone(x: nat, y: nat)
    requires x <= y
    ensures FloorOrder(x) <= FloorOrder(y)
  {
    if x > 1 {
      FloorOrderMonotone(x / 2, y / 2);
    }
  }

  // ----- the blocks of a range as a set of tree nodes

  ghost function CutNodes(left: nat, right: nat, m: nat): set<nat>
    decreases right + 1 - left
  {
    if left > right then {}
    else
      var k := PieceOrder(left, right - left + 1);
      {NodeOf(FrameChunk(left, k), m)} + CutNodes(left + Pow2(k), right, m)
  }

  /** A block of the range names a node, and lies in the range. */
  lemma PieceNode(left: nat, right: nat, m: nat) returns (a: nat)
    requires left <= right < Pow2(m)
    ensures var k := PieceOrder(left, right - left + 1);
            a == NodeOf(FrameChunk(left, k), m) && IsNode(a, left, k, m) && left + Pow2(k) <= right + 1
  {
    var k := PieceOrder(left, right - left + 1);
    if k > m {
      Pow2Monotone(m, k);
    }
    a := NodeExists(left, k, m);
    NodeNames(a, FrameChunk(left, k), m);
  }

  lemma RangeStep(left: nat, right: nat, k: nat)
    requires left + Pow2(k) <= right + 1
    ensures Range(left, right) == Interval(left, k) + Range(left + Pow2(k), right)
    ensures Interval(left, k) !! Range(left + Pow2(k), right)
  {
    var next := left + Pow2(k);
    assert forall f :: f in Interval(left, k) <==> f >= 0 && Within(left, k, f);
    assert forall f: nat :: f in Range(left, right) <==> Between(left, right, f);
    assert forall f: nat :: f in Range(next, right) <==> Between(next, right, f);
    forall f: nat
      ensures Between(left, right, f) <==> Within(left, k, f) || Between(next, right, f)
    {
    }
  }

  lemma EmptyRange(left: nat, right: nat)
    requires left > right
    ensures Range(left, right) == {}
  {
  }

  /** The blocks of a range past frame 0 are separate, hold no two buddies, and cover exactly the range. */
  lemma {:induction false} CutProper(left: nat, right: nat, m: nat)
    requires 0 < left && right < Pow2(m)
    ensures Proper(CutNodes(left, right, m), Pow2(m))
    ensures Frames(CutNodes(left, right, m), Pow2(m)) == Range(left, right)
    decreases right + 1 - left
  {
    hide PieceOrder, Pow2, FloorOrder, Aligned, ShiftLeft, ShiftRight, Proper;
    if left > right {
      NothingFree(Pow2(m));
      return;
    }
    var k := PieceOrder(left, right - left + 1);
    var next := left + Pow2(k);
    var a := PieceNode(left, right, m);
    CutProper(next, right, m);
    var rest := CutNodes(next, right, m);
    RangeStep(left, right, k);
    NodeInRange(a, left, k, m);
    NodeFrames(a, left, k, m);
    ProperInTree(rest, Pow2(m));
    FramesApart(rest, Pow2(m), a);
    BuddyNotCut(left, right, m);
    Put(rest, Pow2(m), a);
    assert CutNodes(left, right, m) == rest + {a};
  }

  lemma NothingFree(n: nat)
    ensures Frames({}, n) == {} && Proper({}, n)
  {
    forall f: nat | f < n
      ensures !Free({}, n, f)
    {
      if Free({}, n, f) {
        var a := HasWitness({}, n + f);
      }
    }
  }

  /** The buddy of the first block is not among the later ones. */
  lemma BuddyNotCut(left: nat, right: nat, m: nat)
    requires 0 < left <= right < Pow2(m)
    ensures var k := PieceOrder(left, right - left + 1);
            var a := NodeOf(FrameChunk(left, k), m);
            a > 0 && Buddy(a) !in CutNodes(left + Pow2(k), right, m)
  {
    hide PieceOrder, Pow2, FloorOrder, LengthLimited, Aligned, ShiftLeft;
    var k := PieceOrder(left, right - left + 1);
    var a := PieceNode(left, right, m);
    var next := left + Pow2(k);
    NodeInRange(a, left, k, m);
    if Buddy(a) in CutNodes(next, right, m) {
      var c := CutMember(next, right, m, Buddy(a));
      NodeInRange(Buddy(a), c.start, c.order, m);
      if a % 2 == 0 {
        LeftPiece(left, right, a, k, m);
        LeftUp(a, left, k, m);
        BlockUnique(a + 1, c.start, c.order, next, k, m);
      } else {
        RightUp(a, left, k, m);
        BlockUnique(a - 1, c.start, c.order, left - Pow2(k), k, m);
      }
    }
  }

  /** A block that is a left half is followed by a smaller one. */
  lemma LeftPiece(left: nat, right: nat, a: nat, k: nat, m: nat)
    requires 0 < left <= right && k == PieceOrder(left, right - left + 1) && IsNode(a, left, k, m) && a % 2 == 0
    ensures left + Pow2(k) <= right ==> PieceOrder(left + Pow2(k), right - (left + Pow2(k)) + 1) < k
  {
    hide PieceOrder, Pow2, FloorOrder, LengthLimited, Aligned, ShiftLeft;
    LeftUp(a, left, k, m);
    NodeInRange(a / 2, left, k + 1, m);
    if !LengthLimited(left, right) {
      AlignmentLimited(left, right);
    }
    if left + Pow2(k) <= right {
      Falling(left, right, k);
    }
  }

  lemma {:induction false} CutMember(left: nat, right: nat, m: nat, b: nat) returns (c: FrameChunk)
    requires right < Pow2(m) && b in CutNodes(left, right, m)
    ensures left <= right && IsNode(b, c.start, c.order, m) && c.start >= left
    ensures c.start == left ==> c.order == PieceOrder(left, right - left + 1)
    decreases right + 1 - left
  {
    hide PieceOrder, Pow2, FloorOrder, Aligned, ShiftLeft, ShiftRight;
    var k := PieceOrder(left, right - left + 1);
    var a := PieceNode(left, right, m);
    if a == b {
      c := FrameChunk(left, k);
    } else {
      c := CutMember(left + Pow2(k), right, m, b);
    }
  }

  // ----- the lists of a range

  /** The chunks of an order, in their order. */
  function OfOrder(s: seq<FrameChunk>, k: nat): (r: seq<FrameChunk>)
    ensures forall c :: c in r <==> c in s && c.order == k
  {
    if s == [] then []
    else
      var rest := OfOrder(s[..|s| - 1], k);
      assert forall c :: c in s <==> c in s[..|s| - 1] || c == s[|s| - 1];
      if s[|s| - 1].order == k then rest + [s[|s| - 1]] else rest
  }

  lemma OfOrderAppend(s: seq<FrameChunk>, c: FrameChunk, k: nat)
    ensures OfOrder(s + [c], k) == if c.order == k then OfOrder(s, k) + [c] else OfOrder(s, k)
  {
    assert (s + [c])[..|s|] == s;
  }

  lemma {:induction false} CutNamed(left: nat, right: nat, m: nat, c: FrameChunk)
    requires right < Pow2(m) && c in Cut(left, right)
    ensures c.start >= left && NodeOf(c, m) in CutNodes(left, right, m)
    ensures IsNode(NodeOf(c, m), c.start, c.order, m)
    decreases right + 1 - left
  {
    hide PieceOrder, IsNode;
    var k := PieceOrder(left, right - left + 1);
    if c == FrameChunk(left, k) {
      var a := PieceNode(left, right, m);
    } else {
      CutNamed(left + Pow2(k), right, m, c);
    }
  }

  /** Past frame 0, no two blocks of a range are buddies. */
  lemma CutNoMates(left: nat, right: nat, m: nat, c: FrameChunk)
    requires 0 < left && right < Pow2(m) && c in Cut(left, right)
    ensures Mate(c) !in Cut(left, right)
  {
    hide Cut, CutNodes, Mate, IsNode;
    var a := NodeOf(c, m);
    CutNamed(left, right, m, c);
    NodeInRange(a, c.start, c.order, m);
    CutProper(left, right, m);
    MateNode(a, c, m);
    if Mate(c) in Cut(left, right) {
      CutNamed(left, right, m, Mate(c));
      MateOrder(c);
      NodeNames(Buddy(a), Mate(c), m);
    }
  }

  lemma MateOrder(c: FrameChunk)
    ensures Mate(c).order == c.order
  {
  }

  /** The next block of a range finds no buddy among the blocks in front of it. */
  lemma NextOfCut(done: seq<FrameChunk>, start: nat, left: nat, right: nat, m: nat, c: FrameChunk)
    requires 0 < start && left <= right < Pow2(m) && Cut(start, right) == done + Cut(left, right)
    requires c == FrameChunk(left, PieceOrder(left, right - left + 1))
    ensures Cut(start, right) == done + [c] + Cut(left + Pow2(c.order), right)
    ensures Mate(c) !in done
  {
    hide PieceOrder, Mate;
    assert Cut(left, right) == [c] + Cut(left + Pow2(c.order), right);
    hide Cut;
    InSum(done, [c], Cut(left + Pow2(c.order), right));
    CutNoMates(start, right, m, c);
  }

  lemma InSum(a: seq<FrameChunk>, b: seq<FrameChunk>, c: seq<FrameChunk>)
    ensures a + (b + c) == a + b + c
    ensures forall x :: x in a || x in b ==> x in a + (b + c)
  {
  }

  /** So it joins the end of its list. */
  lemma NextInOrder(lists: seq<seq<FrameChunk>>, done: seq<FrameChunk>, m: nat, c: FrameChunk)
    requires |lists| == m + 1 && c.order <= m && Mate(c) !in done
    requires forall k :: 0 <= k <= m ==> lists[k] == OfOrder(done, k)
    ensures forall k :: 0 <= k <= m ==> FreedLists(lists, c)[k] == OfOrder(done + [c], k)
  {
    hide Mate, FreedLists;
    FreedAlone(lists, c);
    forall k | 0 <= k <= m
      ensures FreedLists(lists, c)[k] == OfOrder(done + [c], k)
    {
      OfOrderAppend(done, c, k);
    }
  }

  lemma FreedAlone(lists: seq<seq<FrameChunk>>, c: FrameChunk)
    requires c.order < |lists| && Mate(c) !in lists[c.order]
    ensures FreedLists(lists, c) == lists[c.order := lists[c.order] + [c]]
  {
  }

  lemma EmptyCut(left: nat, right: nat)
    requires left > right
    ensures Cut(left, right) == []
  {
  }

  // ----- ranges that reach past the end of memory

  /** A block that begins in memory ends in memory. */
  lemma PieceBelow(left: nat, right: nat, m: nat)
    requires left <= right && left < Pow2(m)
    ensures var k := PieceOrder(left, right - left + 1);
            k <= m && left + Pow2(k) <= Pow2(m)
  {
    var k := PieceOrder(left, right - left + 1);
    if k > m {
      Pow2Monotone(m, k);
      if left > 0 {
        AlignedSize(left, k);
      }
    }
    var a := NodeExists(left, k, m);
  }

  /** Past the end, a block is larger than memory just when both ends of the range allow it. */
  lemma PieceAbove(left: nat, right: nat, m: nat)
    requires Pow2(m) <= left <= right
    ensures var k := PieceOrder(left, right - left + 1);
            && (Aligned(left, m + 1) && Aligned(right + 1, m + 1) ==> k > m)
            && (k > m ==> Aligned(left, m + 1) && Aligned(left + Pow2(k), m + 1))
  {
    var k := PieceOrder(left, right - left + 1);
    hide PieceOrder, Aligned, Pow2;
    if k > m {
      AlignedLess(left, m + 1, k);
      AlignedStep(left, m + 1, k);
    }
    if Aligned(left, m + 1) && Aligned(right + 1, m + 1) {
      AlignedApart(left, right + 1, m + 1);
      AlignedSize(left, m + 1);
      PieceAtLeast(left, right - left + 1, m + 1);
    }
  }

  lemma PieceAtLeast(left: nat, length: nat, k: nat)
    requires length > 0 && Aligned(left, k) && Pow2(k) <= left && Pow2(k) <= length
    ensures k <= PieceOrder(left, length)
  {
    hide Aligned, Pow2;
    OrderBounds(left, k);
    if FloorOrder(length) < k {
      Pow2Monotone(FloorOrder(length) + 1, k);
    }
  }

  lemma {:induction false} AlignedApart(x: nat, y: nat, k: nat)
    requires x < y && Aligned(x, k) && Aligned(y, k)
    ensures x + Pow2(k) <= y
  {
    if k > 0 {
      AlignedApart(x / 2, y / 2, k - 1);
    }
  }

  /** Past the end, both the slot of a block and the one of its buddy are outside `frames`. */
  lemma PastEnd(left: nat, order: nat, m: nat)
    requires Pow2(m) <= left && order <= m
    ensures ShiftLeft(BitIndex(Pow2(m), left, order), order + 1) - Pow2(m) >= Pow2(m)
  {
    var q := BitIndex(Pow2(m), left, order);
    var s := Pow2(m - order);
    ShiftRightIsQuotient(left + Pow2(m), order + 1);
    ShiftLeftPow2(m - order, order + 1);
    if q < s {
      ShiftLeftMonotone(q, s, order + 1);
    } else if s < q {
      ShiftLeftMonotone(s, q, order + 1);
    }
  }
}
