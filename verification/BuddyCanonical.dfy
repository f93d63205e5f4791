/**
 The free lists and the bitmap as functions of the free frames alone.
 */
module BuddyCanonical {
  import opened Bitmaps
  import opened BuddyBlocks
  import opened BuddyLists
  import opened BuddyTree
  import opened Options
  import opened Orders
  import opened Seqs

  /** The block above an aligned block. */
  function Above(c: FrameChunk): FrameChunk {
    if Aligned(c.start, c.order + 1) then FrameChunk(c.start, c.order + 1)
    else if Pow2(c.order) <= c.start then FrameChunk(c.start - Pow2(c.order), c.order + 1)
    else FrameChunk(0, c.order + 1)
  }

  /** The other half of the block above. */
  function Twin(c: FrameChunk): FrameChunk {
    if Aligned(c.start, c.order + 1) then FrameChunk(c.start + Pow2(c.order), c.order)
    else FrameChunk(Above(c).start, c.order)
  }

  /** All frames of `c` are free, and `c` is not half of a block of which that holds too. */
  ghost predicate MaximalRun(fs: set<nat>, c: FrameChunk, m: nat) {
    && Interval(c.start, c.order) <= fs
    && (c.order == m || !(Interval(Above(c).start, Above(c).order) <= fs))
  }

  lemma NodeAbove(a: nat, c: FrameChunk, m: nat)
    requires IsNode(a, c.start, c.order, m) && a > 1
    ensures IsNode(a / 2, Above(c).start, Above(c).order, m)
    ensures IsNode(Buddy(a), Twin(c).start, Twin(c).order, m)
  {
    hide Pow2, ShiftLeft, Aligned;
    if a % 2 == 0 {
      LeftUp(a, c.start, c.order, m);
      NodeInRange(a / 2, c.start, c.order + 1, m);
    } else {
      RightUp(a, c.start, c.order, m);
      RightNotAligned(a, c, m);
    }
  }

  lemma RightNotAligned(a: nat, c: FrameChunk, m: nat)
    requires IsNode(a, c.start, c.order, m) && a > 1 && a % 2 == 1
    ensures !Aligned(c.start, c.order + 1)
  {
    hide Pow2, ShiftLeft, Aligned;
    if Aligned(c.start, c.order + 1) {
      RightUp(a, c.start, c.order, m);
      NodeInRange(a, c.start, c.order, m);
      var b := NodeExists(c.start, c.order + 1, m);
      NodeDown(b, c.start, c.order + 1, m);
      NodeUnique(2 * b, a, c.start, c.order, m);
    }
  }

  /** A node is a free block exactly when its run of frames is maximal. */
  lemma NodeIsMaximalRun(free: set<nat>, m: nat, a: nat, c: FrameChunk)
    requires Proper(free, Pow2(m)) && IsNode(a, c.start, c.order, m)
    ensures a in free <==> MaximalRun(Frames(free, Pow2(m)), c, m)
  {
    hide Pow2, ShiftLeft, Aligned, IsNode, Interval, Full;
    var fs, n := Frames(free, Pow2(m)), Pow2(m);
    NodeInRange(a, c.start, c.order, m);
    Canonical(free, n, a);
    FullIsFramesOf(fs, a, n);
    NodeFrames(a, c.start, c.order, m);
    if a > 1 {
      NodeAbove(a, c, m);
      FullIsFramesOf(fs, a / 2, n);
      NodeFrames(a / 2, Above(c).start, Above(c).order, m);
    }
  }

  /** List k holds exactly the maximal runs of order k. */
  lemma ListsAreMaximalRuns(lists: seq<seq<FrameChunk>>, free: set<nat>, m: nat, c: FrameChunk)
    requires ListsOk(lists, free, m) && Proper(free, Pow2(m))
    requires c.order <= m && Aligned(c.start, c.order) && c.start < Pow2(m)
    ensures c in lists[c.order] <==> MaximalRun(Frames(free, Pow2(m)), c, m)
  {
    hide Pow2, ShiftLeft, Aligned, MaximalRun, IsNode;
    var a := NodeExists(c.start, c.order, m);
    NodeNames(a, c, m);
    NodeIsMaximalRun(free, m, a, c);
  }

  /** The bit of a block tells whether exactly one of the block and its buddy is a maximal run. */
  lemma BitsAreMaximalRuns(words: seq<uint32>, free: set<nat>, m: nat, c: FrameChunk)
    requires BitsOk(words, free, Pow2(m)) && Proper(free, Pow2(m))
    requires c.order < m && Aligned(c.start, c.order) && c.start < Pow2(m)
    ensures BitSet(words, BitIndex(Pow2(m), c.start, c.order)) <==>
            MaximalRun(Frames(free, Pow2(m)), c, m) != MaximalRun(Frames(free, Pow2(m)), Twin(c), m)
  {
    hide Pow2, ShiftLeft, Aligned, MaximalRun, IsNode, BitIndex, BitSet;
    var a := NodeExists(c.start, c.order, m);
    NodeInRange(a, c.start, c.order, m);
    NodeAbove(a, c, m);
    NodeIsMaximalRun(free, m, a, c);
    NodeIsMaximalRun(free, m, Buddy(a), Twin(c));
    BitIndexIsParent(a, c.start, c.order, m);
    var p := a / 2;
    assert {a, Buddy(a)} == {2 * p, 2 * p + 1};
  }

  /**
   Whatever the history: two managers of the same size with the same free frames have the same chunks on
   every list, as many of them, the same bits, and the same records of them in frames[].chunk.
   */
  lemma CanonicalForm(lists: seq<seq<FrameChunk>>, slots: seq<Option<FrameChunk>>, words: seq<uint32>, free: set<nat>,
                      lists': seq<seq<FrameChunk>>, slots': seq<Option<FrameChunk>>, words': seq<uint32>,
                          free': set<nat>, m: nat)
    requires ListsOk(lists, free, m) && SlotsName(slots, free, m) && BitsOk(words, free, Pow2(m))
             && Proper(free, Pow2(m))
    requires ListsOk(lists', free', m) && SlotsName(slots', free', m) && BitsOk(words', free', Pow2(m))
             && Proper(free', Pow2(m))
    requires Frames(free, Pow2(m)) == Frames(free', Pow2(m))
    ensures forall k, c :: 0 <= k <= m ==> (c in lists[k] <==> c in lists'[k])
    ensures forall k :: 0 <= k <= m ==> |lists[k]| == |lists'[k]|
    ensures forall p :: 1 <= p < Pow2(m) ==> (BitSet(words, p) <==> BitSet(words', p))
    ensures forall k, c :: 0 <= k <= m && c in lists[k] ==>
      c.start < |slots| && c.start < |slots'| && slots[c.start] == Some(c) && slots'[c.start] == Some(c)
  {
    ListLengths(lists, free, m);
    ListLengths(lists', free', m);
    hide ListsOk, SlotsName, BitsOk, BitSet, Proper, Frames, Pow2;
    FramesDetermineBlocks(free, free', Pow2(m));
    SameMembers(lists, free, lists', m);
    SameMembers(lists', free, lists, m);
    SameBits(words, words', free, Pow2(m));
    Recorded(lists, slots, free, m);
    Recorded(lists', slots', free, m);
    forall k | 0 <= k <= m
      ensures |lists[k]| == |lists'[k]|
    {
      SameLength(lists[k], lists'[k]);
    }
  }

  lemma ListLengths(lists: seq<seq<FrameChunk>>, free: set<nat>, m: nat)
    requires ListsOk(lists, free, m)
    ensures |lists| == m + 1 && forall k :: 0 <= k <= m ==> Distinct(lists[k])
  {
  }

  lemma SameBits(words: seq<uint32>, words': seq<uint32>, free: set<nat>, n: nat)
    requires BitsOk(words, free, n) && BitsOk(words', free, n)
    ensures forall p :: 1 <= p < n ==> (BitSet(words, p) <==> BitSet(words', p))
  {
  }

  /** Chunks on the lists are recorded at their first frame. */
  lemma Recorded(lists: seq<seq<FrameChunk>>, slots: seq<Option<FrameChunk>>, free: set<nat>, m: nat)
    requires ListsOk(lists, free, m) && SlotsName(slots, free, m)
    ensures forall k, c :: 0 <= k <= m && c in lists[k] ==> c.start < |slots| && slots[c.start] == Some(c)
  {
    forall k, c | 0 <= k <= m && c in lists[k]
      ensures ChunkOf(NodeOf(c, m), m) == c
    {
      NodeNames(NodeOf(c, m), c, m);
    }
  }

  lemma SameMembers(lists: seq<seq<FrameChunk>>, free: set<nat>, lists': seq<seq<FrameChunk>>, m: nat)
    requires ListsOk(lists, free, m) && ListsOk(lists', free, m)
    ensures forall k, c :: 0 <= k <= m && c in lists[k] ==> c in lists'[k]
  {
    forall k, c | 0 <= k <= m && c in lists[k]
      ensures c in lists'[k]
    {
      NodeNames(NodeOf(c, m), c, m);
    }
  }

  lemma SameLength<T>(s: seq<T>, t: seq<T>)
    requires Distinct(s) && Distinct(t) && forall x :: x in s <==> x in t
    ensures |s| == |t|
  {
    SetSize(s);
    SetSize(t);
    assert (set x | x in s) == (set x | x in t);
  }

  lemma {:induction false} SetSize<T>(s: seq<T>)
    requires Distinct(s)
    ensures |set x | x in s| == |s|
  {
    if s != [] {
      SetSize(s[1..]);
      assert (set x | x in s) == {s[0]} + (set x | x in s[1..]);
    }
  }
}
