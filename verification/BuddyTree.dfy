/**
 The buddy system as a binary tree of blocks.

 A manager of `n` frames has the tree nodes 1 .. 2n-1: node 1 is all of memory, the halves of node `p`
 are 2p and 2p+1, and frame `f` is the leaf n+f.  A set of nodes stands for a set of free blocks.
 */
module BuddyTree {

  /** Some block of `s` contains node `x`. */
  predicate Has(s: set<nat>, x: nat) {
    x > 0 && (x in s || Has(s, x / 2))
  }

  /** Block `a` contains node `x`. */
  predicate Covers(a: nat, x: nat) {
    x >= a && x > 0 && (x == a || Covers(a, x / 2))
  }

  function Buddy(a: nat): nat
    requires a > 0
  {
    if a % 2 == 0 then a + 1 else a - 1
  }

  /** The blocks of `s` do not overlap, and no two of them are buddies. */
  ghost predicate Proper(s: set<nat>, n: nat) {
    forall a :: a in s ==> 0 < a < 2 * n && !Has(s, a / 2) && Buddy(a) !in s
  }

  /** Block `a` shares no node with a block of `s`. */
  ghost predicate Apart(s: set<nat>, a: nat) {
    !Has(s, a) && forall b :: b in s ==> !Covers(a, b)
  }

  /** The "can merge" bit of the pair below node `p`: exactly one of the two buddies is free. */
  predicate PairBit(s: set<nat>, p: nat) {
    (2 * p in s) != (2 * p + 1 in s)
  }

  /** Frame `f` lies in a block of `s`. */
  predicate Free(s: set<nat>, n: nat, f: nat) {
    Has(s, n + f)
  }

  /** Frame `f` lies in block `a`. */
  predicate In(a: nat, n: nat, f: nat) {
    Covers(a, n + f)
  }

  /** The frames lying in blocks of `s`. */
  function Frames(s: set<nat>, n: nat): set<nat> {
    set f: nat | f < n && Free(s, n, f)
  }

  /** The frames lying in block `a`. */
  function FramesOf(a: nat, n: nat): set<nat> {
    set f: nat | f < n && In(a, n, f)
  }

  /** Every frame below node `a` is in the set `fs` of frames. */
  predicate Full(fs: set<nat>, a: nat, n: nat)
    requires 0 < a
    decreases 2 * n - a
  {
    if a >= n then a - n in fs else Full(fs, 2 * a, n) && Full(fs, 2 * a + 1, n)
  }

  /** Block `a` is free and is not half of a free block. */
  predicate Maximal(fs: set<nat>, a: nat, n: nat)
    requires 0 < a
  {
    Full(fs, a, n) && (a == 1 || !Full(fs, a / 2, n))
  }

  // ----- how the containment relations move with the set

  lemma {:induction false} CoversHalves(a: nat, x: nat)
    requires a > 0
    ensures Covers(a, x) <==> x == a || Covers(2 * a, x) || Covers(2 * a + 1, x)
  {
    if x > a {
      CoversHalves(a, x / 2);
    }
  }

  lemma {:induction false} HasAdd(s: set<nat>, a: nat, x: nat)
    requires a > 0
    ensures Has(s + {a}, x) <==> Has(s, x) || Covers(a, x)
  {
    if x > 0 {
      HasAdd(s, a, x / 2);
    }
  }

  lemma {:induction false} HasThrough(s: set<nat>, a: nat, x: nat)
    requires Has(s, a) && Covers(a, x)
    ensures Has(s, x)
  {
    if x != a {
      HasThrough(s, a, x / 2);
    }
  }

  lemma {:induction false} HasRemove(s: set<nat>, n: nat, a: nat, x: nat)
    requires Proper(s, n) && a in s
    ensures Has(s - {a}, x) <==> Has(s, x) && !Covers(a, x)
  {
    if x > 0 {
      HasRemove(s, n, a, x / 2);
      if x in s && x != a && Covers(a, x) {
        HasThrough(s, a, x / 2);
        assert false;
      }
      if x == a {
        HasLess(s, a, a / 2);
      }
    }
  }

  lemma {:induction false} HasLess(s: set<nat>, a: nat, x: nat)
    ensures Has(s - {a}, x) ==> Has(s, x)
  {
    if x > 0 {
      HasLess(s, a, x / 2);
    }
  }

  lemma {:induction false} HasSubset(s: set<nat>, t: set<nat>, x: nat)
    requires s <= t && Has(s, x)
    ensures Has(t, x)
  {
    if x !in s {
      HasSubset(s, t, x / 2);
    }
  }

  /** What contains a node contains everything that node contains. */
  lemma {:induction false} CoversTransitive(a: nat, b: nat, x: nat)
    requires Covers(a, b) && Covers(b, x)
    ensures Covers(a, x)
  {
    if x != b {
      CoversTransitive(a, b, x / 2);
    }
  }

  lemma {:induction false} HasWitness(s: set<nat>, x: nat) returns (a: nat)
    requires Has(s, x)
    ensures a in s && Covers(a, x)
  {
    if x in s {
      a := x;
    } else {
      a := HasWitness(s, x / 2);
      assert x > 0;
    }
  }

  /** Every node lies above some frame. */
  lemma {:induction false} LeafBelow(a: nat, n: nat) returns (f: nat)
    requires 0 < a < 2 * n
    ensures f < n && Covers(a, n + f)
    decreases 2 * n - a
  {
    if a >= n {
      f := a - n;
    } else {
      f := LeafBelow(2 * a, n);
      CoversHalves(a, n + f);
    }
  }

  lemma {:induction false} RootCovers(x: nat)
    requires x > 0
    ensures Covers(1, x)
  {
    if x > 1 {
      RootCovers(x / 2);
    }
  }

  // ----- the two moves of the allocator

  /** Taking a block off the free lists. */
  lemma Take(s: set<nat>, n: nat, a: nat)
    requires Proper(s, n) && a in s
    ensures Proper(s - {a}, n) && Apart(s - {a}, a)
    ensures Frames(s - {a}, n) == Frames(s, n) - FramesOf(a, n)
    ensures FramesOf(a, n) <= Frames(s, n)
  {
    var t := s - {a};
    forall b | b in t
      ensures !Has(t, b / 2) && !Covers(a, b)
    {
      HasRemove(s, n, a, b / 2);
      if Covers(a, b) {
        HasThrough(s, a, b / 2);
      }
    }
    HasRemove(s, n, a, a);
    forall f: nat | f < n
      ensures Free(t, n, f) <==> Free(s, n, f) && !In(a, n, f)
      ensures In(a, n, f) ==> Free(s, n, f)
    {
      HasRemove(s, n, a, n + f);
      if Covers(a, n + f) {
        HasThrough(s, a, n + f);
      }
    }
  }

  /** Putting a block whose buddy is not free on the free lists. */
  lemma Put(s: set<nat>, n: nat, a: nat)
    requires Proper(s, n) && Apart(s, a) && 0 < a < 2 * n && Buddy(a) !in s
    ensures Proper(s + {a}, n)
    ensures Frames(s + {a}, n) == Frames(s, n) + FramesOf(a, n)
  {
    var t := s + {a};
    forall b | b in t
      ensures !Has(t, b / 2) && Buddy(b) !in t
    {
      HasAdd(s, a, b / 2);
      if b == a {
        assert Has(s, a / 2) ==> Has(s, a);
        assert !Covers(a, a / 2);
      } else {
        assert Covers(a, b / 2) ==> Covers(a, b);
        assert b != Buddy(a);
      }
    }
    forall f: nat | f < n
      ensures Free(t, n, f) <==> Free(s, n, f) || In(a, n, f)
    {
      HasAdd(s, a, n + f);
    }
  }

  /** Merging a block in hand with its free buddy gives the block above, again apart from the rest. */
  lemma Merge(s: set<nat>, n: nat, a: nat)
    requires Proper(s, n) && Apart(s, a) && 1 < a < 2 * n && Buddy(a) in s
    ensures Proper(s - {Buddy(a)}, n) && Apart(s - {Buddy(a)}, a / 2)
    ensures Frames(s - {Buddy(a)}, n) + FramesOf(a / 2, n) == Frames(s, n) + FramesOf(a, n)
  {
    var b := Buddy(a);
    var t := s - {b};
    Take(s, n, b);
    HasLess(s, b, a / 2);
    forall c | c in t
      ensures !Covers(a / 2, c)
    {
      CoversHalves(a / 2, c);
      assert c in s && Has(s, c);
      assert Has(s, a / 2) ==> Has(s, a);
    }
    forall f: nat | f < n
      ensures In(a / 2, n, f) <==> In(a, n, f) || In(b, n, f)
    {
      CoversHalves(a / 2, n + f);
    }
  }

  /** Splitting a block in hand: the left half goes to the free lists, the right half stays in hand. */
  lemma Split(s: set<nat>, n: nat, a: nat)
    requires Proper(s, n) && Apart(s, a) && 0 < a < n
    ensures Proper(s + {2 * a}, n) && Apart(s + {2 * a}, 2 * a + 1)
    ensures Frames(s + {2 * a}, n) + FramesOf(2 * a + 1, n) == Frames(s, n) + FramesOf(a, n)
    ensures FramesOf(2 * a + 1, n) <= FramesOf(a, n)
    ensures Apart(s, 2 * a)
    ensures 2 * a !in s && 2 * a + 1 !in s
  {
    var l, r := 2 * a, 2 * a + 1;
    forall x
      ensures Covers(a, x) <==> x == a || Covers(l, x) || Covers(r, x)
    {
      CoversHalves(a, x);
    }
    assert Covers(a, l) && Covers(a, r);
    assert !Has(s, l);
    assert Apart(s, l);
    Put(s, n, l);
    HasAdd(s, l, r);
    assert !Covers(l, r) && !Covers(r, l);
    assert !Has(s, r);
  }

  /** What is apart from the free blocks owns frames that are not free. */
  lemma ApartFrames(s: set<nat>, n: nat, a: nat)
    requires Apart(s, a) && 0 < a
    ensures FramesOf(a, n) !! Frames(s, n)
  {
    forall f: nat | f < n && In(a, n, f)
      ensures !Free(s, n, f)
    {
      ApartBelow(s, a, n + f);
    }
  }

  lemma {:induction false} ApartBelow(s: set<nat>, a: nat, x: nat)
    requires Apart(s, a) && Covers(a, x)
    ensures !Has(s, x)
  {
    if x != a {
      ApartBelow(s, a, x / 2);
    }
  }

  /** Conversely a block none of whose frames is free is apart from the free blocks. */
  lemma FramesApart(s: set<nat>, n: nat, a: nat)
    requires forall b :: b in s ==> 0 < b < 2 * n
    requires 0 < a < 2 * n && FramesOf(a, n) !! Frames(s, n)
    ensures Apart(s, a)
  {
    var f := LeafBelow(a, n);
    assert f in FramesOf(a, n);
    assert !Free(s, n, f);
    if Has(s, a) {
      HasThrough(s, a, n + f);
    }
    forall b | b in s
      ensures !Covers(a, b)
    {
      var g := LeafBelow(b, n);
      HasThrough(s, b, n + g);
      assert Free(s, n, g) && g in Frames(s, n);
      assert !In(a, n, g);
      if Covers(a, b) {
        CoversTransitive(a, b, n + g);
      }
    }
  }

  lemma ProperInTree(s: set<nat>, n: nat)
    requires Proper(s, n)
    ensures forall a :: a in s ==> 0 < a < 2 * n
  {
  }

  lemma AddFrames(s: set<nat>, a: nat, n: nat)
    requires a > 0
    ensures Frames(s + {a}, n) == Frames(s, n) + FramesOf(a, n)
  {
    forall f: nat | f < n
      ensures Free(s + {a}, n, f) <==> Free(s, n, f) || In(a, n, f)
    {
      HasAdd(s, a, n + f);
    }
  }

  /** Of two blocks with a common frame one contains the other. */
  lemma {:induction false} Chain(a: nat, b: nat, x: nat)
    requires Covers(a, x) && Covers(b, x)
    ensures Covers(a, b) || Covers(b, a)
  {
    if x != a && x != b {
      Chain(a, b, x / 2);
    }
  }

  // ----- free blocks, lent blocks and a block in hand

  /** The free blocks are proper, and the lent blocks overlap neither them nor each other. */
  ghost predicate Separate(free: set<nat>, live: set<nat>, n: nat) {
    && Proper(free, n)
    && (forall a :: a in live ==> 0 < a < 2 * n && Apart(free, a))
    && (forall a, b :: a in live && b in live && a != b ==> !Covers(a, b))
  }

  /** Block `a` is in hand: neither free nor lent, and overlapping neither. */
  ghost predicate Hand(free: set<nat>, live: set<nat>, n: nat, a: nat) {
    0 < a < 2 * n && Apart(free, a) && forall b :: b in live ==> !Covers(a, b) && !Covers(b, a)
  }

  lemma HandTake(free: set<nat>, live: set<nat>, n: nat, a: nat)
    requires Separate(free, live, n) && a in free
    ensures Separate(free - {a}, live, n) && Hand(free - {a}, live, n, a)
    ensures Frames(free - {a}, n) == Frames(free, n) - FramesOf(a, n)
    ensures FramesOf(a, n) <= Frames(free, n)
  {
    Take(free, n, a);
    forall b | b in live
      ensures !Has(free - {a}, b) && !Covers(a, b)
    {
      HasLess(free, a, b);
      if Covers(a, b) {
        HasThrough(free, a, b);
      }
    }
  }

  lemma HandPut(free: set<nat>, live: set<nat>, n: nat, a: nat)
    requires Separate(free, live, n) && Hand(free, live, n, a) && Buddy(a) !in free
    ensures Separate(free + {a}, live, n)
    ensures Frames(free + {a}, n) == Frames(free, n) + FramesOf(a, n)
  {
    Put(free, n, a);
    forall b | b in live
      ensures !Has(free + {a}, b)
    {
      HasAdd(free, a, b);
    }
  }

  lemma HandMerge(free: set<nat>, live: set<nat>, n: nat, a: nat)
    requires Separate(free, live, n) && Hand(free, live, n, a) && a > 1 && Buddy(a) in free
    ensures Separate(free - {Buddy(a)}, live, n) && Hand(free - {Buddy(a)}, live, n, a / 2)
    ensures Frames(free - {Buddy(a)}, n) + FramesOf(a / 2, n) == Frames(free, n) + FramesOf(a, n)
  {
    var b := Buddy(a);
    Merge(free, n, a);
    forall c | c in live
      ensures !Has(free - {b}, c) && !Covers(a / 2, c) && !Covers(c, a / 2)
    {
      HasLess(free, b, c);
      CoversHalves(a / 2, c);
      assert Covers(c, a / 2) ==> Covers(c, a);
      assert Covers(c, c);
      assert Covers(b, c) ==> Has(free, c) by {
        if Covers(b, c) {
          HasThrough(free, b, c);
        }
      }
    }
  }

  lemma HandMergeLeft(free: set<nat>, live: set<nat>, n: nat, p: nat)
    requires Separate(free, live, n) && Hand(free, live, n, 2 * p) && p > 0 && 2 * p + 1 in free
    ensures Separate(free - {2 * p + 1}, live, n) && Hand(free - {2 * p + 1}, live, n, p)
    ensures Apart(free - {2 * p + 1}, 2 * p + 1)
    ensures Frames(free - {2 * p + 1}, n) + FramesOf(p, n) == Frames(free, n) + FramesOf(2 * p, n)
  {
    assert 2 * p / 2 == p;
    HandMerge(free, live, n, 2 * p);
    Take(free, n, 2 * p + 1);
  }

  lemma HandMergeRight(free: set<nat>, live: set<nat>, n: nat, p: nat)
    requires Separate(free, live, n) && Hand(free, live, n, 2 * p + 1) && p > 0 && 2 * p in free
    ensures Separate(free - {2 * p}, live, n) && Hand(free - {2 * p}, live, n, p)
    ensures Frames(free - {2 * p}, n) + FramesOf(p, n) == Frames(free, n) + FramesOf(2 * p + 1, n)
  {
    assert (2 * p + 1) / 2 == p;
    HandMerge(free, live, n, 2 * p + 1);
  }

  lemma HandSplit(free: set<nat>, live: set<nat>, n: nat, a: nat)
    requires Separate(free, live, n) && Hand(free, live, n, a) && a < n
    ensures Separate(free + {2 * a}, live, n) && Hand(free + {2 * a}, live, n, 2 * a + 1)
    ensures Frames(free + {2 * a}, n) + FramesOf(2 * a + 1, n) == Frames(free, n) + FramesOf(a, n)
    ensures FramesOf(2 * a + 1, n) <= FramesOf(a, n)
    ensures Apart(free, 2 * a)
    ensures 2 * a !in free && 2 * a + 1 !in free
  {
    Split(free, n, a);
    forall b | b in live
      ensures !Has(free + {2 * a}, b) && !Covers(b, 2 * a)
      ensures !Covers(2 * a + 1, b) && !Covers(b, 2 * a + 1)
    {
      HasAdd(free, 2 * a, b);
      CoversHalves(a, b);
      assert Covers(b, 2 * a) ==> b == 2 * a || Covers(b, a);
      assert Covers(b, 2 * a + 1) ==> b == 2 * a + 1 || Covers(b, a);
      assert Covers(2 * a, 2 * a) && Covers(2 * a + 1, 2 * a + 1);
    }
  }

  lemma HandLend(free: set<nat>, live: set<nat>, n: nat, a: nat)
    requires Separate(free, live, n) && Hand(free, live, n, a)
    ensures Separate(free, live + {a}, n)
  {
  }

  lemma HandReturn(free: set<nat>, live: set<nat>, n: nat, a: nat)
    requires Separate(free, live, n) && a in live
    ensures Separate(free, live - {a}, n) && Hand(free, live - {a}, n, a)
  {
  }

  /** Giving back a lent block takes away its frames from the lent ones, and no others. */
  lemma ReturnFrames(free: set<nat>, live: set<nat>, n: nat, a: nat)
    requires Separate(free, live, n) && a in live
    ensures Frames(live - {a}, n) + FramesOf(a, n) == Frames(live, n)
  {
    assert live - {a} + {a} == live;
    AddFrames(live - {a}, a, n);
  }

  /** A block none of whose frames is free or lent may be taken in hand. */
  lemma HandFresh(free: set<nat>, live: set<nat>, n: nat, a: nat)
    requires Separate(free, live, n) && 0 < a < 2 * n
    requires FramesOf(a, n) !! Frames(free, n) && FramesOf(a, n) !! Frames(live, n)
    ensures Hand(free, live, n, a) && a !in live && Separate(free, live + {a}, n)
  {
    FramesApart(free, n, a);
    FramesApart(live, n, a);
    forall b | b in live
      ensures !Covers(b, a)
    {
      if Covers(b, a) {
        HasThrough(live, b, a);
      }
    }
    assert a in live ==> Covers(a, a);
  }

  // ----- the canonical form

  lemma {:induction false} HasIsFull(s: set<nat>, n: nat, a: nat)
    requires Has(s, a) && 0 < a < 2 * n
    ensures Full(Frames(s, n), a, n)
    decreases 2 * n - a
  {
    if a < n {
      HasIsFull(s, n, 2 * a);
      HasIsFull(s, n, 2 * a + 1);
    }
  }

  /** Completeness: an aligned run of free frames lies inside one free block. */
  lemma {:induction false} FullIsHas(s: set<nat>, n: nat, a: nat)
    requires Proper(s, n) && 0 < a < 2 * n && Full(Frames(s, n), a, n)
    ensures Has(s, a)
    decreases 2 * n - a
  {
    if a < n {
      FullIsHas(s, n, 2 * a);
      FullIsHas(s, n, 2 * a + 1);
      assert Buddy(2 * a) == 2 * a + 1;
    }
  }

  /** The free blocks are exactly the maximal aligned blocks of free frames. */
  lemma Canonical(s: set<nat>, n: nat, a: nat)
    requires Proper(s, n) && 0 < a < 2 * n
    ensures a in s <==> Maximal(Frames(s, n), a, n)
  {
    var fs := Frames(s, n);
    if a in s {
      HasIsFull(s, n, a);
      if a > 1 && Full(fs, a / 2, n) {
        FullIsHas(s, n, a / 2);
      }
    }
    if Maximal(fs, a, n) {
      FullIsHas(s, n, a);
      if a !in s {
        assert a != 1 && Has(s, a / 2);
        HasIsFull(s, n, a / 2);
      }
    }
  }

  /** Whatever the history, equal free frames mean equal free blocks. */
  lemma FramesDetermineBlocks(s: set<nat>, t: set<nat>, n: nat)
    requires Proper(s, n) && Proper(t, n) && Frames(s, n) == Frames(t, n)
    ensures s == t
  {
    forall a | a in s || a in t
      ensures a in s && a in t
    {
      Canonical(s, n, a);
      Canonical(t, n, a);
    }
  }

  lemma FullIsFramesOf(fs: set<nat>, a: nat, n: nat)
    requires 0 < a < 2 * n
    ensures Full(fs, a, n) <==> FramesOf(a, n) <= fs
  {
    FullMeans(fs, a, n);
  }

  lemma {:induction false} FullMeans(fs: set<nat>, a: nat, n: nat)
    requires 0 < a < 2 * n
    ensures Full(fs, a, n) <==> forall f: nat :: f < n && In(a, n, f) ==> f in fs
    decreases 2 * n - a
  {
    if a >= n {
      LeavesAreAlone(a, n);
    } else {
      FullMeans(fs, 2 * a, n);
      FullMeans(fs, 2 * a + 1, n);
      forall f: nat | f < n
        ensures In(a, n, f) <==> In(2 * a, n, f) || In(2 * a + 1, n, f)
      {
        CoversHalves(a, n + f);
      }
    }
  }

  lemma LeavesAreAlone(a: nat, n: nat)
    requires n <= a < 2 * n
    ensures forall f: nat :: f < n ==> (In(a, n, f) <==> f == a - n)
  {
    forall f: nat | f < n
      ensures In(a, n, f) <==> f == a - n
    {
      assert !Covers(a, (n + f) / 2);
    }
  }

  /** The block of all of memory, as the only free block. */
  lemma RootAlone(n: nat)
    requires n > 0
    ensures Proper({1}, n) && Frames({1}, n) == FramesOf(1, n)
  {
    forall f: nat | f < n
      ensures Free({1}, n, f) && In(1, n, f)
    {
      RootCovers(n + f);
      HasThrough({1}, 1, n + f);
    }
  }
}
