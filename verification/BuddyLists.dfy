/**
 What the three data structures of a buddy manager must say about the same set of free blocks:
 `order_map` (the free lists), `frames[].chunk` and `bitmap`.  All three are taken as values here;
 `free` and `live` are the tree nodes of the free and of the lent blocks.
 */
module BuddyLists {
  import opened Bitmaps
  import opened BuddyBlocks
  import opened BuddyTree
  import opened Options
  import opened Orders
  import opened Seqs

  /** Chunk `c` names a block of the set `s`. */
  ghost predicate Named(s: set<nat>, c: FrameChunk, m: nat) {
    NodeOf(c, m) in s && IsNode(NodeOf(c, m), c.start, c.order, m)
  }

  ghost predicate InTree(s: set<nat>, m: nat) {
    forall a :: a in s ==> 0 < a < 2 * Pow2(m)
  }

  /** List k holds the free blocks of order k, each once. */
  ghost predicate ListsOk(lists: seq<seq<FrameChunk>>, free: set<nat>, m: nat) {
    && |lists| == m + 1 && InTree(free, m)
    && (forall k :: 0 <= k <= m ==> Distinct(lists[k]))
    && (forall k, c :: 0 <= k <= m && c in lists[k] ==> c.order == k && Named(free, c, m))
    && (forall a :: a in free ==> ChunkOf(a, m).order <= m && ChunkOf(a, m) in lists[ChunkOf(a, m).order])
  }

  /** Each free block is recorded at its first frame. */
  ghost predicate SlotsName(slots: seq<Option<FrameChunk>>, free: set<nat>, m: nat) {
    && |slots| == Pow2(m) && InTree(free, m)
    && (forall a :: a in free ==> ChunkOf(a, m).start < |slots| && slots[ChunkOf(a, m).start] == Some(ChunkOf(a, m)))
  }

  /** Nothing else is recorded but lent blocks, and perhaps a block in hand beginning at frame `hand`. */
  ghost predicate SlotsFresh(slots: seq<Option<FrameChunk>>, known: set<nat>, hand: int, m: nat) {
    forall f :: 0 <= f < |slots| && slots[f].Some? && f != hand ==>
      slots[f].value.start == f && Named(known, slots[f].value, m)
  }

  ghost predicate BitSet(words: seq<uint32>, p: nat) {
    p / 32 < |words| && TestBit(words[p / 32], p % 32)
  }

  /** Each pair's bit is set exactly when one of the two buddies is free. */
  ghost predicate BitsOk(words: seq<uint32>, free: set<nat>, n: nat) {
    && (forall p :: 1 <= p < n ==> (BitSet(words, p) <==> PairBit(free, p)))
    && (1 in free ==> BitSet(words, 0))
  }

  // ----- lists

  lemma AppendToList(lists: seq<seq<FrameChunk>>, free: set<nat>, m: nat, a: nat, c: FrameChunk)
    requires ListsOk(lists, free, m) && a !in free && IsNode(a, c.start, c.order, m)
    ensures c.order < |lists|
    ensures ListsOk(lists[c.order := lists[c.order] + [c]], free + {a}, m)
  {
    NodeNames(a, c, m);
    assert c !in lists[c.order];
    DistinctAppend(lists[c.order], c);
  }

  lemma RemoveFromList(lists: seq<seq<FrameChunk>>, free: set<nat>, m: nat, a: nat, c: FrameChunk)
    requires ListsOk(lists, free, m) && a in free && IsNode(a, c.start, c.order, m)
    ensures c.order < |lists| && c in lists[c.order]
    ensures ListsOk(lists[c.order := Without(lists[c.order], c)], free - {a}, m)
  {
    NodeNames(a, c, m);
    WithoutMembers(lists[c.order], c);
    var lists' := lists[c.order := Without(lists[c.order], c)];
    forall k, d | 0 <= k <= m && d in lists'[k]
      ensures d in lists[k] && NodeOf(d, m) != a
    {
      if NodeOf(d, m) == a {
        NodeNames(a, d, m);
      }
    }
    forall b | b in free - {a}
      ensures ChunkOf(b, m) in lists'[ChunkOf(b, m).order]
    {
      if ChunkOf(b, m) == c {
        NodeNames(b, c, m);
      }
    }
  }

  // ----- slots

  /** Blocks that do not overlap begin at different frames. */
  lemma StartsDiffer(free: set<nat>, a: nat, c: FrameChunk, b: nat, m: nat)
    requires Apart(free, a) && b in free && 0 < b < 2 * Pow2(m) && IsNode(a, c.start, c.order, m)
    ensures c.start != ChunkOf(b, m).start
  {
    var d := ChunkOf(b, m);
    StartInNode(a, c.start, c.order, m);
    StartInNode(b, d.start, d.order, m);
    ApartBelow(free, a, Pow2(m) + c.start);
    HasThrough(free, b, Pow2(m) + d.start);
  }

  lemma FillSlot(slots: seq<Option<FrameChunk>>, free: set<nat>, m: nat, a: nat, c: FrameChunk)
    requires SlotsName(slots, free, m) && Apart(free, a) && IsNode(a, c.start, c.order, m)
    ensures c.start < |slots| && c.order < m + 1
    ensures SlotsName(slots[c.start := Some(c)], free + {a}, m)
  {
    NodeNames(a, c, m);
    NodeInRange(a, c.start, c.order, m);
    forall b | b in free
      ensures ChunkOf(b, m).start != c.start
    {
      StartsDiffer(free, a, c, b, m);
    }
  }

  lemma EmptySlot(slots: seq<Option<FrameChunk>>, free: set<nat>, m: nat, a: nat, c: FrameChunk, v: Option<FrameChunk>)
    requires SlotsName(slots, free, m) && Apart(free, a) && IsNode(a, c.start, c.order, m)
    ensures c.start < |slots|
    ensures SlotsName(slots[c.start := v], free, m)
  {
    NodeInRange(a, c.start, c.order, m);
    forall b | b in free
      ensures ChunkOf(b, m).start != c.start
    {
      StartsDiffer(free, a, c, b, m);
    }
  }

  /** Emptying the slot of a block that leaves the free blocks. */
  lemma DropSlot(slots: seq<Option<FrameChunk>>, free: set<nat>, live: set<nat>, hand: int, m: nat, a: nat,
                 c: FrameChunk)
    requires SlotsName(slots, free, m) && SlotsFresh(slots, free + live, hand, m)
    requires a in free && Apart(free - {a}, a) && IsNode(a, c.start, c.order, m)
    ensures c.start < |slots| && slots[c.start] == Some(c)
    ensures SlotsName(slots[c.start := None], free - {a}, m)
    ensures SlotsFresh(slots[c.start := None], free - {a} + live, hand, m)
  {
    NodeNames(a, c, m);
    EmptySlot(slots, free - {a}, m, a, c, None);
    OthersKnown(slots, free + live, hand, m, a, c);
  }

  /** Emptying the slot of the block in hand when free block `b` takes its place in hand. */
  lemma DropHandSlot(slots: seq<Option<FrameChunk>>, free: set<nat>, live: set<nat>, m: nat,
                     a: nat, c: FrameChunk, b: nat, d: FrameChunk)
    requires SlotsName(slots, free, m) && SlotsFresh(slots, free + live, c.start, m)
    requires Apart(free, a) && IsNode(a, c.start, c.order, m) && b in free && IsNode(b, d.start, d.order, m)
    ensures c.start < |slots| && d.start < |slots| && slots[d.start] == Some(d) && d.start != c.start
    ensures SlotsName(slots[c.start := None], free - {b}, m)
    ensures SlotsFresh(slots[c.start := None], free - {b} + live, d.start, m)
  {
    NodeNames(b, d, m);
    EmptySlot(slots, free, m, a, c, None);
    StartsDiffer(free, a, c, b, m);
    OthersKnown(slots, free + live, c.start, m, b, d);
  }

  /** Only the slot of block `a` can hold block `a`. */
  lemma OthersKnown(slots: seq<Option<FrameChunk>>, known: set<nat>, hand: int, m: nat, a: nat, c: FrameChunk)
    requires SlotsFresh(slots, known, hand, m) && IsNode(a, c.start, c.order, m)
    ensures forall f :: 0 <= f < |slots| && slots[f].Some? && f != hand && f != c.start ==>
      slots[f].value.start == f && Named(known - {a}, slots[f].value, m)
  {
    forall f | 0 <= f < |slots| && slots[f].Some? && f != hand && f != c.start
      ensures NodeOf(slots[f].value, m) != a
    {
      var d := slots[f].value;
      if NodeOf(d, m) == a {
        BlockUnique(a, c.start, c.order, d.start, d.order, m);
      }
    }
  }

  lemma FreshGrows(slots: seq<Option<FrameChunk>>, known: set<nat>, known': set<nat>, m: nat)
    requires SlotsFresh(slots, known, -1, m) && known <= known'
    ensures SlotsFresh(slots, known', -1, m)
  {
  }

  // ----- bits

  lemma BitsAfterTake(words: seq<uint32>, words': seq<uint32>, free: set<nat>, n: nat, a: nat)
    requires BitsOk(words, free, n) && Proper(free, n) && a in free
    requires forall p: nat :: 1 <= p < n ==> (BitSet(words', p) <==> p != a / 2 && BitSet(words, p))
    ensures BitsOk(words', free - {a}, n)
  {
    assert Buddy(a) !in free;
    forall p | 1 <= p < n
      ensures PairBit(free - {a}, p) <==> p != a / 2 && PairBit(free, p)
    {
      if p == a / 2 {
        assert {Buddy(a), a} == {2 * p, 2 * p + 1};
      }
    }
    if 1 in free - {a} {
      RootCovers(a / 2);
      HasThrough(free, 1, a / 2);
    }
  }

  /** The bit of a pair tells a block that is not free whether its buddy is. */
  lemma PairDecides(words: seq<uint32>, free: set<nat>, n: nat, a: nat)
    requires BitsOk(words, free, n) && 0 < a < 2 * n && a !in free && (forall b :: b in free ==> 0 < b < 2 * n)
    ensures a > 1 ==> (Buddy(a) in free <==> BitSet(words, a / 2)) && Buddy(a) / 2 == a / 2
    ensures a == 1 ==> Buddy(a) !in free
  {
    assert a > 1 ==> {a, Buddy(a)} == {2 * (a / 2), 2 * (a / 2) + 1};
  }

  /** The pair of a free block has its bit set. */
  lemma FreePairBit(words: seq<uint32>, free: set<nat>, n: nat, a: nat)
    requires BitsOk(words, free, n) && Proper(free, n) && a in free
    ensures a > 1 ==> BitSet(words, a / 2)
  {
    assert Buddy(a) !in free;
    assert a > 1 ==> {a, Buddy(a)} == {2 * (a / 2), 2 * (a / 2) + 1};
  }

  lemma BitsAfterPut(words: seq<uint32>, words': seq<uint32>, free: set<nat>, n: nat, a: nat)
    requires BitsOk(words, free, n) && 0 < a < 2 * n && a !in free && Buddy(a) !in free
    requires forall p: nat :: p < n ==> (BitSet(words', p) <==> p == a / 2 || BitSet(words, p))
    ensures BitsOk(words', free + {a}, n)
  {
    forall p | 1 <= p < n
      ensures PairBit(free + {a}, p) <==> p == a / 2 || PairBit(free, p)
    {
      if p == a / 2 {
        assert a == 2 * p || a == 2 * p + 1;
      }
    }
  }

  // ----- lists and slots together

  /** Lists and slots agree with the tree of free blocks. */
  ghost predicate Structured(lists: seq<seq<FrameChunk>>, slots: seq<Option<FrameChunk>>, free: set<nat>,
                             live: set<nat>, m: nat) {
    && ListsOk(lists, free, m)
    && SlotsName(slots, free, m)
    && SlotsFresh(slots, free + live, -1, m)
    && Separate(free, live, Pow2(m))
  }

  /** Block `a`, kept in chunk `c`, is off the free lists and owned by the running operation. */
  ghost predicate Held(lists: seq<seq<FrameChunk>>, slots: seq<Option<FrameChunk>>, free: set<nat>, live: set<nat>,
                       m: nat,
                       a: nat, c: FrameChunk)
  {
    && ListsOk(lists, free, m)
    && SlotsName(slots, free, m)
    && SlotsFresh(slots, free + live, c.start, m)
    && Separate(free, live, Pow2(m))
    && IsNode(a, c.start, c.order, m)
    && Hand(free, live, Pow2(m), a)
  }

  /** Block `a`, kept in chunk `c`, is owned by the running operation but still on its list. */
  ghost predicate Listed(lists: seq<seq<FrameChunk>>, slots: seq<Option<FrameChunk>>, free: set<nat>, live: set<nat>,
                         m: nat,
                         a: nat, c: FrameChunk)
  {
    && a !in free
    && ListsOk(lists, free + {a}, m)
    && SlotsName(slots, free + {a}, m)
    && SlotsFresh(slots, free + live + {a}, -1, m)
    && Separate(free, live, Pow2(m))
    && IsNode(a, c.start, c.order, m)
    && Hand(free, live, Pow2(m), a)
  }

  lemma InsertStep(lists: seq<seq<FrameChunk>>, slots: seq<Option<FrameChunk>>, free: set<nat>, live: set<nat>, m: nat,
                   a: nat, c: FrameChunk)
    requires Held(lists, slots, free, live, m, a, c) && Buddy(a) !in free
    ensures c.order < |lists| && c.start < |slots| && a !in free
    ensures Structured(lists[c.order := lists[c.order] + [c]], slots[c.start := Some(c)], free + {a}, live, m)
    ensures Frames(free + {a}, Pow2(m)) == Frames(free, Pow2(m)) + FramesOf(a, Pow2(m))
  {
    HandPut(free, live, Pow2(m), a);
    AppendToList(lists, free, m, a, c);
    FillSlot(slots, free, m, a, c);
    NodeNames(a, c, m);
  }

  /** The left start of the pair of block `a`, as `free_pages` recovers it from the bit index. */
  lemma PairStart(a: nat, c: FrameChunk, m: nat)
    requires IsNode(a, c.start, c.order, m) && a > 1
    ensures c.order < m
    ensures a % 2 == 1 ==> Pow2(c.order) <= c.start
    ensures ShiftLeft(a / 2, c.order + 1) - Pow2(m) == if a % 2 == 0 then c.start else c.start - Pow2(c.order)
    ensures var b := FrameChunk(if a % 2 == 0 then c.start + Pow2(c.order) else c.start - Pow2(c.order), c.order);
            IsNode(Buddy(a), b.start, b.order, m)
  {
    if a % 2 == 0 {
      LeftUp(a, c.start, c.order, m);
    } else {
      RightUp(a, c.start, c.order, m);
    }
  }

  /** One round of the cascade: the buddy leaves its list, and the merged block is in hand. */
  lemma MergeLeft(lists: seq<seq<FrameChunk>>, slots: seq<Option<FrameChunk>>, free: set<nat>, live: set<nat>, m: nat,
                  p: nat, c: FrameChunk, b: FrameChunk)
    requires p > 0 && Held(lists, slots, free, live, m, 2 * p, c) && 2 * p + 1 in free
             && IsNode(2 * p + 1, b.start, b.order, m)
    ensures b.start < |slots| && slots[b.start] == Some(b) && b.order < |lists|
    ensures Held(lists[b.order := Without(lists[b.order], b)], slots[b.start := None], free - {2 * p + 1}, live, m,
                 p, c.(order := c.order + 1))
  {
    hide ListsOk, SlotsName, SlotsFresh, Without, IsNode;
    assert 2 * p % 2 == 0 && 2 * p / 2 == p;
    HandMergeLeft(free, live, Pow2(m), p);
    LeftUp(2 * p, c.start, c.order, m);
    RemoveFromList(lists, free, m, 2 * p + 1, b);
    DropSlot(slots, free, live, c.start, m, 2 * p + 1, b);
  }

  lemma MergeRight(lists: seq<seq<FrameChunk>>, slots: seq<Option<FrameChunk>>, free: set<nat>, live: set<nat>, m: nat,
                   p: nat, c: FrameChunk, b: FrameChunk)
    requires p > 0 && Held(lists, slots, free, live, m, 2 * p + 1, c) && 2 * p in free
             && IsNode(2 * p, b.start, b.order, m)
    ensures c.start < |slots| && b.start < |slots| && slots[b.start] == Some(b) && b.start != c.start
            && b.order < |lists|
    ensures Held(lists[b.order := Without(lists[b.order], b)], slots[c.start := None], free - {2 * p}, live, m,
                 p, b.(order := b.order + 1))
  {
    hide ListsOk, SlotsName, SlotsFresh, Without, IsNode;
    assert 2 * p % 2 == 0 && 2 * p / 2 == p;
    HandMergeRight(free, live, Pow2(m), p);
    LeftUp(2 * p, b.start, b.order, m);
    RemoveFromList(lists, free, m, 2 * p, b);
    DropHandSlot(slots, free, live, m, 2 * p + 1, c, 2 * p, b);
  }

  /** A lent block that is given back. */
  lemma TakeBack(lists: seq<seq<FrameChunk>>, slots: seq<Option<FrameChunk>>, free: set<nat>, live: set<nat>, m: nat,
                 a: nat, c: FrameChunk)
    requires Structured(lists, slots, free, live, m) && a in live && IsNode(a, c.start, c.order, m)
    ensures Held(lists, slots, free, live - {a}, m, a, c)
  {
    hide ListsOk, SlotsName;
    HandReturn(free, live, Pow2(m), a);
    OthersKnown(slots, free + live, -1, m, a, c);
  }

  /** A free block may be claimed while it is still on its list. */
  lemma Claim(lists: seq<seq<FrameChunk>>, slots: seq<Option<FrameChunk>>, free: set<nat>, live: set<nat>, m: nat,
              a: nat, c: FrameChunk)
    requires Structured(lists, slots, free, live, m) && a in free && IsNode(a, c.start, c.order, m)
    ensures Listed(lists, slots, free - {a}, live, m, a, c)
  {
    hide ListsOk, SlotsName, SlotsFresh;
    HandTake(free, live, Pow2(m), a);
    assert free - {a} + {a} == free;
    assert free - {a} + live + {a} == free + live;
  }

  /** A claimed block is lent once it leaves its list. */
  lemma Lend(lists: seq<seq<FrameChunk>>, slots: seq<Option<FrameChunk>>, free: set<nat>, live: set<nat>, m: nat,
             a: nat, c: FrameChunk)
    requires Listed(lists, slots, free, live, m, a, c)
    ensures c.order < |lists|
    ensures Structured(lists[c.order := Without(lists[c.order], c)], slots, free, live + {a}, m)
  {
    hide ListsOk, SlotsFresh;
    HandLend(free, live, Pow2(m), a);
    RemoveFromList(lists, free + {a}, m, a, c);
    assert free + {a} - {a} == free;
    assert free + (live + {a}) == free + live + {a};
  }

  /** `split_chunk`: the two halves replace a claimed block on the lists, and the right half is claimed. */
  lemma SplitStep(lists: seq<seq<FrameChunk>>, slots: seq<Option<FrameChunk>>, free: set<nat>, live: set<nat>, m: nat,
                  a: nat, c: FrameChunk, left: FrameChunk, right: FrameChunk)
    requires Listed(lists, slots, free, live, m, a, c) && c.order > 0
    requires left == c.(order := c.order - 1) && right == FrameChunk(c.start + Pow2(c.order - 1), c.order - 1)
    ensures c.order < |lists| && c.start < |slots| && right.start < |slots|
    ensures var lists1 := lists[c.order := Without(lists[c.order], c)];
            var lists2 := lists1[left.order := lists1[left.order] + [left]];
            var lists3 := lists2[right.order := lists2[right.order] + [right]];
            var slots' := slots[c.start := Some(left)][right.start := Some(right)];
            Listed(lists3, slots', free + {2 * a}, live, m, 2 * a + 1, right)
  {
    hide ListsOk, SlotsName, SlotsFresh;
    NodeInRange(a, c.start, c.order, m);
    NodeDown(a, c.start, c.order, m);
    HandSplit(free, live, Pow2(m), a);
    SplitLists(lists, free, m, a, c, left, right);
    SplitSlots(slots, free, live, m, a, c, left, right);
    assert free + {2 * a, 2 * a + 1} == free + {2 * a} + {2 * a + 1};
    assert free + live + {2 * a, 2 * a + 1} == free + {2 * a} + live + {2 * a + 1};
  }

  lemma SplitLists(lists: seq<seq<FrameChunk>>, free: set<nat>, m: nat, a: nat, c: FrameChunk, left: FrameChunk,
                   right: FrameChunk)
    requires a !in free && 2 * a !in free && 2 * a + 1 !in free && ListsOk(lists, free + {a}, m)
    requires IsNode(a, c.start, c.order, m)
    requires IsNode(2 * a, left.start, left.order, m) && IsNode(2 * a + 1, right.start, right.order, m)
    ensures c.order < |lists| && left.order < |lists| && right.order < |lists|
    ensures var lists1 := lists[c.order := Without(lists[c.order], c)];
            var lists2 := lists1[left.order := lists1[left.order] + [left]];
            var lists3 := lists2[right.order := lists2[right.order] + [right]];
            ListsOk(lists3, free + {2 * a, 2 * a + 1}, m)
  {
    hide ListsOk;
    RemoveFromList(lists, free + {a}, m, a, c);
    assert free + {a} - {a} == free;
    var lists1 := lists[c.order := Without(lists[c.order], c)];
    AppendToList(lists1, free, m, 2 * a, left);
    var lists2 := lists1[left.order := lists1[left.order] + [left]];
    AppendToList(lists2, free + {2 * a}, m, 2 * a + 1, right);
    assert free + {2 * a} + {2 * a + 1} == free + {2 * a, 2 * a + 1};
  }

  lemma SplitSlots(slots: seq<Option<FrameChunk>>, free: set<nat>, live: set<nat>, m: nat,
                   a: nat, c: FrameChunk, left: FrameChunk, right: FrameChunk)
    requires a !in free && SlotsName(slots, free + {a}, m) && SlotsFresh(slots, free + live + {a}, -1, m)
    requires Apart(free, 2 * a) && Apart(free + {2 * a}, 2 * a + 1)
    requires IsNode(a, c.start, c.order, m) && left.start == c.start
    requires IsNode(2 * a, left.start, left.order, m) && IsNode(2 * a + 1, right.start, right.order, m)
    ensures c.start < |slots| && right.start < |slots|
    ensures var slots' := slots[c.start := Some(left)][right.start := Some(right)];
            && SlotsName(slots', free + {2 * a, 2 * a + 1}, m)
            && SlotsFresh(slots', free + live + {2 * a, 2 * a + 1}, -1, m)
  {
    hide SlotsFresh, Apart, IsNode;
    assert SlotsName(slots, free, m);
    hide SlotsName;
    FillSlot(slots, free, m, 2 * a, left);
    FillSlot(slots[c.start := Some(left)], free + {2 * a}, m, 2 * a + 1, right);
    assert free + {2 * a} + {2 * a + 1} == free + {2 * a, 2 * a + 1};
    SplitFresh(slots, free + live, m, a, c, left, right);
  }

  lemma SplitFresh(slots: seq<Option<FrameChunk>>, known: set<nat>, m: nat,
                   a: nat, c: FrameChunk, left: FrameChunk, right: FrameChunk)
    requires SlotsFresh(slots, known + {a}, -1, m) && c.start < |slots| && right.start < |slots|
    requires IsNode(a, c.start, c.order, m) && left.start == c.start
    requires IsNode(2 * a, left.start, left.order, m) && IsNode(2 * a + 1, right.start, right.order, m)
    ensures SlotsFresh(slots[c.start := Some(left)][right.start := Some(right)], known + {2 * a, 2 * a + 1}, -1, m)
  {
    OthersKnown(slots, known + {a}, -1, m, a, c);
    NodeNames(2 * a, left, m);
    NodeNames(2 * a + 1, right, m);
  }

  // ----- the order of the lists

  /** The buddy of a chunk. */
  function Mate(c: FrameChunk): FrameChunk {
    FrameChunk(if Aligned(c.start, c.order + 1) || c.start < Pow2(c.order) then c.start + Pow2(c.order)
               else c.start - Pow2(c.order), c.order)
  }

  /** A chunk and its buddy together. */
  function WithMate(c: FrameChunk): FrameChunk {
    FrameChunk(if Aligned(c.start, c.order + 1) || c.start < Pow2(c.order) then c.start
               else c.start - Pow2(c.order), c.order + 1)
  }

  /** The lists after `c` is freed: while its buddy is listed the two merge, and what they end in joins its list. */
  function FreedLists(lists: seq<seq<FrameChunk>>, c: FrameChunk): (r: seq<seq<FrameChunk>>)
    requires c.order < |lists|
    ensures |r| == |lists|
    decreases |lists| - c.order
  {
    if c.order + 1 < |lists| && Mate(c) in lists[c.order] then
      FreedLists(lists[c.order := Without(lists[c.order], Mate(c))], WithMate(c))
    else lists[c.order := lists[c.order] + [c]]
  }

  /** `s'` is `s` without one member, the rest in its old order. */
  ghost predicate LosesOne(s: seq<FrameChunk>, s': seq<FrameChunk>, x: FrameChunk) {
    exists i :: 0 <= i < |s| && s[i] == x && s' == s[..i] + s[i + 1..]
  }

  lemma {:induction false} WithoutIndex(s: seq<FrameChunk>, x: FrameChunk) returns (i: nat)
    requires x in s
    ensures i < |s| && s[i] == x && Without(s, x) == s[..i] + s[i + 1..]
  {
    i := 0;
    if s[0] != x {
      i := WithoutIndex(s[1..], x);
      assert [s[0]] + (s[1..][..i] + s[1..][i + 1..]) == s[..i + 1] + s[i + 2..];
      i := i + 1;
    }
  }

  /** The member that `s'` lacks is a chunk of order `k` inside `e`. */
  ghost predicate LosesPart(s: seq<FrameChunk>, s': seq<FrameChunk>, k: nat, e: FrameChunk) {
    exists x :: LosesOne(s, s', x) && x.order == k && e.start <= x.start && x.start + Pow2(k) <= e.start + Pow2(e.order)
  }

  /**
   Chunk `e` of order `c.order` or more ends a cascade that `c` began: it is the last of its list, each list in between
   lost one chunk, its old members keep their order, and no other list changed.
   */
  ghost predicate EndsCascade(lists: seq<seq<FrameChunk>>, lists': seq<seq<FrameChunk>>, c: FrameChunk, e: FrameChunk)
  {
    && |lists'| == |lists| && c.order <= e.order < |lists|
    && e.start <= c.start && c.start + Pow2(c.order) <= e.start + Pow2(e.order)
    && lists'[e.order] == lists[e.order] + [e]
    && (forall k :: c.order <= k < e.order ==> LosesPart(lists[k], lists'[k], k, e))
    && (forall k :: 0 <= k < |lists| && !(c.order <= k <= e.order) ==> lists'[k] == lists[k])
  }

  /** Every free ends a cascade like that; without a buddy on the list the chunk itself does. */
  lemma {:induction false} FreedEnds(lists: seq<seq<FrameChunk>>, c: FrameChunk) returns (e: FrameChunk)
    requires c.order < |lists|
    ensures EndsCascade(lists, FreedLists(lists, c), c, e)
    ensures e == c <==> c.order + 1 == |lists| || Mate(c) !in lists[c.order]
    decreases |lists| - c.order
  {
    e := c;
    if c.order + 1 < |lists| && Mate(c) in lists[c.order] {
      var lists1 := lists[c.order := Without(lists[c.order], Mate(c))];
      e := FreedEnds(lists1, WithMate(c));
      var i := WithoutIndex(lists[c.order], Mate(c));
      CascadeStep(lists, FreedLists(lists, c), c, e);
    }
  }

  lemma CascadeStep(lists: seq<seq<FrameChunk>>, lists': seq<seq<FrameChunk>>, c: FrameChunk, e: FrameChunk)
    requires c.order + 1 < |lists| && LosesOne(lists[c.order], Without(lists[c.order], Mate(c)), Mate(c))
    requires EndsCascade(lists[c.order := Without(lists[c.order], Mate(c))], lists', WithMate(c), e)
    ensures EndsCascade(lists, lists', c, e)
  {
    hide LosesOne, Without, Aligned;
    var lists1 := lists[c.order := Without(lists[c.order], Mate(c))];
    assert lists'[c.order] == lists1[c.order];
    assert Pow2(c.order + 1) == 2 * Pow2(c.order);
    forall k | c.order <= k < e.order
      ensures LosesPart(lists[k], lists'[k], k, e)
    {
      if k == c.order {
        assert LosesOne(lists[k], lists'[k], Mate(c));
      } else {
        assert lists1[k] == lists[k] && LosesPart(lists1[k], lists'[k], k, e);
      }
    }
  }

  /** The left half that stays on list `k` when blocks ending at frame `end` are halved. */
  function LeftHalf(end: nat, k: nat): FrameChunk {
    FrameChunk(if Pow2(k + 1) <= end then end - Pow2(k + 1) else 0, k)
  }

  /** The lists while `bigger` is halved, down to its right end `chunk`; the lists of smaller orders were empty. */
  ghost predicate Halving(lists: seq<seq<FrameChunk>>, lists': seq<seq<FrameChunk>>, bigger: FrameChunk,
                          chunk: FrameChunk)
  {
    var end := bigger.start + Pow2(bigger.order);
    && |lists'| == |lists| && chunk.order <= bigger.order < |lists| && chunk.start + Pow2(chunk.order) == end
    && (forall k :: 0 <= k < |lists| && (k < chunk.order || k > bigger.order) ==> lists'[k] == lists[k])
    && (if chunk.order == bigger.order then lists'[bigger.order] == lists[bigger.order] && chunk == bigger
        else
          && lists'[bigger.order] == Without(lists[bigger.order], bigger)
          && (forall k :: chunk.order < k < bigger.order ==> lists'[k] == [LeftHalf(end, k)])
          && lists'[chunk.order] == [LeftHalf(end, chunk.order), chunk])
  }

  lemma HalvingStep(lists: seq<seq<FrameChunk>>, lists1: seq<seq<FrameChunk>>, lists2: seq<seq<FrameChunk>>,
                    bigger: FrameChunk, c: FrameChunk, right: FrameChunk)
    requires Halving(lists, lists1, bigger, c) && 0 < c.order && lists[c.order - 1] == []
    requires right == FrameChunk(c.start + Pow2(c.order - 1), c.order - 1)
    requires lists2 == lists1[c.order := Without(lists1[c.order], c)]
                             [c.order - 1 := lists1[c.order - 1] + [c.(order := c.order - 1), right]]
    ensures Halving(lists, lists2, bigger, right)
  {
    assert Pow2(c.order) == 2 * Pow2(c.order - 1);
    var end := bigger.start + Pow2(bigger.order);
    assert LeftHalf(end, c.order - 1) == c.(order := c.order - 1);
    if c.order < bigger.order {
      StaysBehind(end, c, bigger.order);
    }
    hide Pow2, LeftHalf, Without;
    assert lists2[right.order] == [c.(order := c.order - 1), right];
  }

  lemma StaysBehind(end: nat, c: FrameChunk, order: nat)
    requires c.order < order && Pow2(order) <= end && c.start + Pow2(c.order) == end
    ensures Without([LeftHalf(end, c.order), c], c) == [LeftHalf(end, c.order)]
  {
    assert Pow2(c.order + 1) == 2 * Pow2(c.order);
    Pow2Monotone(c.order + 1, order);
    assert LeftHalf(end, c.order) != c;
  }

  /** The lists after a block of order `order` came off the head of list `found`, where those in between were empty. */
  ghost predicate HeadSplit(lists: seq<seq<FrameChunk>>, lists': seq<seq<FrameChunk>>, found: nat, order: nat) {
    && |lists'| == |lists| && order < found < |lists| && lists[found] != []
    && (forall k :: order <= k < found ==> lists[k] == [])
    && lists'[found] == lists[found][1..]
    && (forall k :: order <= k < found ==> lists'[k] == [LeftHalf(lists[found][0].start + Pow2(found), k)])
    && (forall k :: 0 <= k < |lists| && (k < order || k > found) ==> lists'[k] == lists[k])
  }

  lemma HalvingEnds(lists: seq<seq<FrameChunk>>, lists1: seq<seq<FrameChunk>>, found: nat, c: FrameChunk)
    requires found < |lists| && lists[found] != [] && c.order < found == lists[found][0].order
    requires Halving(lists, lists1, lists[found][0], c) && forall k :: c.order <= k < found ==> lists[k] == []
    ensures HeadSplit(lists, lists1[c.order := Without(lists1[c.order], c)], found, c.order)
  {
    StaysBehind(lists[found][0].start + Pow2(found), c, found);
    assert Without(lists[found], lists[found][0]) == lists[found][1..];
  }

  /** What one split, and lending its right half, do to the lists. */
  lemma OneSplit(lists: seq<seq<FrameChunk>>, lists1: seq<seq<FrameChunk>>, lists2: seq<seq<FrameChunk>>,
                 found: nat, c: FrameChunk, right: FrameChunk)
    requires 0 < found < |lists| && lists[found] != [] && lists[found][0] == c && c.order == found
    requires lists1 == lists[found := Without(lists[found], c)]
                            [found - 1 := lists[found - 1] + [c.(order := found - 1), right]]
    requires Distinct(lists1[found - 1]) && lists2 == lists1[found - 1 := Without(lists1[found - 1], right)]
    ensures lists2 == lists[found := lists[found][1..]][found - 1 := lists[found - 1] + [c.(order := found - 1)]]
  {
    var s := lists1[found - 1];
    assert s[|s| - 1] == right && s[|s|..] == [];
    WithoutAt(s, |s| - 1);
    assert s[..|s| - 1] == lists[found - 1] + [c.(order := found - 1)];
    assert Without(s, right) == lists[found - 1] + [c.(order := found - 1)];
    assert Without(lists[found], c) == lists[found][1..];
  }

  lemma {:induction false} HalfwayUnaligned(x: nat, k: nat)
    requires Aligned(x, k + 1)
    ensures !Aligned(x + Pow2(k), k + 1)
  {
    if k > 0 {
      assert (x + Pow2(k)) / 2 == x / 2 + Pow2(k - 1);
      HalfwayUnaligned(x / 2, k - 1);
    }
  }

  lemma MateNode(a: nat, c: FrameChunk, m: nat)
    requires IsNode(a, c.start, c.order, m) && a > 1
    ensures c.order < m && IsNode(Buddy(a), Mate(c).start, c.order, m)
    ensures a % 2 == 0 <==> Mate(c).start == c.start + Pow2(c.order)
    ensures IsNode(a / 2, WithMate(c).start, c.order + 1, m)
    ensures WithMate(c).start == if a % 2 == 0 then c.start else Mate(c).start
  {
    hide IsNode;
    PairStart(a, c, m);
    if a % 2 == 0 {
      LeftUp(a, c.start, c.order, m);
      NodeInRange(a / 2, c.start, c.order + 1, m);
    } else {
      RightUp(a, c.start, c.order, m);
      NodeInRange(a / 2, c.start - Pow2(c.order), c.order + 1, m);
      HalfwayUnaligned(c.start - Pow2(c.order), c.order);
    }
  }

  /** The buddy of a block is on its list exactly if it is free. */
  lemma MateIsBuddy(lists: seq<seq<FrameChunk>>, free: set<nat>, m: nat, a: nat, c: FrameChunk)
    requires ListsOk(lists, free, m) && IsNode(a, c.start, c.order, m) && a > 1
    ensures c.order < m && (Mate(c) in lists[c.order] <==> Buddy(a) in free)
  {
    hide ListsOk, IsNode;
    MateNode(a, c, m);
    ListedIffFree(lists, free, m, Buddy(a), Mate(c));
  }

  lemma ListedIffFree(lists: seq<seq<FrameChunk>>, free: set<nat>, m: nat, a: nat, c: FrameChunk)
    requires ListsOk(lists, free, m) && IsNode(a, c.start, c.order, m)
    ensures c in lists[c.order] <==> a in free
  {
    NodeNames(a, c, m);
  }

  // ----- completeness

  /** A run of free frames of an order lies in a free block of at least that order. */
  lemma RunIsInBlock(free: set<nat>, m: nat, start: nat, order: nat) returns (b: nat)
    requires Proper(free, Pow2(m)) && order <= m && Aligned(start, order) && start < Pow2(m)
    requires Interval(start, order) <= Frames(free, Pow2(m))
    ensures b in free && 0 < b < 2 * Pow2(m) && ChunkOf(b, m).order >= order
  {
    var a := NodeExists(start, order, m);
    NodeInRange(a, start, order, m);
    NodeFrames(a, start, order, m);
    FullIsFramesOf(Frames(free, Pow2(m)), a, Pow2(m));
    FullIsHas(free, Pow2(m), a);
    b := HasWitness(free, a);
    OrderOfContainer(b, ChunkOf(b, m), a, order, m);
  }

  lemma OrderOfContainer(b: nat, d: FrameChunk, a: nat, order: nat, m: nat)
    requires IsNode(b, d.start, d.order, m) && order <= m && a < 2 * Pow2(m - order) && b <= a
    ensures d.order >= order
  {
    if d.order < order {
      Pow2Monotone(m - order, m - d.order);
    }
  }

  /** If the lists from some order up are empty, no aligned run of that order is free. */
  lemma NoRun(lists: seq<seq<FrameChunk>>, free: set<nat>, m: nat, order: nat)
    requires ListsOk(lists, free, m) && Proper(free, Pow2(m)) && order <= m
    requires forall k :: order <= k <= m ==> lists[k] == []
    ensures forall start: nat :: Aligned(start, order) && start < Pow2(m) ==>
            !(Interval(start, order) <= Frames(free, Pow2(m)))
  {
    forall start: nat | Aligned(start, order) && start < Pow2(m)
      ensures !(Interval(start, order) <= Frames(free, Pow2(m)))
    {
      if Interval(start, order) <= Frames(free, Pow2(m)) {
        var b := RunIsInBlock(free, m, start, order);
      }
    }
  }

  /** The last block of a list, and what `pop` leaves. */
  lemma PopIsWithout(lists: seq<seq<FrameChunk>>, free: set<nat>, m: nat, k: nat)
    requires ListsOk(lists, free, m) && k <= m && lists[k] != []
    ensures var c := lists[k][|lists[k]| - 1];
            c.order == k && Named(free, c, m) && Without(lists[k], c) == lists[k][..|lists[k]| - 1]
  {
    var s := lists[k];
    assert s[|s| - 1] in s;
    WithoutAt(s, |s| - 1);
    assert s[|s|..] == [];
  }

  /** The head of a list. */
  lemma HeadNamed(lists: seq<seq<FrameChunk>>, free: set<nat>, m: nat, k: nat)
    requires ListsOk(lists, free, m) && k <= m && lists[k] != []
    ensures lists[k][0].order == k && Named(free, lists[k][0], m)
  {
    assert lists[k][0] in lists[k];
  }

  /** Splitting without touching the bit of the pair that loses its block leaves that bit wrong. */
  lemma UntouchedBitIsWrong(words: seq<uint32>, words': seq<uint32>, free: set<nat>, n: nat, a: nat)
    requires BitsOk(words, free, n) && Proper(free, n) && a in free && a < n && 2 * a !in free && 2 * a + 1 !in free
    requires forall p: nat :: BitSet(words', p) <==> p == a || BitSet(words, p)
    ensures BitsOk(words', free - {a} + {2 * a}, n) <==> a == 1
  {
    var free' := free - {a} + {2 * a};
    FreePairBit(words, free, n, a);
    assert Buddy(a) !in free;
    if a > 1 {
      var p := a / 2;
      assert {a, Buddy(a)} == {2 * p, 2 * p + 1};
      assert BitSet(words', p) && !PairBit(free', p);
    } else {
      forall p | 1 <= p < n
        ensures BitSet(words', p) <==> PairBit(free', p)
      {
        assert PairBit(free', p) <==> p == 1 || PairBit(free, p);
      }
    }
  }

  lemma NoBits(words: seq<uint32>)
    requires forall i :: 0 <= i < |words| ==> words[i] == 0
    ensures forall p: nat :: !BitSet(words, p)
  {
    forall p: nat
      ensures !BitSet(words, p)
    {
      ZeroHasNoBit(p % 32);
    }
  }

  /** A manager with nothing handed in. */
  lemma NothingYet(lists: seq<seq<FrameChunk>>, slots: seq<Option<FrameChunk>>, words: seq<uint32>, m: nat)
    requires |lists| == m + 1 && forall k :: 0 <= k < |lists| ==> lists[k] == []
    requires |slots| == Pow2(m) && forall f :: 0 <= f < |slots| ==> slots[f].None?
    requires forall i :: 0 <= i < |words| ==> words[i] == 0
    ensures Structured(lists, slots, {}, {}, m) && BitsOk(words, {}, Pow2(m))
  {
    NoBits(words);
  }
}
