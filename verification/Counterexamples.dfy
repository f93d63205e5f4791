/**
 Concrete inputs on which the code departs from its evident intent.  The exact conditions are proved beside
 the operations; each member here names the condition that it shows to be needed.
 */
module MathCounterexamples {
  import opened CMath

  /** CeilDivideWordIff: half of the greatest word is taken for 0. */
  lemma HalfOfTheGreatest()
    ensures CeilDivideWord(0xFFFF_FFFF, 2) == 0 && CeilDivide(0xFFFF_FFFF, 2) == 0x8000_0000
  {
  }
}

module FrameCounterexamples {
  import opened BuddyBlocks
  import opened BuddyLists
  import opened BuddyManagers
  import opened BuddyNumbering
  import opened BuddyRange
  import opened BuddyTree
  import opened Options
  import opened Orders

  /** PairsBuddiesIff: with three frames, frames 0 and 1 do not share a bit. */
  lemma ThreeFramesDoNotPair()
    ensures BitIndex(3, 0, 0) != BitIndex(3, 1, 0) && !PairsBuddies(3)
  {
    assert Aligned(0, 1) && 0 + Pow2(0 + 1) <= 3;
    assert BitIndex(3, 0, 0) != BitIndex(3, 0 + Pow2(0), 0);
  }

  /**
   AllocFramesAsWritten: of four frames, frames 1..3 are handed in, as a block of one and a block of two.
   A request for one frame takes frame 1 off its list, drops it, and splits the block of two as well.
   */
  method AllocLosesAFrame() returns (manager: BuddyManager, r: Option<FrameChunk>, ghost before: set<nat>)
    ensures before == {1, 2, 3} && !(manager.Valid() && manager.Served(before, 0, r))
  {
    hide CutNodes, PieceOrder, Structured, BitsOk, BitSet, Interval, Frames, Range, Named, CeilOrder, FloorOrder;
    SmallOrders();
    manager := new BuddyManager(4);
    NothingFree(4);
    ThreeFrames();
    CeilOrderOfPow2(manager.maxOrder);
    assert manager.maxOrder == 2;
    var _ := manager.FreeRange(0x1000, 0x3000);
    before := manager.FreeFrames();
    OneIsListed(manager);
    var outside: bool;
    r, outside := manager.AllocFramesAsWritten(1);
  }

  /**
   AllocFramesAsWritten: with four free frames in one block, a request for one frame is answered with two,
   although the free lists and the bitmap stay right.
   */
  method AllocGivesTwoFrames() returns (manager: BuddyManager, r: Option<FrameChunk>)
    ensures manager.Valid() && r.Some? && r.value.order == 1 && CeilOrder(1) == 0
  {
    hide Structured, BitsOk, BitSet, Interval, Frames, Named, CeilOrder, FloorOrder;
    SmallOrders();
    manager := FourFreeFrames();
    var outside: bool;
    r, outside := manager.AllocFramesAsWritten(1);
  }

  /** FreePages: lending all of memory and taking it back reads outside `frames`. */
  method SecondTimeReachesOutside() returns (outside: bool)
    ensures outside
  {
    hide Structured, BitsOk, BitSet, Frames, Named, CeilOrder, FloorOrder;
    SmallOrders();
    var manager := FourFreeFrames();
    var r := manager.AllocFrames(4);
    outside := manager.FreePages(r.value);
  }

  /** All four frames of a manager are handed in. */
  method FourFreeFrames() returns (manager: BuddyManager)
    ensures manager.Valid() && manager.maxOrder == 2 && manager.frameCount == 4
    ensures fresh(manager) && fresh(manager.bitmap) && fresh(manager.frames) && fresh(manager.orderMap)
    ensures manager.FreeFrames() == Interval(0, 2) && BitSet(manager.bitmap[..], 0)
    ensures manager.orderMap[0] == [] && manager.orderMap[1] == [] && manager.orderMap[2] != []
  {
    hide CutNodes, PieceOrder, Structured, BitsOk, BitSet, Frames, Named, CeilOrder, FloorOrder;
    SmallOrders();
    manager := new BuddyManager(4);
    NothingFree(4);
    CeilOrderOfPow2(manager.maxOrder);
    assert manager.maxOrder == 2;
    var outside := manager.FreeRange(0, 0x3000);
    FourFrames();
    manager.WhenAllIsFree();
  }

  lemma FourFrames()
    ensures Range(0, 3) == Interval(0, 2)
  {
    SmallOrders();
    assert forall f: nat :: f in Range(0, 3) <==> Between(0, 3, f);
    assert forall f: nat :: f in Interval(0, 2) <==> Within(0, 2, f);
  }

  lemma SmallOrders()
    ensures Pow2(0) == 1 && Pow2(1) == 2 && Pow2(2) == 4
    ensures CeilOrder(1) == 0 && CeilOrder(4) == 2 && FloorOrder(3) == 1
  {
    CeilOrderOfPow2(2);
    CeilOrderOfPow2(0);
  }

  lemma ThreeFrames()
    ensures Range(1, 3) == {1, 2, 3}
  {
    assert forall f: nat :: f in Range(1, 3) <==> Between(1, 3, f);
  }

  lemma OneIsListed(manager: BuddyManager)
    requires manager.Valid() && manager.maxOrder == 2 && manager.free == CutNodes(1, 3, 2)
    ensures manager.orderMap[0] != []
  {
    SmallOrders();
    assert PieceOrder(1, 3) == 0;
    var a := PieceNode(1, 3, 2);
    NodeNames(a, FrameChunk(1, 0), 2);
    assert a in manager.free;
  }
}

module RegionCounterexamples {
  import opened BuddyRange
  import opened MemoryRegions

  /** HandedExactIff: of a region of one page, two frames are handed in. */
  lemma OnePageIsTwoFrames()
    ensures Handed(Region(0x900_0000, 0x1000), 0x830_0000) == {0x9000, 0x9001}
    ensures forall f: nat :: Usable(Region(0x900_0000, 0x1000), 0x830_0000, f) <==> f == 0x9000
  {
    assert forall f: nat :: f in Range(0x9000, 0x9001) <==> Between(0x9000, 0x9001, f);
  }
}

module HeapCounterexamples {
  import opened HeapChain
  import opened HeapMemory
  import opened Heaps
  import opened Masks
  import opened Orders

  /**
   SplitBlockAsWritten: 0x60 bytes aligned to 32 are asked of a pool of one block.  The header moves up by 16, the
   rest of the block is used up, and the block's size reaches past the pool.
   */
  method SplitLeavesThePool() returns (heap: Heap)
    ensures AlignUp(0x1010, 32) == 0x1020 && AlignBlock(Block(0x1000, 0x70, false), 0x60, 32) == 0x1080
    ensures !(Linked(heap.memory, heap.chain, 0, 0) && Tiles(heap.chain, heap.poolEnd))
  {
    Mask32();
    heap := new Heap(0x1000, 0x80);
    var block := heap.SplitBlockAsWritten(0x1000, 0x1080, 16, 0);
  }

  lemma Mask32()
    ensures AlignDown(0x1010, 32) == 0x1000 && AlignDown(0x1030, 32) == 0x1020
  {
    CeilOrderOfPow2(5);
    MaskRoundsIff(32);
    assert AlignDown(0x1010, 32) == RoundDown(0x1010, 32) && AlignDown(0x1030, 32) == RoundDown(0x1030, 32);
  }

  /** MaskRoundsIff: 24 is no power of two, and the place found for it behind address 16 is no multiple of 24. */
  lemma TwentyFourIsNoMask()
    ensures Place(16, 24) == 40 && 40 % 24 != 0
  {
    MaskOf(24);
    Bits24();
    hide And;
  }

  lemma Bits24()
    ensures And(16, 23) == 16 && And(40, 23) == 0
  {
    assert And(1, 1) == 1 && And(2, 2) == 2 && And(4, 5) == 4 && And(8, 11) == 8;
    assert And(5, 2) == 0 && And(10, 5) == 0 && And(20, 11) == 0;
  }

  /** FreeUndoesAllocIff: a gap of one header in front of the first block is never seen again. */
  lemma GapIsLost()
    ensures var chain := [Block(0x1000, 0x70, false)];
            && Tiles(chain, 0x1080)
            && Release(Carve(chain, 0, 0x1080, 16, true), 0) == [Block(0x1010, 0x60, false)]
  {
    var chain := [Block(0x1000, 0x70, false)];
    assert Front(chain, 0, 16) == [];
    ReleaseCarved([], chain[0], [], 0x1080, 16);
    assert chain[1..] == [];
    assert Carve(chain, 0, 0x1080, 16, true) == [] + Carved(chain[0], 0x1080, 16, true) + [];
  }

  /**
   Kfree: two neighbours are freed, the left one first.  The test passes when the right one is freed again, although it
   is no block any more.
   */
  method SecondFreePasses() returns (heap: Heap, address: nat)
    ensures heap.Valid() && address >= HEADER && forall b :: b in heap.chain ==> b.addr != address - HEADER
    ensures address - HEADER in heap.memory && heap.memory[address - HEADER].magic == MAGIC
  {
    hide Release, Carve, FirstFit, Fits, Tiles, Coalesced, Linked, Place;
    heap := new Heap(0x1000, 0x100);
    FirstFour();
    var first := heap.Kmalloc(4);
    SecondFour();
    address := heap.Kmalloc(4);
    Magic(heap, 0);
    var panic := heap.Kfree(first, 0);
    FirstFreed();
    Magic(heap, 1);
    panic := heap.Kfree(address, 1);
  }

  /** The chain with `n` blocks of four bytes in front. */
  function Fours(n: nat): seq<Block>
    requires n <= 2
  {
    if n == 0 then [Block(0x1000, 0xF0, false)]
    else if n == 1 then [Block(0x1000, 4, true), Block(0x1014, 0xDC, false)]
    else [Block(0x1000, 4, true), Block(0x1014, 4, true), Block(0x1028, 0xC8, false)]
  }

  lemma FirstFour()
    ensures FirstFit(Fours(0), 4, 1) == 0 && Place(0x1010, 1) == 0x1010
    ensures Carve(Fours(0), 0, 0x1014, 0, true) == Fours(1)
    ensures Fours(0)[0] in Fours(0) && Fits(Fours(0)[0], 4, 1)
  {
    assert Fits(Fours(0)[0], 4, 1);
  }

  lemma SecondFour()
    ensures FirstFit(Fours(1), 4, 1) == 1 && Place(0x1024, 1) == 0x1024
    ensures Carve(Fours(1), 1, 0x1028, 0, true) == Fours(2)
    ensures Fours(1)[1] in Fours(1) && Fits(Fours(1)[1], 4, 1)
  {
    assert Fours(1)[1..] == [Block(0x1014, 0xDC, false)];
    assert Fits(Fours(1)[1], 4, 1) && !Fits(Fours(1)[0], 4, 1);
  }

  lemma FirstFreed()
    ensures var chain := Release(Fours(2), 0);
            |chain| == 3 && chain[0] == Block(0x1000, 4, false) && chain[1] == Block(0x1014, 4, true)
  {
  }

  lemma Magic(heap: Heap, i: nat)
    requires heap.Valid() && i < |heap.chain|
    ensures heap.chain[i].addr in heap.memory && heap.memory[heap.chain[i].addr].magic == MAGIC
  {
    assert At(heap.memory, heap.chain, i, 0, 0);
  }

  /**
   AlignBlockExact: in a pool of 128 MB at 0xC0200000, an alignment of 1 GB leaves 32 bits, and a place at
   address 0 is taken.
   */
  method AlignmentWraps() returns (wrapped: bool)
    ensures wrapped
  {
    hide AlignDown, PowerOfTwo, Wraps, FirstFit;
    var heap := new Heap(0xC020_0000, 0x800_0000);
    OneGigabyte();
    var b := Block(0xC020_0000, 0x7FF_FFF0, false);
    assert heap.chain == [b];
    WrapsPower(b, 8, 0x4000_0000);
    WrappedAnswer(b, 8, 0x4000_0000);
    assert FirstFit(heap.chain, 8, 0x4000_0000) > 0;
    assert Wraps(heap.chain[0], 8, 0x4000_0000);
    var r: nat;
    r, wrapped := heap.KmallocAligned(8, 0x4000_0000);
  }

  lemma OneGigabyte()
    ensures PowerOfTwo(0x4000_0000)
  {
    assert Pow2(10) == 0x400;
    assert Pow2(20) == 0x10_0000;
    assert Pow2(30) == 0x4000_0000;
    CeilOrderOfPow2(30);
  }
}

module ListCounterexamples {
  import opened IntrusiveLists
  import opened Seqs

  /** AssertionMissesOnlyMember: appending the only member of a list to another one breaks the first. */
  method AppendTakesAMember() returns (a: List, b: List)
    ensures a.Valid() && forall s: seq<ListNode> :: !b.Represents(s)
  {
    var node := new ListNode();
    b := new List();
    b.Append(node);
    a := new List();
    assert b.items == [node] && b.Linked(b.items, 0);
    a.Append(node);
  }

  /** Remove: the middle one of three nodes, removed a second time. */
  method SecondRemoveFaults() returns (first: Outcome, second: Outcome)
    ensures first == Removed && second == NullDereferenced
  {
    hide Distinct, Without;
    var list := new List();
    var x := new ListNode();
    var y := new ListNode();
    var z := new ListNode();
    list.Append(x);
    list.Append(y);
    list.Append(z);
    assert list.items == [x, y, z];
    assert Without([x, y, z], y) == [x, z] by {
      WithoutAt([x, y, z], 1);
    }
    first := list.Remove(y);
    second := list.Remove(y);
  }
}

module LockCounterexamples {
  import opened KernelRuns
  import opened Options
  import opened Scheduling

  /** ReleaseExclusiveIff: task 2 releases a lock that task 1 holds, and the lock is free while task 1 is inside. */
  lemma StrangerReleases()
    ensures var s := Sched([2, 1, 0], [], 2, map[0 := SLICES, 1 := SLICES, 2 := SLICES], {});
            var progress := map[0 := Running, 1 := Running, 2 := Running];
            var k := Kernel(s, map[7 := Lock(Some(1), false, [])], progress, map[7 := {1}]);
            var k' := ReleaseStep(k, 7);
            Inv(k) && k'.locks[7].val && k'.inside[7] == {1}
  {
  }
}

module FaultCounterexamples {
  import opened KernelRuns
  import opened Options
  import opened Scheduling
  import opened Seqs

  /** After `n` ticks of the first slice of task 0, which holds lock 1; task 1 is ready. */
  function Ticked(n: nat): Kernel
    requires n <= 5
  {
    Kernel(Sched([0, 1], [], 0, map[0 := 5 - n, 1 := 5], {}),
           map[1 := Lock(Some(0), false, []), 2 := Lock(None, true, [])],
           map[0 := Running, 1 := Running], map[1 := {0}, 2 := {}])
  }

  /** The slices of task 0 are used up. */
  function Switched(): Kernel {
    Ticked(5).(sched := Sched([1], [0], 1, map[0 := 0, 1 := 5], {}))
  }

  /** Task 1 holds lock 2 and waits for lock 1. */
  function Crossed(): Kernel {
    Kernel(Sched([0], [], 0, map[0 := 5, 1 := 5], {}),
           map[1 := Lock(Some(0), false, [1]), 2 := Lock(Some(1), false, [])],
           map[0 := Running, 1 := Waiting(1)], map[1 := {0}, 2 := {1}])
  }

  /** One more event in front of a run. */
  lemma Before(k: Kernel, e: Event, k': Kernel, es: seq<Event>)
    requires Settled(k.sched) && Enabled(k, e) && !Faults(k, e) && Step(k, e) == k' && CanRun(k', es)
    ensures CanRun(k, [e] + es) && Run(k, [e] + es) == Run(k', es)
  {
    assert ([e] + es)[1..] == es;
  }

  lemma Tick(n: nat)
    requires n < 4
    ensures var k := Ticked(n);
            Settled(k.sched) && Enabled(k, Timer) && !Faults(k, Timer) && Step(k, Timer) == Ticked(n + 1)
  {
    var s := Ticked(n).sched;
    assert s.slices[0 := 4 - n] == Ticked(n + 1).sched.slices;
    assert AfterInterrupt(Scheduling.Tick(s)) == Ticked(n + 1).sched;
  }

  lemma LastTick()
    ensures var k := Ticked(4);
            Settled(k.sched) && Enabled(k, Timer) && !Faults(k, Timer) && Step(k, Timer) == Switched()
  {
    assert Without([0, 1], 0) == [1];
  }

  /** The idle task 0 holds lock 1. */
  function Began(): Kernel {
    Kernel(Sched([0], [], 0, map[0 := 5], {}), Ticked(0).locks, map[0 := Running], Ticked(0).inside)
  }

  lemma TakeFirst()
    ensures var k := Booted(0, {1, 2});
            Settled(k.sched) && Enabled(k, Acquire(1)) && !Faults(k, Acquire(1)) && Step(k, Acquire(1)) == Began()
  {
    var k' := Step(Booted(0, {1, 2}), Acquire(1));
    assert k'.inside[1] == {0};
    assert k'.locks == Began().locks && k'.inside == Began().inside;
    assert k'.sched.slices == Began().sched.slices && k'.progress == Began().progress;
  }

  lemma SpawnOne()
    ensures var k := Began();
            Settled(k.sched) && Enabled(k, Spawn(1)) && !Faults(k, Spawn(1)) && Step(k, Spawn(1)) == Ticked(0)
  {
    assert Step(Began(), Spawn(1)).sched.slices == Ticked(0).sched.slices;
    assert Step(Began(), Spawn(1)).progress == Ticked(0).progress;
  }

  /** Task 1 holds lock 2. */
  function BothTaken(): Kernel {
    Switched().(locks := map[1 := Lock(Some(0), false, []), 2 := Lock(Some(1), false, [])],
                inside := map[1 := {0}, 2 := {1}])
  }

  lemma TakeSecond()
    ensures var k := Switched();
            Settled(k.sched) && Enabled(k, Acquire(2)) && !Faults(k, Acquire(2)) && Step(k, Acquire(2)) == BothTaken()
  {
    var k' := Step(Switched(), Acquire(2));
    assert k'.inside[2] == {1};
    assert k'.locks == BothTaken().locks && k'.inside == BothTaken().inside && k'.progress == BothTaken().progress;
  }

  lemma WaitForFirst()
    ensures var k := BothTaken();
            Settled(k.sched) && Enabled(k, Acquire(1)) && !Faults(k, Acquire(1)) && Step(k, Acquire(1)) == Crossed()
  {
    assert Without([1], 1) == [];
    BlockedSwaps();
    hide Block;
    var k' := Step(BothTaken(), Acquire(1));
    assert k'.locks[1].queue == [1];
    assert k'.locks == Crossed().locks && k'.progress == Crossed().progress;
  }

  lemma BlockedSwaps()
    ensures Without([1], 1) == [] && Block(BothTaken().sched) == Crossed().sched
  {
    assert Block(BothTaken().sched).slices == Crossed().sched.slices;
  }

  /** FaultsIff: with two locks, the idle task 0 and task 1 take one each and then ask for the other. */
  lemma TwoLocksFault() returns (es: seq<Event>)
    ensures CanRun(Booted(0, {1, 2}), es)
    ensures Enabled(Run(Booted(0, {1, 2}), es), Acquire(2)) && Faults(Run(Booted(0, {1, 2}), es), Acquire(2))
  {
    assert Enabled(Crossed(), Acquire(2)) && Faults(Crossed(), Acquire(2));
    hide Step, Settled, Enabled, Faults, Ticked, Switched, Booted, Began, BothTaken, Crossed;
    assert CanRun(Crossed(), []) && Run(Crossed(), []) == Crossed();
    WaitForFirst();
    Before(BothTaken(), Acquire(1), Crossed(), []);
    es := [Acquire(1)] + [];
    TakeSecond();
    Before(Switched(), Acquire(2), BothTaken(), es);
    es := [Acquire(2)] + es;
    LastTick();
    Before(Ticked(4), Timer, Switched(), es);
    es := [Timer] + es;
    var n := 4;
    while n > 0
      invariant 0 <= n <= 4 && CanRun(Ticked(n), es) && Run(Ticked(n), es) == Crossed()
    {
      n := n - 1;
      Tick(n);
      Before(Ticked(n), Timer, Ticked(n + 1), es);
      es := [Timer] + es;
    }
    SpawnOne();
    Before(Began(), Spawn(1), Ticked(0), es);
    es := [Spawn(1)] + es;
    TakeFirst();
    Before(Booted(0, {1, 2}), Acquire(1), Began(), es);
    es := [Acquire(1)] + es;
  }
}

module TtyCounterexamples {
  import opened Terminal
  import opened Scrollback

  /** BackspaceInOneCall: after "a", the string "\bb" in one call leaves "a" on the screen. */
  lemma OldCharacterStays()
    ensures var t := Write(Write(Cleared(), [97]), [8, 98]);
            t.ring[0] == 0x0F62 && t.screen[0] == 0x0F61
  {
    var c := Cleared();
    OneCode(Cursor(c.ring, 0, 0, 0), 97);
    var t := Write(c, [97]);
    TwoCodes(Cursor(t.ring, 1, 1, 1), 8, 98);
  }

  /** WriteShowsIff: after "ab", a return and "X" in one call leave "a" on the screen. */
  lemma ReturnLeavesOldCharacter()
    ensures var t := Write(Write(Cleared(), [97, 98]), [13, 88]);
            t.ring[0] == 0x0F58 && t.screen[0] == 0x0F61
  {
    var c := Cleared();
    TwoCodes(Cursor(c.ring, 0, 0, 0), 97, 98);
    var t := Write(c, [97, 98]);
    TwoCodes(Cursor(t.ring, 2, 2, 2), 13, 88);
  }

  function Newlines(n: nat): seq<Event> {
    seq(n, i => Key(10))
  }

  /** The top of the window while row `n` is the current one, if nothing scrolls. */
  function TopAt(n: nat): nat {
    if n < ROWS then 0 else (n + 1 - ROWS) * COLS
  }

  lemma RunConcat(t: Tty, es: seq<Event>, more: seq<Event>)
    requires Sized(t)
    ensures Run(t, es + more) == Run(Run(t, es), more)
    decreases |es|
  {
    if es == [] {
      assert es + more == more;
    } else {
      assert (es + more)[1..] == es[1..] + more;
      RunConcat(Step(t, es[0]), es[1..], more);
    }
  }

  lemma OutConcat(o: Output, es: seq<Event>, more: seq<Event>)
    ensures OutRun(o, es + more) == OutRun(OutRun(o, es), more)
    decreases |es|
  {
    if es == [] {
      assert es + more == more;
    } else {
      assert (es + more)[1..] == es[1..] + more;
      OutConcat(OutStep(o, es[0]), es[1..], more);
    }
  }

  lemma NewlinePlace(t: Tty, n: nat)
    requires Sized(t) && Row(t.pos) == n && t.top == TopAt(n)
    ensures Write(t, [10]).pos == (n + 1) * COLS && Write(t, [10]).top == TopAt(n + 1)
  {
    hide PutMany;
    OneCode(Cursor(t.ring, t.pos, t.pos, t.pos), 10);
    Rows(t.pos);
  }

  /** From row 0, `n` newlines lead to the start of row `n`. */
  lemma {:induction false} NewlinesPlace(t: Tty, n: nat)
    requires Sized(t) && Row(t.pos) == 0 && t.top == 0
    ensures var t' := Run(t, Newlines(n));
            Row(t'.pos) == n && t'.top == TopAt(n) && (n > 0 ==> t'.pos == n * COLS)
    ensures forall o :: OutRun(o, Newlines(n)).log == o.log
  {
    if n > 0 {
      hide Write;
      NewlinesPlace(t, n - 1);
      assert Newlines(n) == Newlines(n - 1) + [Key(10)];
      RunConcat(t, Newlines(n - 1), [Key(10)]);
      NewlinePlace(Run(t, Newlines(n - 1)), n - 1);
      forall o
        ensures OutRun(o, Newlines(n)).log == o.log
      {
        OutConcat(o, Newlines(n - 1), [Key(10)]);
      }
    }
  }

  /** ScrollDownMovesDownIff: with 225 rows written and the last but one at the top, scrolling down moves up. */
  lemma ScrollDownMovesUp() returns (es: seq<Event>)
    ensures var t := Run(Cleared(), es);
            Placed(t.pos, t.top) && t.top == 17920 && ScrollDown(t, 1).top == 16080
  {
    es := Newlines(224) + [Down(24), Key(10)];
    hide Write, ScrollDown, Newlines, Placed;
    var t := Run(Cleared(), Newlines(224));
    RunConcat(Cleared(), Newlines(224), [Down(24), Key(10)]);
    NewlinesPlace(Cleared(), 224);
    TwoEvents(t, Output(map[], 0), Down(24), Key(10));
    DownAndNewline(t);
  }

  lemma DownAndNewline(t: Tty)
    requires Sized(t) && t.pos == 17920 && t.top == 16000
    ensures var t' := Write(ScrollDown(t, 24), [10]);
            Placed(t'.pos, t'.top) && t'.top == 17920 && ScrollDown(t', 1).top == 16080
  {
    hide Print, PutMany;
    var t' := ScrollDown(t, 24);
    OneCode(Cursor(t'.ring, t'.pos, t'.pos, t'.pos), 10);
  }

  /** What follows 25 newlines below. */
  function LastKeys(): seq<Event> {
    [Key(97), Key(98), Key(13), Up(1), Key(88)]
  }

  /**
   KeyRefinesIff: "ab" is written in the last row; after a return and scrolling up by one line an "X" over the "a" takes
   the "b" away, from the screen and from the ring.
   */
  lemma RowIsBlanked() returns (es: seq<Event>)
    ensures var t, o := Run(Cleared(), es), OutRun(Output(map[], 0), es);
            t.top == 80 && At(o.log, 2001) == 0x0F62 && t.ring[2001] == BLANK && t.screen[1921] == BLANK
  {
    es := Newlines(25) + LastKeys();
    hide Step, OutStep, Newlines, Refines, Cleared;
    var t, o := Run(Cleared(), Newlines(25)), OutRun(Output(map[], 0), Newlines(25));
    RunConcat(Cleared(), Newlines(25), LastKeys());
    OutConcat(Output(map[], 0), Newlines(25), LastKeys());
    StartOfLastRow();
    FiveEvents(t, o, Key(97), Key(98), Key(13), Up(1), Key(88));
    KeysBlank(t);
    KeysOutput(o);
  }

  lemma StartOfLastRow()
    ensures var t, o := Run(Cleared(), Newlines(25)), OutRun(Output(map[], 0), Newlines(25));
            t.pos == o.pos == 2000 && t.top == 80
  {
    hide Step, OutStep;
    assert Cleared().pos == 0 && Cleared().top == 0;
    NewlinesPlace(Cleared(), 25);
    TypingRefines(Newlines(25));
    hide Newlines;
  }

  lemma FiveEvents(t: Tty, o: Output, a: Event, b: Event, c: Event, d: Event, e: Event)
    requires Sized(t)
    ensures Run(t, [a, b, c, d, e]) == Step(Step(Step(Step(Step(t, a), b), c), d), e)
    ensures OutRun(o, [a, b, c, d, e]) == OutStep(OutStep(OutStep(OutStep(OutStep(o, a), b), c), d), e)
  {
    hide Step, OutStep;
    var t', o' := Step(Step(t, a), b), OutStep(OutStep(o, a), b);
    assert [a, b, c, d, e] == [a, b] + [c, d, e] && [c, d, e] == [c, d] + [e];
    TwoEvents(t, o, a, b);
    RunConcat(t, [a, b], [c, d, e]);
    OutConcat(o, [a, b], [c, d, e]);
    TwoEvents(t', o', c, d);
    RunConcat(t', [c, d], [e]);
    OutConcat(o', [c, d], [e]);
  }

  lemma TwoEvents(t: Tty, o: Output, a: Event, b: Event)
    requires Sized(t)
    ensures Run(t, [a, b]) == Step(Step(t, a), b) && OutRun(o, [a, b]) == OutStep(OutStep(o, a), b)
  {
    hide Step, OutStep;
    assert [a, b][1..] == [b];
    assert Run(Step(t, a), [b]) == Step(Step(t, a), b);
    assert OutRun(OutStep(o, a), [b]) == OutStep(OutStep(o, a), b);
  }

  lemma KeysOutput(o: Output)
    requires o.pos == 2000
    ensures At(OutStep(OutStep(OutStep(OutStep(OutStep(o, Key(97)), Key(98)), Key(13)), Up(1)), Key(88)).log, 2001) ==
            0x0F62
  {
    var o2 := Emit(Emit(o, 97), 98);
    assert o2.pos == 2002 && At(o2.log, 2001) == 0x0F62;
    var o3 := Emit(o2, 13);
    assert o3 == Output(o2.log, 2000);
    assert !Within(2000, 1, 2001);
    assert At(Emit(o3, 88).log, 2001) == 0x0F62;
  }

  /** A character in view of the window and not at its end. */
  lemma KeyInView(t: Tty, c: Code)
    requires Sized(t) && t.pos + 1 < t.top + SCREEN && (c >= 32 || c == 13)
    ensures Write(t, [c]).pos == PosAfter(t.pos, c) && Write(t, [c]).top == t.top
  {
    OneCode(Cursor(t.ring, t.pos, t.pos, t.pos), c);
  }

  /** With the window at the top and the position in the row below it, the rest of that row is blanked. */
  lemma KeyBelow(t: Tty)
    requires Sized(t) && t.pos == 2000 && t.top == 0
    ensures var t' := Write(t, [88]);
            t'.top == 80 && t'.ring[2001] == BLANK && t'.screen[1921] == BLANK
  {
    hide PutMany;
    var w0 := Cursor(t.ring, t.pos, t.pos, t.pos);
    OneCode(w0, 88);
    PutManyAt(WriteCode(w0, 88).ring, 2001, BLANK, 79, 2000, 2001);
  }

  lemma KeysBlank(t: Tty)
    requires Sized(t) && t.pos == 2000 && t.top == 80
    ensures var t' := Step(Step(Step(Step(Step(t, Key(97)), Key(98)), Key(13)), Up(1)), Key(88));
            t'.top == 80 && t'.ring[2001] == BLANK && t'.screen[1921] == BLANK
  {
    hide Write;
    KeyInView(t, 97);
    var t1 := Write(t, [97]);
    KeyInView(t1, 98);
    var t2 := Write(t1, [98]);
    KeyInView(t2, 13);
    var t3 := Write(t2, [13]);
    KeyBelow(ScrollUp(t3, 1));
  }

  /**
   WriteRefinesIff: "a" is written in row 0; when the ring is full, two newlines in one call bring the "a" back,
   250 rows below.
   */
  lemma OldRowComesBack() returns (es: seq<Event>)
    ensures var t, o := Run(Cleared(), es), OutRun(Output(map[], 0), es);
            var t', o' := Write(t, [10, 10]), EmitAll(o, [10, 10]);
            Refines(t, o) && t'.top == 18160 && t'.screen[1840] == 0x0F61 && At(o'.log, 20000) == BLANK
  {
    es := [Key(97)] + Newlines(249);
    TypingRefines(es);
    FullRing();
    hide Refines, Write, WriteCodes, Run, OutRun, EmitAll, Cleared, Newlines;
    var t, o := Run(Cleared(), es), OutRun(Output(map[], 0), es);
    FirstRow(t, o);
    TwoNewlines(t, o);
  }

  /** "a" in row 0 and 249 newlines behind it. */
  lemma FullRing()
    ensures var es := [Key(97)] + Newlines(249);
            var t, o := Run(Cleared(), es), OutRun(Output(map[], 0), es);
            t.pos == 19920 && t.top == 18000 && o.log == map[0 := 0x0F61]
  {
    hide Write, Emit, Cleared, Newlines;
    RunConcat(Cleared(), [Key(97)], Newlines(249));
    OutConcat(Output(map[], 0), [Key(97)], Newlines(249));
    OneKey(Cleared(), Output(map[], 0), 97);
    FirstKey();
    NewlinesPlace(Write(Cleared(), [97]), 249);
  }

  lemma OneKey(t: Tty, o: Output, c: Code)
    requires Sized(t)
    ensures Run(t, [Key(c)]) == Write(t, [c]) && OutRun(o, [Key(c)]) == Emit(o, c)
  {
    hide Write, Emit;
    assert [Key(c)][1..] == [];
    assert Run(Step(t, Key(c)), []) == Step(t, Key(c));
  }

  lemma FirstKey()
    ensures Sized(Write(Cleared(), [97])) && Write(Cleared(), [97]).pos == 1 && Write(Cleared(), [97]).top == 0
    ensures Emit(Output(map[], 0), 97).log == map[0 := 0x0F61]
  {
    KeyInView(Cleared(), 97);
    assert Within(0, 1, 0);
  }

  lemma FirstRow(t: Tty, o: Output)
    requires Refines(t, o) && t.pos == 19920
    ensures Sized(t) && t.ring[0] == At(o.log, 0)
  {
    Rows(t.pos);
    assert 0 % RING == 0;
  }

  lemma TwoNewlines(t: Tty, o: Output)
    requires Sized(t) && t.pos == 19920 && t.top == 18000
    ensures var t' := Write(t, [10, 10]);
            t'.top == 18160 && t'.screen[1840] == t.ring[0] && EmitAll(o, [10, 10]).log == o.log
  {
    assert [10, 10][1..] == [10];
    OneEmit(Emit(o, 10), 10);
    hide PutMany;
    TwoCodes(Cursor(t.ring, 19920, 19920, 19920), 10, 10);
    PutManyAt(t.ring, 20080, BLANK, 80, 20000, 20000);
  }
}

module NumberCounterexamples {
  import opened Numerals

  /** GuessedBaseRoundTrip: 31 in capital digits with a prefix reads as 0, and reading stops behind the first zero. */
  lemma CapitalPrefixReadsAsZero()
    ensures NumberText(31, 16, -1, -1, NO_FLAGS.(special := true, large := true)) == "0X1F"
    ensures ParseU32("0X1F", 0) == Parsed(0, 1)
  {
    assert Numeral(1, 16, true) == "1" && Numeral(31, 16, true) == "1F";
    assert Repeat('0', 0) == "" && Repeat(' ', 0) == "";
    assert "0X1F"[1..1] == "";
  }
}
