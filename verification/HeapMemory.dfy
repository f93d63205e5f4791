/**
 How the headers in memory link the blocks of a chain.
 */
module HeapMemory {
  import opened HeapChain

  /** KMALLOC_BLOCK_MAGIC */
  const MAGIC: nat := 0xCAFE123

  /** HeapBlockHeader; `next` and `prev` are addresses, 0 is null. */
  datatype Header = Header(magic: nat, aligned: bool, used: bool, dataSize: nat, next: nat, prev: nat)

  type Memory = map<nat, Header>

  function HeaderOf(b: Block, prev: nat, next: nat): Header {
    Header(MAGIC, false, b.used, b.size, next, prev)
  }

  /** The address of the first block of a stretch, or else `next`. */
  function First(seg: seq<Block>, next: nat): nat {
    if seg == [] then next else seg[0].addr
  }

  /** The address of the last block of a stretch, or else `prev`. */
  function Last(seg: seq<Block>, prev: nat): nat {
    if seg == [] then prev else seg[|seg| - 1].addr
  }

  /** The header of block `i` of `seg`, which lies between `prev` and `next`. */
  ghost predicate At(memory: Memory, seg: seq<Block>, i: nat, prev: nat, next: nat)
    requires i < |seg|
  {
    && seg[i].addr in memory
    && memory[seg[i].addr] == HeaderOf(seg[i], if i > 0 then seg[i - 1].addr else prev,
                                       if i + 1 < |seg| then seg[i + 1].addr else next)
  }

  /** The headers of `seg` are in memory and linked both ways, between `prev` and `next`. */
  ghost predicate Linked(memory: Memory, seg: seq<Block>, prev: nat, next: nat) {
    forall i :: 0 <= i < |seg| ==> At(memory, seg, i, prev, next)
  }

  lemma LinkedJoin(memory: Memory, a: seq<Block>, b: seq<Block>, prev: nat, next: nat)
    requires Linked(memory, a, prev, First(b, next)) && Linked(memory, b, Last(a, prev), next)
    ensures Linked(memory, a + b, prev, next)
  {
    var c := a + b;
    forall i | 0 <= i < |c|
      ensures At(memory, c, i, prev, next)
    {
      if i < |a| {
        assert At(memory, a, i, prev, First(b, next));
      } else {
        assert At(memory, b, i - |a|, Last(a, prev), next);
      }
    }
  }

  lemma LinkedCut(memory: Memory, seg: seq<Block>, prev: nat, next: nat, i: nat)
    requires Linked(memory, seg, prev, next) && i < |seg|
    ensures Linked(memory, seg[..i], prev, seg[i].addr)
    ensures seg[i].addr in memory
    ensures memory[seg[i].addr] == HeaderOf(seg[i], Last(seg[..i], prev), First(seg[i + 1..], next))
    ensures Linked(memory, seg[i + 1..], seg[i].addr, next)
  {
    assert At(memory, seg, i, prev, next);
    forall j | 0 <= j < i
      ensures At(memory, seg[..i], j, prev, seg[i].addr)
    {
      assert At(memory, seg, j, prev, next);
    }
    var rest := seg[i + 1..];
    forall j | 0 <= j < |rest|
      ensures At(memory, rest, j, seg[i].addr, next)
    {
      assert At(memory, seg, i + 1 + j, prev, next);
    }
  }

  /** A stretch of one block. */
  lemma LinkedOne(memory: Memory, b: Block, prev: nat, next: nat)
    requires b.addr in memory && memory[b.addr] == HeaderOf(b, prev, next)
    ensures Linked(memory, [b], prev, next)
  {
  }

  /** Writes elsewhere do not matter. */
  lemma LinkedFrame(memory: Memory, memory': Memory, seg: seq<Block>, prev: nat, next: nat)
    requires Linked(memory, seg, prev, next)
    requires forall i :: 0 <= i < |seg| ==> seg[i].addr in memory ==>
             seg[i].addr in memory' && memory'[seg[i].addr] == memory[seg[i].addr]
    ensures Linked(memory', seg, prev, next)
  {
    forall i | 0 <= i < |seg|
      ensures At(memory', seg, i, prev, next)
    {
      assert At(memory, seg, i, prev, next);
    }
  }

  /** All headers of `seg` lie at `low` or above and end at `high` or below. */
  ghost predicate Within(seg: seq<Block>, low: nat, high: nat) {
    forall i :: 0 <= i < |seg| ==> low <= seg[i].addr && seg[i].addr + HEADER <= high
  }

  /** No two blocks of `seg` have the same address. */
  ghost predicate Apart(seg: seq<Block>) {
    forall i, j :: 0 <= i < j < |seg| ==> seg[i].addr != seg[j].addr
  }

  lemma {:induction false} FillsWithin(seg: seq<Block>, start: nat, end: nat)
    requires Fills(seg, start, end)
    ensures start <= end && Within(seg, start, end) && Apart(seg)
  {
    if seg != [] {
      FillsCut(seg, start, end, 0);
      FillsWithin(seg[1..], seg[0].End(), end);
      assert forall i :: 0 < i < |seg| ==> seg[i] == seg[1..][i - 1];
    }
  }

  /** `next->prev = address`, if there is a next block. */
  function SetPrev(memory: Memory, next: nat, address: nat): Memory
  {
    if next != 0 && next in memory then memory[next := memory[next].(prev := address)] else memory
  }

  lemma SetPrevLinks(memory: Memory, seg: seq<Block>, prev: nat, prev': nat)
    requires Linked(memory, seg, prev, 0) && Apart(seg) && (forall i :: 0 <= i < |seg| ==> seg[i].addr != 0)
    ensures First(seg, 0) != 0 ==> First(seg, 0) in memory
    ensures Linked(SetPrev(memory, First(seg, 0), prev'), seg, prev', 0)
  {
    assert seg != [] ==> At(memory, seg, 0, prev, 0);
    var memory' := SetPrev(memory, First(seg, 0), prev');
    forall i | 0 <= i < |seg|
      ensures At(memory', seg, i, prev', 0)
    {
      assert At(memory, seg, i, prev, 0);
    }
  }

  /** Growing the last block of a stretch and letting it point to another block. */
  lemma GrowLast(memory: Memory, seg: seq<Block>, prev: nat, next: nat, extra: nat, next': nat)
    requires Linked(memory, seg, prev, next) && Apart(seg) && seg != []
    ensures var p := seg[|seg| - 1];
            && p.addr in memory
            && Linked(memory[p.addr := memory[p.addr].(dataSize := memory[p.addr].dataSize + extra, next := next')],
                      seg[..|seg| - 1] + [p.(size := p.size + extra)], prev, next')
  {
    var p := seg[|seg| - 1];
    LinkedCut(memory, seg, prev, next, |seg| - 1);
    var memory' := memory[p.addr := memory[p.addr].(dataSize := memory[p.addr].dataSize + extra, next := next')];
    LinkedFrame(memory, memory', seg[..|seg| - 1], prev, p.addr);
    LinkedOne(memory', p.(size := p.size + extra), Last(seg[..|seg| - 1], prev), next');
    LinkedJoin(memory', seg[..|seg| - 1], [p.(size := p.size + extra)], prev, next');
  }

  // ----- block i of a chain, taken apart from the blocks before and behind it

  /** `front`, a header at `address`, and `post` are linked in this order; `post` may still point back elsewhere. */
  ghost predicate Opened(memory: Memory, front: seq<Block>, address: nat, post: seq<Block>, back: nat, low: nat,
                         end: nat) {
    && 0 < address && address in memory
    && memory[address].magic == MAGIC && !memory[address].aligned
    && memory[address].prev == Last(front, 0) && memory[address].next == First(post, 0)
    && Linked(memory, front, 0, address) && Linked(memory, post, back, 0)
    && 0 < low && Within(front, low, address) && Apart(front)
    && Apart(post) && address + HEADER <= end && forall i :: 0 <= i < |post| ==> end <= post[i].addr
  }

  lemma OpenChain(memory: Memory, chain: seq<Block>, end: nat, i: nat)
    requires Linked(memory, chain, 0, 0) && Tiles(chain, end) && i < |chain| && 0 < chain[0].addr
    ensures Opened(memory, chain[..i], chain[i].addr, chain[i + 1..], chain[i].addr, chain[0].addr, chain[i].End())
    ensures memory[chain[i].addr].used == chain[i].used && memory[chain[i].addr].dataSize == chain[i].size
  {
    LinkedCut(memory, chain, 0, 0, i);
    FillsCut(chain, chain[0].addr, end, i);
    FillsWithin(chain[..i], chain[0].addr, chain[i].addr);
    FillsWithin(chain[i + 1..], chain[i].End(), end);
  }

  /** Lines 111-117, repaired: a block and a free tail behind it. */
  lemma TailLinked(memory: Memory, front: seq<Block>, n: nat, post: seq<Block>, back: nat, low: nat, end: nat,
                   splitAt: nat)
    requires Opened(memory, front, n, post, back, low, end) && n + HEADER <= splitAt && splitAt + HEADER < end
    ensures var m1 := memory[n := memory[n].(dataSize := splitAt - n - HEADER, next := splitAt)];
            var m2 := m1[splitAt := Header(MAGIC, false, false, end - splitAt - HEADER, First(post, 0), n)];
            Linked(SetPrev(m2, First(post, 0), splitAt),
                   front + [Block(n, splitAt - n - HEADER, memory[n].used),
                            Block(splitAt, end - splitAt - HEADER, false)] + post, 0, 0)
  {
    var m1 := memory[n := memory[n].(dataSize := splitAt - n - HEADER, next := splitAt)];
    var m2 := m1[splitAt := Header(MAGIC, false, false, end - splitAt - HEADER, First(post, 0), n)];
    var m3 := SetPrev(m2, First(post, 0), splitAt);
    var x, t := Block(n, splitAt - n - HEADER, memory[n].used), Block(splitAt, end - splitAt - HEADER, false);
    LinkedFrame(memory, m2, post, back, 0);
    SetPrevLinks(m2, post, back, splitAt);
    LinkedFrame(memory, m3, front, 0, n);
    LinkedOne(m3, x, Last(front, 0), splitAt);
    LinkedOne(m3, t, n, First(post, 0));
    LinkedJoin(m3, front, [x], 0, splitAt);
    LinkedJoin(m3, front + [x], [t], 0, First(post, 0));
    LinkedJoin(m3, front + [x] + [t], post, 0, 0);
    assert front + [x] + [t] + post == front + [x, t] + post;
  }

  /** Line 119, repaired: a block that keeps all that is left. */
  lemma NoTailLinked(memory: Memory, front: seq<Block>, n: nat, post: seq<Block>, back: nat, low: nat, end: nat)
    requires Opened(memory, front, n, post, back, low, end)
    ensures var m1 := memory[n := memory[n].(dataSize := end - n - HEADER)];
            Linked(SetPrev(m1, First(post, 0), n), front + [Block(n, end - n - HEADER, memory[n].used)] + post, 0, 0)
  {
    var m1 := memory[n := memory[n].(dataSize := end - n - HEADER)];
    var m2 := SetPrev(m1, First(post, 0), n);
    var x := Block(n, end - n - HEADER, memory[n].used);
    LinkedFrame(memory, m1, post, back, 0);
    SetPrevLinks(m1, post, back, n);
    LinkedFrame(memory, m2, front, 0, n);
    LinkedOne(m2, x, Last(front, 0), First(post, 0));
    LinkedJoin(m2, front, [x], 0, First(post, 0));
    LinkedJoin(m2, front + [x], post, 0, 0);
  }

  /** Lines 94-96: the gap in front of a moved header goes to the block before it. */
  lemma GapToPrevious(memory: Memory, front: seq<Block>, h: nat, post: seq<Block>, back: nat, low: nat, end: nat,
                      offset: nat)
    requires Opened(memory, front, h, post, back, low, end) && front != [] && 0 < offset && h + offset + HEADER <= end
    ensures Last(front, 0) in memory
    ensures var n, p := h + offset, front[|front| - 1];
            var m1 := memory[n := Header(MAGIC, false, false, 0, memory[h].next, memory[h].prev)];
            var m2 := m1[p.addr := m1[p.addr].(dataSize := m1[p.addr].dataSize + offset, next := n)];
            Opened(m2, front[..|front| - 1] + [p.(size := p.size + offset)], n, post, back, low, end)
  {
    var n, p := h + offset, front[|front| - 1];
    var m1 := memory[n := Header(MAGIC, false, false, 0, memory[h].next, memory[h].prev)];
    assert At(memory, front, |front| - 1, 0, h);
    var m2 := m1[p.addr := m1[p.addr].(dataSize := m1[p.addr].dataSize + offset, next := n)];
    LinkedFrame(memory, m1, front, 0, h);
    GrowLast(m1, front, 0, h, offset, n);
    LinkedFrame(memory, m2, post, back, 0);
  }

  /** Lines 97-103: a gap that can hold a header becomes a free block. */
  lemma GapToBlock(memory: Memory, h: nat, post: seq<Block>, back: nat, low: nat, end: nat, offset: nat)
    requires Opened(memory, [], h, post, back, low, end) && low <= h && HEADER < offset && h + offset + HEADER <= end
    ensures var n := h + offset;
            var m1 := memory[n := Header(MAGIC, false, false, 0, memory[h].next, h)];
            var m2 := m1[h := m1[h].(used := false, next := n, dataSize := offset - HEADER)];
            Opened(m2, [Block(h, offset - HEADER, false)], n, post, back, low, end)
  {
    var n := h + offset;
    var m1 := memory[n := Header(MAGIC, false, false, 0, memory[h].next, h)];
    var m2 := m1[h := m1[h].(used := false, next := n, dataSize := offset - HEADER)];
    LinkedOne(m2, Block(h, offset - HEADER, false), 0, n);
    LinkedFrame(memory, m2, post, back, 0);
  }

  /** Lines 104-105: a smaller gap is dropped. */
  lemma GapDropped(memory: Memory, h: nat, post: seq<Block>, back: nat, low: nat, end: nat, offset: nat)
    requires Opened(memory, [], h, post, back, low, end) && 0 < offset && h + offset + HEADER <= end
    ensures Opened(memory[h + offset := Header(MAGIC, false, false, 0, memory[h].next, memory[h].prev)], [],
                   h + offset, post, back, low, end)
  {
    var m1 := memory[h + offset := Header(MAGIC, false, false, 0, memory[h].next, memory[h].prev)];
    LinkedFrame(memory, m1, post, back, 0);
  }

  // ----- release

  /** `merge_blocks`: the header of block i takes in the block behind it. */
  lemma MergeLinked(memory: Memory, chain: seq<Block>, end: nat, i: nat)
    requires Linked(memory, chain, 0, 0) && Tiles(chain, end) && 0 < chain[0].addr && i + 1 < |chain|
    ensures chain[i].addr in memory && chain[i + 1].addr in memory
    ensures var l, r := chain[i].addr, chain[i + 1].addr;
            var m1 := memory[l := memory[l].(next := memory[r].next)];
            var m2 := m1[l := m1[l].(dataSize := m1[l].dataSize + m1[r].dataSize + HEADER)];
            && m2[l].next == First(chain[i + 2..], 0)
            && (m2[l].next != 0 ==> m2[l].next in m2)
            && Linked(SetPrev(m2, First(chain[i + 2..], 0), l), MergeAt(chain, i), 0, 0)
  {
    OpenChain(memory, chain, end, i);
    OpenChain(memory, chain, end, i + 1);
    FillsCut(chain, chain[0].addr, end, i);
    assert chain[i].End() == chain[i + 1].addr;
    var b, post := chain[i], chain[i + 2..];
    var l, r := chain[i].addr, chain[i + 1].addr;
    var m1 := memory[l := memory[l].(next := memory[r].next)];
    var m2 := m1[l := m1[l].(dataSize := m1[l].dataSize + m1[r].dataSize + HEADER)];
    var m3 := SetPrev(m2, First(post, 0), l);
    var x := b.(size := b.size + chain[i + 1].size + HEADER);
    LinkedFrame(memory, m2, post, r, 0);
    SetPrevLinks(m2, post, r, l);
    assert post != [] ==> At(m2, post, 0, r, 0);
    LinkedFrame(memory, m3, chain[..i], 0, l);
    LinkedOne(m3, x, Last(chain[..i], 0), First(post, 0));
    LinkedJoin(m3, chain[..i], [x], 0, First(post, 0));
    LinkedJoin(m3, chain[..i] + [x], post, 0, 0);
  }

  /** Marking a block used or free. */
  lemma MarkLinked(memory: Memory, chain: seq<Block>, end: nat, i: nat, used: bool)
    requires Linked(memory, chain, 0, 0) && Tiles(chain, end) && 0 < chain[0].addr && i < |chain|
    ensures chain[i].addr in memory
    ensures Linked(memory[chain[i].addr := memory[chain[i].addr].(used := used)],
                   chain[i := chain[i].(used := used)], 0, 0)
    ensures Tiles(chain[i := chain[i].(used := used)], end)
  {
    FillsWithin(chain, chain[0].addr, end);
    assert At(memory, chain, i, 0, 0);
    var memory' := memory[chain[i].addr := memory[chain[i].addr].(used := used)];
    var chain' := chain[i := chain[i].(used := used)];
    forall j | 0 <= j < |chain|
      ensures At(memory', chain', j, 0, 0)
    {
      assert At(memory, chain, j, 0, 0);
    }
  }

  lemma OpenedFields(memory: Memory, front: seq<Block>, address: nat, post: seq<Block>, back: nat, low: nat, end: nat)
    requires Opened(memory, front, address, post, back, low, end)
    ensures 0 < address && address in memory && memory[address].prev == Last(front, 0)
            && memory[address].next == First(post, 0)
    ensures front == [] <==> memory[address].prev == 0
    ensures memory[address].next != 0 ==> memory[address].next in memory && memory[address].next >= end
  {
    assert post != [] ==> At(memory, post, 0, back, 0);
  }

  // ----- what the `next` links alone say

  ghost predicate WalkAt(memory: Memory, seg: seq<Block>, i: nat, next: nat)
    requires i < |seg|
  {
    && seg[i].addr in memory
    && memory[seg[i].addr].dataSize == seg[i].size && memory[seg[i].addr].used == seg[i].used
    && memory[seg[i].addr].next == if i + 1 < |seg| then seg[i + 1].addr else next
  }

  /** Following `next` from the first block of `seg` visits exactly the blocks of `seg`, and leads to `next`. */
  ghost predicate Walk(memory: Memory, seg: seq<Block>, next: nat) {
    forall i :: 0 <= i < |seg| ==> WalkAt(memory, seg, i, next)
  }

  lemma LinkedWalk(memory: Memory, seg: seq<Block>, prev: nat, next: nat)
    requires Linked(memory, seg, prev, next)
    ensures Walk(memory, seg, next)
  {
    forall i | 0 <= i < |seg|
      ensures WalkAt(memory, seg, i, next)
    {
      assert At(memory, seg, i, prev, next);
    }
  }

  lemma WalkJoin(memory: Memory, a: seq<Block>, b: seq<Block>, next: nat)
    requires Walk(memory, a, First(b, next)) && Walk(memory, b, next)
    ensures Walk(memory, a + b, next)
  {
    var c := a + b;
    forall i | 0 <= i < |c|
      ensures WalkAt(memory, c, i, next)
    {
      if i < |a| {
        assert WalkAt(memory, a, i, First(b, next));
      } else {
        assert WalkAt(memory, b, i - |a|, next);
      }
    }
  }

  /** Lines 111-117 as written: the tail ends the chain. */
  lemma TailWalk(memory: Memory, front: seq<Block>, n: nat, post: seq<Block>, back: nat, low: nat, end: nat,
                 splitAt: nat)
    requires Opened(memory, front, n, post, back, low, end) && n + HEADER <= splitAt && splitAt + HEADER < end
    ensures var m1 := memory[n := memory[n].(dataSize := splitAt - n - HEADER, next := splitAt)];
            var m2 := m1[splitAt := Header(MAGIC, false, false, end - splitAt - HEADER, 0, n)];
            var chain := front + [Block(n, splitAt - n - HEADER, memory[n].used),
                                  Block(splitAt, end - splitAt - HEADER, false)];
            Walk(m2, chain, 0) && (post == [] ==> Linked(m2, chain, 0, 0))
  {
    var m1 := memory[n := memory[n].(dataSize := splitAt - n - HEADER, next := splitAt)];
    var m2 := m1[splitAt := Header(MAGIC, false, false, end - splitAt - HEADER, 0, n)];
    var x, t := Block(n, splitAt - n - HEADER, memory[n].used), Block(splitAt, end - splitAt - HEADER, false);
    LinkedFrame(memory, m2, front, 0, n);
    LinkedOne(m2, x, Last(front, 0), splitAt);
    LinkedOne(m2, t, n, 0);
    LinkedJoin(m2, front, [x], 0, splitAt);
    LinkedJoin(m2, front + [x], [t], 0, 0);
    assert front + [x] + [t] == front + [x, t];
    LinkedWalk(m2, front + [x, t], 0, 0);
  }

  /** Line 119 as written: the block claims 16 bytes more than it has. */
  lemma NoTailWalk(memory: Memory, front: seq<Block>, n: nat, post: seq<Block>, back: nat, low: nat, end: nat)
    requires Opened(memory, front, n, post, back, low, end)
    ensures var m1 := memory[n := memory[n].(dataSize := end - n)];
            Walk(m1, front + [Block(n, end - n, memory[n].used)] + post, 0)
  {
    var m1 := memory[n := memory[n].(dataSize := end - n)];
    var x := Block(n, end - n, memory[n].used);
    LinkedFrame(memory, m1, front, 0, n);
    LinkedFrame(memory, m1, post, back, 0);
    LinkedWalk(m1, front, 0, n);
    LinkedWalk(m1, post, back, 0);
    WalkJoin(m1, front, [x], First(post, 0));
    WalkJoin(m1, front + [x], post, 0);
  }
}
