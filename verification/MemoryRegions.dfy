/**
 Which frames `init_frames` (kernel/memory/MemoryManager.cpp, lines 280-303) hands to the frame allocator.
 */
module MemoryRegions {
  import opened BuddyRange

  /** PAGE_SIZE */
  const PAGE: nat := 4096

  /** A usable entry of the memory map: `base_addr_low` and `length_low`. */
  datatype Region = Region(base: nat, length: nat)

  /** PAGE_ALIGN_ADDR */
  function PageDown(address: nat): nat {
    address - address % PAGE
  }

  /** Lines 290-293: the first page boundary in the region and past the heap. */
  function First(r: Region, heapEnd: nat): nat {
    var base := if r.base >= heapEnd then r.base else heapEnd;
    if PageDown(base) != base then PageDown(base + PAGE) else base
  }

  /** Lines 288-289: the last page boundary in the region. */
  function Last(r: Region): nat {
    PageDown(r.base + r.length)
  }

  /** The frames that line 294 frees: `free_range` includes both its bounds. */
  function Handed(r: Region, heapEnd: nat): set<nat> {
    Range(First(r, heapEnd) / PAGE, Last(r) / PAGE)
  }

  /** Frame `f` lies in the region, all of it, and past the heap. */
  predicate Usable(r: Region, heapEnd: nat, f: nat) {
    r.base <= f * PAGE && heapEnd <= f * PAGE && (f + 1) * PAGE <= r.base + r.length
  }

  lemma FirstIsLeast(r: Region, heapEnd: nat, f: nat)
    ensures First(r, heapEnd) / PAGE <= f <==> r.base <= f * PAGE && heapEnd <= f * PAGE
    ensures First(r, heapEnd) % PAGE == 0
  {
    var base := if r.base >= heapEnd then r.base else heapEnd;
    var q, m := base / PAGE, base % PAGE;
    assert base == q * PAGE + m;
    assert First(r, heapEnd) == if m == 0 then q * PAGE else (q + 1) * PAGE;
  }

  lemma LastIsGreatest(r: Region, f: nat)
    ensures f < Last(r) / PAGE <==> (f + 1) * PAGE <= r.base + r.length
    ensures Last(r) % PAGE == 0
  {
    var end := r.base + r.length;
    assert Last(r) == end / PAGE * PAGE;
  }

  /** Handed in are the usable frames, and the one that begins where the last of them ends. */
  lemma OneFrameTooMany(r: Region, heapEnd: nat, f: nat)
    ensures f in Handed(r, heapEnd) <==>
            Usable(r, heapEnd, f) || (First(r, heapEnd) <= Last(r) && f == Last(r) / PAGE)
    ensures !Usable(r, heapEnd, Last(r) / PAGE)
  {
    FirstIsLeast(r, heapEnd, f);
    LastIsGreatest(r, f);
    LastIsGreatest(r, Last(r) / PAGE);
    hide First, Last;
    assert f in Handed(r, heapEnd) <==> Between(First(r, heapEnd) / PAGE, Last(r) / PAGE, f);
  }

  /** So exactly the usable frames are handed in just when no page boundary lies in the region past the heap. */
  lemma HandedExactIff(r: Region, heapEnd: nat)
    ensures (forall f :: f in Handed(r, heapEnd) <==> f >= 0 && Usable(r, heapEnd, f)) <==> First(r, heapEnd) > Last(r)
  {
    OneFrameTooMany(r, heapEnd, Last(r) / PAGE);
    if First(r, heapEnd) > Last(r) {
      forall f: nat
        ensures f in Handed(r, heapEnd) <==> Usable(r, heapEnd, f)
      {
        OneFrameTooMany(r, heapEnd, f);
      }
    }
  }

  /** The surplus frame of a region that reaches the end of memory is no frame of the allocator. */
  lemma SurplusOutsideIff(r: Region, heapEnd: nat, memorySize: nat)
    requires First(r, heapEnd) <= Last(r) && r.base + r.length <= memorySize
    ensures (forall f :: f in Handed(r, heapEnd) ==> f < memorySize / PAGE) <==>
            (r.base + r.length) / PAGE < memorySize / PAGE
  {
    OneFrameTooMany(r, heapEnd, Last(r) / PAGE);
    forall f: nat | f in Handed(r, heapEnd)
      ensures f <= (r.base + r.length) / PAGE
    {
      OneFrameTooMany(r, heapEnd, f);
    }
  }

  /** Region `s` begins where `r` ends, at a page boundary past the heap, and frames of `r` are handed in. */
  predicate Joins(r: Region, s: Region, heapEnd: nat) {
    && s.base == r.base + r.length && s.base % PAGE == 0 && heapEnd <= s.base
    && First(r, heapEnd) <= Last(r)
  }

  /** Two regions, one behind the other, both hand in a frame exactly if the second one joins the first. */
  lemma SurplusTwiceIff(r: Region, s: Region, heapEnd: nat)
    requires r.base + r.length <= s.base
    ensures Handed(r, heapEnd) !! Handed(s, heapEnd) <==> !Joins(r, s, heapEnd)
  {
    hide First, Last;
    if Joins(r, s, heapEnd) {
      var f := s.base / PAGE;
      LastOf(r);
      OneFrameTooMany(r, heapEnd, f);
      FirstIsLeast(s, heapEnd, f);
      LastOf(s);
      assert Between(First(s, heapEnd) / PAGE, Last(s) / PAGE, f);
      assert f in Handed(r, heapEnd) && f in Handed(s, heapEnd);
    } else {
      forall f: nat | f in Handed(r, heapEnd) && f in Handed(s, heapEnd)
        ensures false
      {
        OnlySurplus(r, s, heapEnd, f);
      }
    }
  }

  lemma LastOf(r: Region)
    ensures Last(r) / PAGE == (r.base + r.length) / PAGE && Last(r) <= r.base + r.length < Last(r) + PAGE
  {
  }

  /** A frame that both regions hand in begins where they meet. */
  lemma OnlySurplus(r: Region, s: Region, heapEnd: nat, f: nat)
    requires r.base + r.length <= s.base && f in Handed(r, heapEnd) && f in Handed(s, heapEnd)
    ensures Joins(r, s, heapEnd)
  {
    assert Between(First(r, heapEnd) / PAGE, Last(r) / PAGE, f) && Between(First(s, heapEnd) / PAGE, Last(s) / PAGE, f);
    FirstIsLeast(s, heapEnd, f);
    FirstIsLeast(r, heapEnd, f);
    LastIsGreatest(r, f);
    hide First, Last;
    LastOf(r);
  }

  /** A memory map in order of addresses hands in no frame twice exactly if no region joins one in front of it. */
  lemma HandedOnceIff(regions: seq<Region>, heapEnd: nat)
    requires forall i, j :: 0 <= i < j < |regions| ==> regions[i].base + regions[i].length <= regions[j].base
    ensures (forall i, j :: 0 <= i < j < |regions| ==> Handed(regions[i], heapEnd) !! Handed(regions[j], heapEnd)) <==>
            (forall i, j :: 0 <= i < j < |regions| ==> !Joins(regions[i], regions[j], heapEnd))
  {
    hide Handed, Joins;
    forall i, j | 0 <= i < j < |regions|
      ensures Handed(regions[i], heapEnd) !! Handed(regions[j], heapEnd) <==> !Joins(regions[i], regions[j], heapEnd)
    {
      SurplusTwiceIff(regions[i], regions[j], heapEnd);
    }
  }
}
