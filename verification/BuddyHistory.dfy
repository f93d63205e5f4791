/**
 The state of a frame allocator does not depend on its history.
 */
module BuddyHistory {
  import opened BuddyCanonical
  import opened BuddyLists
  import opened BuddyManagers
  import opened BuddyTree
  import opened Options
  import opened Orders

  /**
   Whatever two managers of one size went through: with the same free frames they have the same chunks on
   every list, the same bits for all pairs, and they record the same free chunks.
   */
  lemma SameFreeFramesSameState(a: BuddyManager, b: BuddyManager)
    requires a.Valid() && b.Valid() && a.frameCount == b.frameCount && a.FreeFrames() == b.FreeFrames()
    ensures a.free == b.free && a.maxOrder == b.maxOrder
    ensures forall k, c :: 0 <= k <= a.maxOrder ==> (c in a.orderMap[k] <==> c in b.orderMap[k])
    ensures forall k :: 0 <= k <= a.maxOrder ==> |a.orderMap[k]| == |b.orderMap[k]|
    ensures forall p :: 1 <= p < a.frameCount ==> (BitSet(a.bitmap[..], p) <==> BitSet(b.bitmap[..], p))
    ensures forall k, c :: 0 <= k <= a.maxOrder && c in a.orderMap[k] ==>
              c.start < a.frameCount && a.frames[c.start] == Some(c) && b.frames[c.start] == Some(c)
  {
    hide ListsOk, SlotsName, SlotsFresh, BitsOk, BitSet, Frames, Proper;
    CeilOrderOfPow2(a.maxOrder);
    CeilOrderOfPow2(b.maxOrder);
    FramesDetermineBlocks(a.free, b.free, a.frameCount);
    CanonicalForm(a.orderMap[..], a.frames[..], a.bitmap[..], a.free,
                  b.orderMap[..], b.frames[..], b.bitmap[..], b.free, a.maxOrder);
    assert forall k :: 0 <= k <= a.maxOrder ==>
           a.orderMap[k] == a.orderMap[..][k] && b.orderMap[k] == b.orderMap[..][k];
  }
}
