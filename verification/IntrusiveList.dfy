/**
 The doubly linked list of libcpp/list.hpp, whose links live inside the members. Its methods refine the
 operations on sequences that the rest of the kernel's model uses.
 */
module IntrusiveLists {
  import opened Seqs

  class ListNode {
    var next: ListNode?
    var prev: ListNode?
    var list: List?

    constructor ()
      ensures next == null && prev == null && list == null
    {
      next, prev, list := null, null, null;
    }
  }

  datatype Outcome = Removed | Panicked | NullDereferenced

  class List {
    var size: nat
    var head: ListNode?
    var tail: ListNode?
    /** The members, in order. */
    ghost var items: seq<ListNode>

    ghost predicate Valid()
      reads this, items
    {
      Represents(items)
    }

    /** The fields and links are those of a list with exactly these members. */
    ghost predicate Represents(s: seq<ListNode>)
      reads this, s
    {
      && Distinct(s)
      && size == |s|
      && head == Link(s, 0) && tail == Link(s, |s| - 1)
      && forall i :: 0 <= i < |s| ==> Linked(s, i)
    }

    ghost predicate Linked(s: seq<ListNode>, i: int)
      requires 0 <= i < |s|
      reads s
    {
      s[i].next == Link(s, i + 1) && s[i].prev == Link(s, i - 1) && s[i].list == this
    }

    /** A node that `remove` took out of the middle still names the list, but has no neighbours. */
    ghost predicate Stale(node: ListNode)
      reads this, node
    {
      node.list == this && node !in items
    }

    constructor ()
      ensures Valid() && items == []
    {
      size, head, tail, items := 0, null, null, [];
    }

    /** Iteration: the node that `k` increments of `begin()` reach, and `end()` after the last. */
    ghost function Reached(k: nat): (node: ListNode?)
      requires Valid() && k <= |items|
      reads this, items
      ensures node == if k < |items| then items[k] else null
    {
      if k == 0 then head
      else
        var before := Reached(k - 1);
        assert Linked(items, k - 1);
        before.next
    }

    /**
     `append`.  Its assertion lets the only member of a list pass, this one or another; that list is then no list
     of any members.
     */
    method Append(node: ListNode)
      requires Valid() && node.prev == null && node.next == null
      modifies this, items, node
      ensures node !in old(items) ==> Valid() && items == old(items) + [node]
      ensures node in old(items) ==> forall s: seq<ListNode> :: !Represents(s)
      ensures forall l: List :: l != this && old(allocated(l)) && old(l.Valid()) && node !in old(l.items) ==>
                l.Valid() && l.items == old(l.items)
      ensures forall l: List :: l != this && old(allocated(l)) && old(l.Valid()) && node in old(l.items) ==>
                forall s: seq<ListNode> :: !l.Represents(s)
    {
      AppendTwice(node);
      if tail != null {
        assert Linked(items, |items| - 1);
        tail.next := node;
        node.prev := tail;
        node.next := null;
        tail := node;
      } else {
        head, tail := node, node;
        node.prev, node.next := null, null;
      }
      node.list := this;
      size := size + 1;
      if node !in items {
        AppendLinks(node);
        items := items + [node];
      } else {
        NotTwice(node);
      }
      OthersStay(node);
      OthersLoseMember(node);
    }

    /** A node without neighbours is at most the only member. */
    lemma AppendTwice(node: ListNode)
      requires Valid() && node.prev == null && node.next == null
      ensures node in items ==> items == [node]
    {
      if node in items {
        AssertionMissesOnlyMember(this, node);
      }
    }

    lemma NotTwice(node: ListNode)
      requires size == 2 && head == node && tail == node
      ensures forall s: seq<ListNode> :: !Represents(s)
    {
    }

    /** The only member of another list does not belong to it any more. */
    twostate lemma OthersLoseMember(node: ListNode)
      requires node.list == this && old(node.prev == null && node.next == null)
      requires forall l: List :: l != this && old(allocated(l)) ==>
                 l.items == old(l.items) && l.size == old(l.size) && l.head == old(l.head) && l.tail == old(l.tail)
      ensures forall l: List :: l != this && old(allocated(l)) && old(l.Valid()) && node in old(l.items) ==>
                forall s: seq<ListNode> :: !l.Represents(s)
    {
      forall l: List | l != this && old(allocated(l)) && old(l.Valid()) && node in old(l.items)
        ensures forall s: seq<ListNode> :: !l.Represents(s)
      {
        var i :| 0 <= i < |old(l.items)| && old(l.items[i]) == node;
        assert old(l.Linked(l.items, i));
        assert old(l.items) == [node];
        assert !l.Linked([node], 0);
        forall s: seq<ListNode>
          ensures !l.Represents(s)
        {
          assert l.Represents(s) ==> s == [node];
        }
      }
    }

    twostate lemma AppendLinks(node: ListNode)
      requires old(Valid()) && node !in items && items == old(items)
      requires node.prev == old(tail) && node.next == null && node.list == this
      requires items != [] ==> items[|items| - 1].next == node
      requires forall i :: 0 <= i < |items| ==>
               items[i].prev == old(items[i].prev) && items[i].list == old(items[i].list)
      requires forall i :: 0 <= i < |items| - 1 ==> items[i].next == old(items[i].next)
      ensures Distinct(items + [node]) && forall i :: 0 <= i <= |items| ==> Linked(items + [node], i)
    {
      DistinctAppend(items, node);
      forall i | 0 <= i <= |items|
        ensures Linked(items + [node], i)
      {
        if i < |items| {
          assert old(Linked(items, i));
        }
      }
    }

    method Pop() returns (node: ListNode)
      requires Valid() && items != []
      modifies this, items
      ensures Valid() && node == old(items[|items| - 1]) && items == old(items[..|items| - 1])
      ensures node.next == null && node.prev == null && node.list == null
      ensures forall l: List :: l != this && old(allocated(l)) && old(l.Valid()) ==>
              l.Valid() && l.items == old(l.items)
    {
      var last := |items| - 1;
      assert Linked(items, last);
      assert last > 0 ==> Linked(items, last - 1);
      node := tail;
      tail := tail.prev;
      if tail != null {
        tail.next := null;
      } else {
        head := null;
      }
      size := size - 1;
      node.next, node.prev := null, null;
      node.list := null;
      items := items[..last];
      forall i | 0 <= i < last
        ensures Linked(items, i)
      {
        assert old(Linked(items, i));
      }
      OthersStay(null);
    }

    method LeftPop() returns (node: ListNode)
      requires Valid() && items != []
      modifies this, items
      ensures Valid() && node == old(items[0]) && items == old(items[1..])
      ensures node.next == null && node.prev == null && node.list == null
      ensures forall l: List :: l != this && old(allocated(l)) && old(l.Valid()) ==>
              l.Valid() && l.items == old(l.items)
    {
      assert Linked(items, 0);
      assert |items| > 1 ==> Linked(items, 1);
      node := head;
      head := head.next;
      if head != null {
        head.prev := null;
      } else {
        tail := null;
      }
      size := size - 1;
      node.next, node.prev := null, null;
      node.list := null;
      items := items[1..];
      forall i | 0 <= i < |items|
        ensures Linked(items, i)
      {
        assert old(Linked(items, i + 1));
      }
      OthersStay(null);
    }

    /** A list that shares no member with this one, and does not hold `node`, does not notice changes here. */
    twostate lemma OthersStay(node: ListNode?)
      requires old(Valid())
      requires forall l: List :: l != this && old(allocated(l)) ==>
                 l.items == old(l.items) && l.size == old(l.size) && l.head == old(l.head) && l.tail == old(l.tail)
      requires forall n: ListNode :: n !in old(items) && n != node && old(allocated(n)) ==>
                 n.next == old(n.next) && n.prev == old(n.prev) && n.list == old(n.list)
      ensures forall l: List ::
                l != this && old(allocated(l)) && old(l.Valid()) && (node == null || node !in old(l.items)) ==>
                l.Valid() && l.items == old(l.items)
    {
      forall n | n in old(items)
        ensures old(n.list) == this
      {
        var j :| 0 <= j < |old(items)| && old(items[j]) == n;
        assert old(Linked(items, j));
      }
      forall l: List | l != this && old(allocated(l)) && old(l.Valid()) && (node == null || node !in old(l.items))
        ensures l.Valid() && l.items == old(l.items)
      {
        forall i | 0 <= i < |l.items|
          ensures l.Linked(l.items, i)
        {
          assert old(l.Linked(l.items, i));
          assert l.items[i] !in old(items);
        }
      }
    }

    /** `remove`, with the two ways it can fail. */
    method Remove(node: ListNode) returns (outcome: Outcome)
      requires Valid() && (Stale(node) ==> node.prev == null)
      modifies this, items
      ensures Valid()
      ensures outcome == if node in old(items) then Removed else if old(Stale(node)) then NullDereferenced else Panicked
      ensures items == Without(old(items), node)
      ensures outcome == Removed ==> node.next == null && node.prev == null
      ensures outcome == Removed ==> (Stale(node) <==> node != old(items[0]) && node != old(items[|items| - 1]))
      ensures forall l: List :: l != this && old(allocated(l)) && old(l.Valid()) ==>
              l.Valid() && l.items == old(l.items)
    {
      WithoutMembers(items, node);
      if head == node {
        WithoutAt(items, 0);
        var _ := LeftPop();
        return Removed;
      }
      if tail == node {
        WithoutAt(items, |items| - 1);
        var _ := Pop();
        return Removed;
      }
      if node in items {
        MemberLinks(node);
      }
      if node.list == this {
        if node.prev == null {
          return NullDereferenced;
        }
        RemoveInside(node);
        return Removed;
      }
      return Panicked;
    }

    lemma MemberLinks(node: ListNode)
      requires Valid() && node in items
      ensures node.list == this && (node.prev == null <==> node == head)
    {
      var i :| 0 <= i < |items| && items[i] == node;
      assert Linked(items, i);
    }

    /** Lines 180-183. */
    method RemoveInside(node: ListNode)
      requires Valid() && node in items && node != head && node != tail
      modifies this, items
      ensures Valid() && items == Without(old(items), node)
      ensures node.next == null && node.prev == null && node.list == this
      ensures forall l: List :: l != this && old(allocated(l)) && old(l.Valid()) ==>
              l.Valid() && l.items == old(l.items)
    {
      hide Without;
      ghost var i :| 0 <= i < |items| && items[i] == node;
      WithoutAt(items, i);
      assert Linked(items, i) && Linked(items, i - 1) && Linked(items, i + 1);
      node.prev.next := node.next;
      node.next.prev := node.prev;
      node.prev, node.next := null, null;
      size := size - 1;
      items := items[..i] + items[i + 1..];
      CutLinks(i);
      OthersStay(null);
    }

    /** Joining the neighbours of member `i` links the rest. */
    twostate lemma CutLinks(i: nat)
      requires old(Valid()) && 0 < i < |old(items)| - 1
      requires items == old(items[..i] + items[i + 1..])
      requires old(items[i - 1]).next == old(items[i + 1]) && old(items[i + 1]).prev == old(items[i - 1])
      requires forall j :: 0 <= j < |old(items)| ==> old(items[j]).list == old(items[j].list)
      requires forall j :: 0 <= j < |old(items)| && j != i && j != i - 1 ==> old(items[j]).next == old(items[j].next)
      requires forall j :: 0 <= j < |old(items)| && j != i && j != i + 1 ==> old(items[j]).prev == old(items[j].prev)
      ensures Distinct(items) && forall j :: 0 <= j < |items| ==> Linked(items, j)
    {
      forall j | 0 <= j < |items|
        ensures Linked(items, j)
      {
        assert old(Linked(items, if j < i then j else j + 1));
      }
    }
  }

  /** A node is a member of at most one list, so methods that change only their own members touch no other list. */
  lemma ListsShareNoMember(a: List, b: List, node: ListNode)
    requires a.Valid() && b.Valid() && node in a.items && node in b.items
    ensures a == b
  {
    var i :| 0 <= i < |a.items| && a.items[i] == node;
    var j :| 0 <= j < |b.items| && b.items[j] == node;
    assert a.Linked(a.items, i) && b.Linked(b.items, j);
  }

  /** The assertion in `append` refuses every node that some list holds, except the only member of a list. */
  lemma AssertionMissesOnlyMember(l: List, node: ListNode)
    requires l.Valid() && node in l.items
    ensures node.prev == null && node.next == null <==> l.items == [node]
  {
    var i :| 0 <= i < |l.items| && l.items[i] == node;
    assert l.Linked(l.items, i);
  }

  function Link(s: seq<ListNode>, i: int): ListNode? {
    if 0 <= i < |s| then s[i] else null
  }
}
