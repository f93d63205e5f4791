/**
 Lists as sequences: what `append`, `pop`, `left_pop` and `remove` of libcpp/list.hpp mean.
 IntrusiveList.dfy proves that the linked implementation has exactly these effects.
 */
module Seqs {

  ghost predicate Distinct<T>(s: seq<T>) {
    forall i, j :: 0 <= i < j < |s| ==> s[i] != s[j]
  }

  /** `remove`: the list without member `x`. */
  function Without<T(==)>(s: seq<T>, x: T): (r: seq<T>)
    ensures x in s ==> |r| == |s| - 1
    ensures x !in s ==> r == s
  {
    if s == [] then [] else if s[0] == x then s[1..] else [s[0]] + Without(s[1..], x)
  }

  /** Removing a member of a list without repetitions takes out that member and nothing else. */
  lemma {:induction false} WithoutMembers<T>(s: seq<T>, x: T)
    requires Distinct(s)
    ensures Distinct(Without(s, x))
    ensures forall y :: y in Without(s, x) <==> y in s && y != x
  {
    if s == [] {
    } else if s[0] == x {
      assert forall y :: y in s <==> y == s[0] || y in s[1..];
    } else {
      WithoutMembers(s[1..], x);
      assert forall y :: y in s <==> y == s[0] || y in s[1..];
      assert s[0] !in s[1..];
    }
  }

  /** Cutting out one position of a list without repetitions is removing that member. */
  lemma {:induction false} WithoutAt<T>(s: seq<T>, i: nat)
    requires Distinct(s) && i < |s|
    ensures Without(s, s[i]) == s[..i] + s[i + 1..]
  {
    if i > 0 {
      WithoutAt(s[1..], i - 1);
      assert s[1..][i - 1] == s[i];
      assert s[0] != s[i];
      assert [s[0]] + (s[1..][..i - 1] + s[1..][i..]) == s[..i] + s[i + 1..];
    }
  }

  lemma DistinctAppend<T>(s: seq<T>, x: T)
    requires Distinct(s) && x !in s
    ensures Distinct(s + [x])
    ensures forall y :: y in s + [x] <==> y in s || y == x
  {
  }
}
