/**
 The size arithmetic of libcpp/cmath.hpp: orders (base-two logarithms) of frame counts.
 */
module Orders {

  /** `1U << k`. */
  function Pow2(k: nat): (p: nat)
    ensures p > 0
  {
    if k == 0 then 1 else 2 * Pow2(k - 1)
  }

  lemma {:induction false} Pow2Monotone(a: nat, b: nat)
    requires a <= b
    ensures Pow2(a) <= Pow2(b)
    ensures a < b ==> 2 * Pow2(a) <= Pow2(b)
    decreases b
  {
    if a < b {
      Pow2Monotone(a, b - 1);
    }
  }

  /** `x << k`, one place at a time. */
  function ShiftLeft(x: nat, k: nat): (r: nat)
    decreases k
  {
    if k == 0 then x else ShiftLeft(2 * x, k - 1)
  }

  /** `x >> k`, one place at a time. */
  function ShiftRight(x: nat, k: nat): (r: nat) {
    if k == 0 then x else ShiftRight(x / 2, k - 1)
  }

  lemma {:induction false} ShiftLeftSuccessor(x: nat, k: nat)
    ensures ShiftLeft(x + 1, k) == ShiftLeft(x, k) + Pow2(k)
    ensures ShiftLeft(x, k + 1) == 2 * ShiftLeft(x, k)
    decreases k
  {
    if k > 0 {
      ShiftLeftSuccessor(2 * x, k - 1);
      ShiftLeftSuccessor(2 * x + 1, k - 1);
    }
  }

  lemma {:induction false} ShiftLeftMonotone(x: nat, y: nat, k: nat)
    requires x < y
    ensures ShiftLeft(x, k) + Pow2(k) <= ShiftLeft(y, k)
    decreases y - x
  {
    ShiftLeftSuccessor(x, k);
    if x + 1 < y {
      ShiftLeftMonotone(x + 1, y, k);
    }
  }

  lemma {:induction false} ShiftLeftPow2(j: nat, k: nat)
    ensures ShiftLeft(Pow2(j), k) == Pow2(j + k)
    decreases k
  {
    if k > 0 {
      ShiftLeftPow2(j + 1, k - 1);
    }
  }

  lemma {:induction false} ShiftLeftIsProduct(x: nat, k: nat)
    ensures ShiftLeft(x, k) == x * Pow2(k)
    decreases k
  {
    if k > 0 {
      ShiftLeftIsProduct(2 * x, k - 1);
      assert (2 * x) * Pow2(k - 1) == x * (2 * Pow2(k - 1));
    }
  }

  lemma {:induction false} ShiftRightStep(x: nat, k: nat)
    ensures ShiftRight(x, k + 1) == ShiftRight(x, k) / 2
  {
    if k > 0 {
      ShiftRightStep(x / 2, k - 1);
    }
  }

  /** Shifting right is the rounded-down quotient by a power of two. */
  lemma {:induction false} ShiftRightIsQuotient(x: nat, k: nat)
    ensures ShiftLeft(ShiftRight(x, k), k) <= x < ShiftLeft(ShiftRight(x, k), k) + Pow2(k)
  {
    if k > 0 {
      ShiftRightIsQuotient(x / 2, k - 1);
      ShiftLeftSuccessor(ShiftRight(x / 2, k - 1), k - 1);
    }
  }

  lemma QuotientUnique(x: nat, k: nat, q: nat)
    requires ShiftLeft(q, k) <= x < ShiftLeft(q, k) + Pow2(k)
    ensures ShiftRight(x, k) == q
  {
    var r := ShiftRight(x, k);
    ShiftRightIsQuotient(x, k);
    if q < r {
      ShiftLeftMonotone(q, r, k);
    } else if r < q {
      ShiftLeftMonotone(r, q, k);
    }
  }

  /** `x % (1U << k) == 0`, read off the low bits; AlignedIsMod gives the remainder form. */
  predicate Aligned(x: nat, k: nat) {
    k == 0 || (x % 2 == 0 && Aligned(x / 2, k - 1))
  }

  lemma {:induction false} AlignedIsShift(x: nat, k: nat)
    ensures Aligned(x, k) <==> x == ShiftLeft(ShiftRight(x, k), k)
  {
    if k > 0 {
      AlignedIsShift(x / 2, k - 1);
      ShiftLeftSuccessor(ShiftRight(x / 2, k - 1), k - 1);
    }
  }

  lemma ShiftLeftAligned(q: nat, k: nat)
    ensures Aligned(ShiftLeft(q, k), k)
  {
    QuotientUnique(ShiftLeft(q, k), k, q);
    AlignedIsShift(ShiftLeft(q, k), k);
  }

  lemma AlignedIsMod(x: nat, k: nat)
    ensures Aligned(x, k) <==> x % Pow2(k) == 0
  {
    AlignedIsShift(x, k);
    if x % Pow2(k) == 0 {
      var q := ExactQuotient(x, Pow2(k));
      ShiftLeftIsProduct(q, k);
      ShiftLeftAligned(q, k);
    }
    if Aligned(x, k) {
      ShiftLeftIsProduct(ShiftRight(x, k), k);
      MultipleMod(ShiftRight(x, k), Pow2(k));
    }
  }

  lemma ExactQuotient(x: nat, d: nat) returns (q: nat)
    requires d > 0 && x % d == 0
    ensures x == q * d
  {
    q := x / d;
  }

  lemma MultipleMod(q: nat, d: nat)
    requires d > 0
    ensures (q * d) % d == 0
  {
    var x := q * d;
    var r := x / d;
    assert x == r * d + x % d;
    if r < q {
      ProductMonotone(r + 1, q, d);
    } else if q < r {
      ProductMonotone(q + 1, r, d);
    }
  }

  lemma ProductMonotone(a: int, b: int, d: int)
    requires a <= b && 0 <= d
    ensures a * d <= b * d
  {
    assert (b - a) * d >= 0;
  }

  /** The least order whose block holds `n` frames. */
  function CeilOrder(n: nat): (k: nat)
    ensures n <= Pow2(k)
    ensures k > 0 ==> Pow2(k - 1) < n
  {
    if n <= 1 then 0 else 1 + CeilOrder((n + 1) / 2)
  }

  /** The greatest order whose block fits into `n` frames. */
  function FloorOrder(n: nat): (k: nat)
    ensures n > 0 ==> Pow2(k) <= n
    ensures n < Pow2(k + 1)
  {
    if n <= 1 then 0 else 1 + FloorOrder(n / 2)
  }

  lemma CeilOrderUnique(n: nat, k: nat)
    requires n <= Pow2(k) && (k > 0 ==> Pow2(k - 1) < n)
    ensures k == CeilOrder(n)
  {
    var c := CeilOrder(n);
    if k < c {
      Pow2Monotone(k, c - 1);
    } else if c < k {
      Pow2Monotone(c, k - 1);
    }
  }

  lemma CeilOrderOfPow2(k: nat)
    ensures CeilOrder(Pow2(k)) == k
  {
    CeilOrderUnique(Pow2(k), k);
  }

  lemma CeilOrderLeast(n: nat)
    ensures forall k: nat :: n <= Pow2(k) ==> CeilOrder(n) <= k
  {
    forall k: nat | n <= Pow2(k)
      ensures CeilOrder(n) <= k
    {
      if k < CeilOrder(n) {
        Pow2Monotone(k, CeilOrder(n) - 1);
      }
    }
  }
}
