/**
 The order computations of libcpp/cmath.hpp.
 */
module CMath {
  import opened Bitmaps
  import opened Orders

  /** `ceil_order`: the halving loop finds the top bit, and any further bit rounds the order up. */
  method ComputeCeilOrder(num: nat) returns (order: nat)
    ensures order == CeilOrder(num)
    ensures num <= Pow2(order) && forall k: nat :: num <= Pow2(k) ==> order <= k
  {
    order := 0;
    var n := num;
    while n > 1
      invariant n == ShiftRight(num, order)
      invariant num > 0 ==> n > 0
      invariant FloorOrder(num) == order + FloorOrder(n)
    {
      ShiftRightStep(num, order);
      n := n / 2;
      order := order + 1;
    }
    assert order == FloorOrder(num);
    TopBit(num);
    if AndNotBit(num, order) != 0 {
      order := order + 1;
      assert num <= Pow2(order);
    }
    CeilOrderUnique(num, order);
    CeilOrderLeast(num);
  }

  /** Clearing the top bit of a number leaves zero exactly for zero and the powers of two. */
  lemma {:induction false} TopBit(n: nat)
    ensures AndNotBit(n, FloorOrder(n)) == if n == 0 then 0 else n - Pow2(FloorOrder(n))
  {
    if n > 1 {
      TopBit(n / 2);
    }
  }

  /** `floor_order`: the halving loop alone. */
  method ComputeFloorOrder(num: nat) returns (order: nat)
    ensures order == FloorOrder(num)
    ensures num > 0 ==> Pow2(order) <= num && forall k: nat :: Pow2(k) <= num ==> k <= order
  {
    order := 0;
    var n := num;
    while n > 1
      invariant n == ShiftRight(num, order)
      invariant num > 0 ==> n > 0
      invariant FloorOrder(num) == order + FloorOrder(n)
    {
      ShiftRightStep(num, order);
      n := n / 2;
      order := order + 1;
    }
    forall k: nat | num > 0 && Pow2(k) <= num
      ensures k <= order
    {
      if k > order {
        Pow2Monotone(order + 1, k);
      }
    }
  }

  /** `ceil_divide`. */
  function CeilDivide(dividend: nat, divisor: nat): (r: nat)
    requires divisor > 0
  {
    (dividend + divisor - 1) / divisor
  }

  /** The rounded-up quotient is the least number of parts that hold the whole. */
  lemma CeilDivideLeast(dividend: nat, divisor: nat, parts: nat)
    requires divisor > 0
    ensures parts * divisor >= dividend <==> parts >= CeilDivide(dividend, divisor)
  {
    var q := CeilDivide(dividend, divisor);
    assert q * divisor <= dividend + divisor - 1 < (q + 1) * divisor;
    if parts >= q {
      ProductMonotone(q, parts, divisor);
    } else {
      ProductMonotone(parts + 1, q, divisor);
    }
  }

  /** `ceil_divide` with its 32-bit sum. */
  function CeilDivideWord(dividend: uint32, divisor: uint32): nat
    requires divisor > 0
  {
    (dividend + divisor - 1) % WORD / divisor
  }

  /** The sum leaves 32 bits for large numbers only; the quotient is then 0, although there is something to divide. */
  lemma CeilDivideWordIff(dividend: uint32, divisor: uint32)
    requires divisor > 0
    ensures CeilDivideWord(dividend, divisor) == CeilDivide(dividend, divisor) <==> dividend + divisor <= WORD
    ensures dividend + divisor > WORD ==> CeilDivideWord(dividend, divisor) == 0 < dividend
  {
    var sum := dividend + divisor - 1;
    if dividend + divisor > WORD {
      assert sum % WORD == sum - WORD < divisor;
      CeilDivideLeast(dividend, divisor, 0);
    } else {
      assert sum % WORD == sum;
    }
  }
}
