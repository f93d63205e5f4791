/**
 Aligning addresses with a mask, as ALIGN_ADDR does: kernel/memory/MemoryManager.cpp, lines 30-35.
 */
module Masks {
  import opened Bitmaps
  import opened Orders

  /** `x & m`, place by place. */
  function And(x: nat, m: nat): (r: nat)
    ensures r <= x && r <= m
  {
    if x == 0 then 0 else 2 * And(x / 2, m / 2) + if x % 2 == 1 && m % 2 == 1 then 1 else 0
  }

  lemma Remainder(q: nat, m: nat, d: nat)
    requires m < d
    ensures (q * d + m) % d == m
  {
    var x := q * d + m;
    var r := x / d;
    assert x == r * d + x % d;
    if r < q {
      ProductMonotone(r + 1, q, d);
    } else if q < r {
      ProductMonotone(q + 1, r, d);
    }
  }

  /** The low bits are the remainder. */
  lemma {:induction false} AndLow(x: nat, k: nat)
    ensures And(x, Pow2(k) - 1) == x % Pow2(k)
  {
    hide And;
    if k == 0 {
      assert And(x, 0) == 0;
    } else {
      AndLow(x / 2, k - 1);
      HalfRemainder(x, Pow2(k - 1));
      AndStep(x, Pow2(k - 1));
    }
  }

  lemma AndStep(x: nat, p: nat)
    requires p > 0
    ensures And(x, 2 * p - 1) == 2 * And(x / 2, p - 1) + x % 2
  {
    assert (2 * p - 1) / 2 == p - 1 && (2 * p - 1) % 2 == 1;
  }

  lemma HalfRemainder(x: nat, p: nat)
    requires p > 0
    ensures x % (2 * p) == 2 * (x / 2 % p) + x % 2
  {
    var q, r := x / 2 / p, x / 2 % p;
    assert x / 2 == q * p + r;
    assert q * (2 * p) == 2 * (q * p);
    Remainder(q, 2 * r + x % 2, 2 * p);
  }

  /** Bits above the mask do not matter. */
  lemma {:induction false} AndHigh(x: nat, m: nat, k: nat)
    requires m < Pow2(k)
    ensures And(x + Pow2(k), m) == And(x, m)
  {
    if k > 0 {
      assert (x + Pow2(k)) / 2 == x / 2 + Pow2(k - 1);
      AndHigh(x / 2, m / 2, k - 1);
    }
  }

  lemma {:induction false} AndCleared(x: nat, m: nat)
    ensures And(x - And(x, m), m) == 0
  {
    if x > 0 {
      var y := x - And(x, m);
      assert y / 2 == x / 2 - And(x / 2, m / 2);
      AndCleared(x / 2, m / 2);
    }
  }

  /** Two numbers of the same length share their top bit. */
  lemma {:induction false} AndTop(x: nat, m: nat, k: nat)
    requires Pow2(k) <= x < Pow2(k + 1) && Pow2(k) <= m < Pow2(k + 1)
    ensures And(x, m) >= Pow2(k)
  {
    if k > 0 {
      AndTop(x / 2, m / 2, k - 1);
    }
  }

  predicate PowerOfTwo(n: nat) {
    n == Pow2(CeilOrder(n))
  }

  lemma SmallPowers()
    ensures PowerOfTwo(1) && PowerOfTwo(8)
  {
    CeilOrderOfPow2(3);
    assert Pow2(3) == 8;
  }

  /** ALIGN_ADDR: `addr & ~(alignment - 1)`, where the subtraction is in 32 bits. */
  function AlignDown(addr: nat, alignment: nat): (r: nat)
    ensures r <= addr
    ensures 0 < alignment < WORD ==> addr < r + alignment
  {
    addr - And(addr, (alignment + WORD - 1) % WORD)
  }

  /** The greatest multiple of `alignment` not above `addr`. */
  function RoundDown(addr: nat, alignment: nat): nat
    requires alignment > 0
  {
    addr - addr % alignment
  }

  lemma MaskOf(alignment: nat)
    requires 0 < alignment < WORD
    ensures (alignment + WORD - 1) % WORD == alignment - 1
  {
  }

  /** Masking rounds every address down to a multiple exactly for the powers of two. */
  lemma MaskRoundsIff(alignment: nat)
    requires 0 < alignment < WORD
    ensures (forall addr: nat :: AlignDown(addr, alignment) == RoundDown(addr, alignment)) <==> PowerOfTwo(alignment)
  {
    MaskOf(alignment);
    if PowerOfTwo(alignment) {
      forall addr: nat
        ensures AlignDown(addr, alignment) == RoundDown(addr, alignment)
      {
        AndLow(addr, CeilOrder(alignment));
      }
    } else {
      var k := FloorOrder(alignment);
      if alignment == Pow2(k) {
        CeilOrderOfPow2(k);
      }
      AndTop(alignment, alignment - 1, k);
      Remainder(1, 0, alignment);
      assert AlignDown(alignment, alignment) != RoundDown(alignment, alignment);
    }
  }

  /** Without alignment 0 is the only masked address. */
  lemma MaskOfZero(addr: nat)
    requires addr < WORD
    ensures AlignDown(addr, 0) == 0
  {
    WordSize();
    AndLow(addr, 32);
  }

  /** Aligning twice changes nothing. */
  lemma AlignDownTwice(addr: nat, alignment: nat)
    ensures AlignDown(AlignDown(addr, alignment), alignment) == AlignDown(addr, alignment)
  {
    AndCleared(addr, (alignment + WORD - 1) % WORD);
  }

  /** A carry out of 32 bits is lost. */
  lemma AlignDownHigh(addr: nat, alignment: nat)
    requires addr >= WORD
    ensures AlignDown(addr, alignment) == WORD + AlignDown(addr - WORD, alignment)
  {
    WordSize();
    AndHigh(addr - WORD, (alignment + WORD - 1) % WORD, 32);
  }

  /** The least multiple of `alignment` not below `addr`. */
  function AlignUp(addr: nat, alignment: nat): (r: nat)
    requires alignment > 0
    ensures addr <= r < addr + alignment && r % alignment == 0
    ensures forall x: nat :: addr <= x && x % alignment == 0 ==> r <= x
  {
    AlignUpLeast(addr, alignment);
    if addr % alignment == 0 then addr else RoundDown(addr, alignment) + alignment
  }

  lemma AlignUpLeast(addr: nat, alignment: nat)
    requires alignment > 0
    ensures var r := if addr % alignment == 0 then addr else RoundDown(addr, alignment) + alignment;
            && addr <= r < addr + alignment && r % alignment == 0
            && forall x: nat :: addr <= x && x % alignment == 0 ==> r <= x
  {
    var q, m := addr / alignment, addr % alignment;
    assert addr == q * alignment + m;
    if m != 0 {
      Remainder(q + 1, 0, alignment);
      assert RoundDown(addr, alignment) + alignment == (q + 1) * alignment;
      forall x: nat | addr <= x && x % alignment == 0
        ensures (q + 1) * alignment <= x
      {
        Between(x / alignment, q, m, alignment);
      }
    }
  }

  lemma Between(p: nat, q: nat, m: nat, d: nat)
    requires 0 < m && q * d + m <= p * d
    ensures (q + 1) * d <= p * d
  {
    if p <= q {
      ProductMonotone(p, q, d);
    } else {
      ProductMonotone(q + 1, p, d);
    }
  }

  /** The place that lines 31-35 look for: the address if it is masked already, or else the next one masked. */
  function Place(addr: nat, alignment: nat): (r: nat)
    ensures 0 < alignment < WORD ==> addr <= r <= addr + alignment
  {
    if AlignDown(addr, alignment) == addr then addr else AlignDown(addr + alignment, alignment)
  }

  /** For a power of two it is the least aligned place. */
  lemma PlaceIsAlignUp(addr: nat, alignment: nat)
    requires 0 < alignment < WORD && PowerOfTwo(alignment)
    ensures Place(addr, alignment) == AlignUp(addr, alignment)
  {
    hide AlignDown, PowerOfTwo;
    MaskRoundsIff(alignment);
    var q, m := addr / alignment, addr % alignment;
    assert addr == q * alignment + m;
    assert addr + alignment == (q + 1) * alignment + m;
    Remainder(q + 1, m, alignment);
  }

  /** And for any alignment it is masked. */
  lemma PlaceIsMasked(addr: nat, alignment: nat)
    ensures AlignDown(Place(addr, alignment), alignment) == Place(addr, alignment)
  {
    AlignDownTwice(addr + alignment, alignment);
  }
}
