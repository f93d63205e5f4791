/**
 Single bits of machine words, place by place: `w & (1U << i)`, `w | (1U << i)` and `w & ~(1U << i)`.
 */
module Bitmaps {
  import opened Orders

  const WORD: nat := 0x1_0000_0000

  type uint32 = w: nat | w < WORD

  /** `w & (1U << i)` is not zero. */
  predicate TestBit(w: nat, i: nat) {
    if i == 0 then w % 2 == 1 else TestBit(w / 2, i - 1)
  }

  /** `w | (1U << i)`. */
  function OrBit(w: nat, i: nat): nat {
    if i == 0 then w / 2 * 2 + 1 else 2 * OrBit(w / 2, i - 1) + w % 2
  }

  /** `w & ~(1U << i)`. */
  function AndNotBit(w: nat, i: nat): nat {
    if i == 0 then w / 2 * 2 else 2 * AndNotBit(w / 2, i - 1) + w % 2
  }

  /** Setting a bit sets that bit only. */
  lemma {:induction false} OrBitTest(w: nat, i: nat, j: nat)
    ensures TestBit(OrBit(w, i), j) <==> i == j || TestBit(w, j)
  {
    if i > 0 && j > 0 {
      OrBitTest(w / 2, i - 1, j - 1);
    }
  }

  /** Clearing a bit clears that bit only. */
  lemma {:induction false} AndNotBitTest(w: nat, i: nat, j: nat)
    ensures TestBit(AndNotBit(w, i), j) <==> i != j && TestBit(w, j)
  {
    if i > 0 && j > 0 {
      AndNotBitTest(w / 2, i - 1, j - 1);
    }
  }

  lemma {:induction false} ZeroHasNoBit(i: nat)
    ensures !TestBit(0, i)
  {
    if i > 0 {
      ZeroHasNoBit(i - 1);
    }
  }

  /** Neither operation leaves the word. */
  lemma BitsStayInWord(w: nat, i: nat, width: nat)
    requires i < width && w < Pow2(width)
    ensures OrBit(w, i) < Pow2(width) && AndNotBit(w, i) < Pow2(width)
  {
    OrBitStays(w, i, width);
    AndNotBitLess(w, i);
  }

  lemma {:induction false} OrBitStays(w: nat, i: nat, width: nat)
    requires i < width && w < Pow2(width)
    ensures OrBit(w, i) < Pow2(width)
  {
    var p := Pow2(width - 1);
    assert Pow2(width) == 2 * p && w / 2 < p;
    if i > 0 {
      OrBitStays(w / 2, i - 1, width - 1);
    }
  }

  lemma {:induction false} AndNotBitLess(w: nat, i: nat)
    ensures AndNotBit(w, i) <= w
  {
    if i > 0 {
      AndNotBitLess(w / 2, i - 1);
    }
  }

  lemma WordSize()
    ensures Pow2(32) == WORD
  {
    assert Pow2(8) == 0x100;
    assert Pow2(16) == 0x1_0000;
    assert Pow2(24) == 0x100_0000;
  }
}
