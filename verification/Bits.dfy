/** Unsigned 64-bit words as numbers below 2^64, with Go's bitwise operators written out
    bit by bit. */
module Bits {
  function Pow2(n: nat): (p: nat)
    ensures p > 0
  {
    if n == 0 then 1 else 2 * Pow2(n - 1)
  }

  const WORD_LIMIT: nat := 0x1_0000_0000_0000_0000

  type Word = x: int | 0 <= x < WORD_LIMIT

  const ALL_ONES: Word := WORD_LIMIT - 1

  predicate BitAt(u: nat, k: nat) {
    if k == 0 then u % 2 == 1 else BitAt(u / 2, k - 1)
  }

  function Or(u: nat, v: nat): nat
    decreases u + v
  {
    if u == 0 && v == 0 then 0
    else (if u % 2 == 1 || v % 2 == 1 then 1 else 0) + 2 * Or(u / 2, v / 2)
  }

  function And(u: nat, v: nat): nat {
    if u == 0 then 0
    else (if u % 2 == 1 && v % 2 == 1 then 1 else 0) + 2 * And(u / 2, v / 2)
  }

  /** The complement within `n` bits. */
  function Flip(u: nat, n: nat): nat
    requires u < Pow2(n)
  {
    Pow2(n) - 1 - u
  }

  lemma PowersAreWords()
    ensures Pow2(64) == WORD_LIMIT
  {
    assert Pow2(10) == 0x400;
    assert Pow2(20) == 0x10_0000;
    assert Pow2(30) == 0x4000_0000;
    assert Pow2(40) == 0x100_0000_0000;
    assert Pow2(50) == 0x4_0000_0000_0000;
    assert Pow2(60) == 0x1000_0000_0000_0000;
  }

  lemma {:induction false} PowGrows(m: nat, n: nat)
    requires m < n
    ensures Pow2(m) < Pow2(n)
  {
    if m < n - 1 {
      PowGrows(m, n - 1);
    }
  }

  lemma {:induction false} ZeroBits(k: nat)
    ensures !BitAt(0, k)
  {
    if k > 0 {
      ZeroBits(k - 1);
    }
  }

  lemma OrStep(u: nat, v: nat)
    ensures Or(u, v) / 2 == Or(u / 2, v / 2) && (Or(u, v) % 2 == 1 <==> u % 2 == 1 || v % 2 == 1)
  {
  }

  lemma {:induction false} OrBit(u: nat, v: nat, k: nat)
    ensures BitAt(Or(u, v), k) <==> BitAt(u, k) || BitAt(v, k)
  {
    OrStep(u, v);
    if k > 0 {
      OrBit(u / 2, v / 2, k - 1);
    }
  }

  lemma {:induction false} AndBit(u: nat, v: nat, k: nat)
    ensures BitAt(And(u, v), k) <==> BitAt(u, k) && BitAt(v, k)
  {
    if u == 0 {
      ZeroBits(k);
    } else if k > 0 {
      AndBit(u / 2, v / 2, k - 1);
      assert And(u, v) / 2 == And(u / 2, v / 2);
    }
  }

  lemma {:induction false} FlipBit(u: nat, n: nat, k: nat)
    requires u < Pow2(n) && k < n
    ensures BitAt(Flip(u, n), k) <==> !BitAt(u, k)
  {
    if k > 0 {
      FlipBit(u / 2, n - 1, k - 1);
      assert Flip(u, n) / 2 == Flip(u / 2, n - 1);
    }
  }

  lemma {:induction false} PowBit(k: nat, j: nat)
    ensures BitAt(Pow2(k), j) <==> j == k
  {
    if k > 0 && j > 0 {
      PowBit(k - 1, j - 1);
    } else if j > 0 {
      ZeroBits(j - 1);
    }
  }

  lemma {:induction false} LowMaskBit(k: nat, j: nat)
    ensures BitAt(Pow2(k) - 1, j) <==> j < k
  {
    if k == 0 {
      ZeroBits(j);
    } else if j > 0 {
      LowMaskBit(k - 1, j - 1);
      assert (Pow2(k) - 1) / 2 == Pow2(k - 1) - 1;
    }
  }

  lemma {:induction false} OrRange(u: nat, v: nat, n: nat)
    requires u < Pow2(n) && v < Pow2(n)
    ensures Or(u, v) < Pow2(n)
  {
    if n > 0 {
      OrRange(u / 2, v / 2, n - 1);
    }
  }

  lemma {:induction false} AndRange(u: nat, v: nat)
    ensures And(u, v) <= u
  {
    if u > 0 {
      AndRange(u / 2, v / 2);
    }
  }

  /** A word without bits is zero. */
  lemma {:induction false} NoBits(u: nat, n: nat)
    requires u < Pow2(n) && forall k :: 0 <= k < n ==> !BitAt(u, k)
    ensures u == 0
  {
    if n > 0 {
      assert !BitAt(u, 0);
      forall k | 0 <= k < n - 1
        ensures !BitAt(u / 2, k)
      {
        assert !BitAt(u, k + 1);
      }
      NoBits(u / 2, n - 1);
    }
  }

  /** Testing with a one-bit mask is reading the bit. */
  lemma MaskTest(u: Word, k: nat)
    requires k < 64
    ensures And(u, Pow2(k)) != 0 <==> BitAt(u, k)
  {
    AndBit(u, Pow2(k), k);
    PowBit(k, k);
    ZeroBits(k);
    if !BitAt(u, k) {
      PowersAreWords();
      AndRange(u, Pow2(k));
      forall j | 0 <= j < 64
        ensures !BitAt(And(u, Pow2(k)), j)
      {
        AndBit(u, Pow2(k), j);
        PowBit(k, j);
      }
      NoBits(And(u, Pow2(k)), 64);
    }
  }

  /** `word | mask` for the mask `1 << k`. */
  lemma SetBits(u: Word, k: nat)
    requires k < 64
    ensures Or(u, Pow2(k)) < WORD_LIMIT
    ensures forall j :: 0 <= j < 64 ==> (BitAt(Or(u, Pow2(k)), j) <==> j == k || BitAt(u, j))
  {
    PowersAreWords();
    PowGrows(k, 64);
    OrRange(u, Pow2(k), 64);
    forall j | 0 <= j < 64
      ensures BitAt(Or(u, Pow2(k)), j) <==> j == k || BitAt(u, j)
    {
      OrBit(u, Pow2(k), j);
      PowBit(k, j);
    }
  }

  /** `^mask` for the mask `1 << k`. */
  function OthersMask(k: nat): Word
    requires k < 64
  {
    PowersAreWords();
    PowGrows(k, 64);
    Flip(Pow2(k), 64)
  }

  /** `word & ^mask`. */
  lemma ClearBits(u: Word, k: nat)
    requires k < 64
    ensures And(u, OthersMask(k)) < WORD_LIMIT
    ensures forall j :: 0 <= j < 64 ==> (BitAt(And(u, OthersMask(k)), j) <==> j != k && BitAt(u, j))
  {
    PowersAreWords();
    PowGrows(k, 64);
    AndRange(u, OthersMask(k));
    forall j | 0 <= j < 64
      ensures BitAt(And(u, OthersMask(k)), j) <==> j != k && BitAt(u, j)
    {
      AndBit(u, OthersMask(k), j);
      FlipBit(Pow2(k), 64, j);
      PowBit(k, j);
    }
  }

  function WithBit(u: Word, k: nat, on: bool): (r: Word)
    requires k < 64
    ensures forall j :: 0 <= j < 64 ==> (BitAt(r, j) <==> if j == k then on else BitAt(u, j))
  {
    SetBits(u, k);
    ClearBits(u, k);
    if on then Or(u, Pow2(k)) else And(u, OthersMask(k))
  }

  /** `uint64(1) << uint64(k)`: a negative `k` becomes a huge count, which shifts the bit
      out. */
  function OneShifted(k: int): Word
    requires -64 < k < 64
  {
    if k < 0 then 0
    else
      PowersAreWords();
      PowGrows(k, 64);
      Pow2(k)
  }

  /** `^mask` */
  function Complement(mask: Word): Word {
    ALL_ONES - mask
  }

  lemma {:induction false} EmptyMask(u: nat)
    ensures And(u, 0) == 0 && Or(u, 0) == u
  {
    if u > 0 {
      EmptyMask(u / 2);
    }
  }

  lemma {:induction false} FullMask(u: nat, n: nat)
    requires u < Pow2(n)
    ensures And(u, Pow2(n) - 1) == u
  {
    if u > 0 {
      FullMask(u / 2, n - 1);
      assert (Pow2(n) - 1) / 2 == Pow2(n - 1) - 1;
    }
  }

  lemma OutsideMask(u: Word, k: int)
    requires -64 < k < 0
    ensures And(u, OneShifted(k)) == 0 && Or(u, OneShifted(k)) == u && And(u, Complement(OneShifted(k))) == u
  {
    EmptyMask(u);
    PowersAreWords();
    FullMask(u, 64);
  }

  lemma InsideMask(k: nat)
    requires k < 64
    ensures OneShifted(k) == Pow2(k) && Complement(OneShifted(k)) == OthersMask(k)
  {
    PowersAreWords();
  }

  /** What is written back through the mask `1 << k`. A negative `k` changes nothing. */
  lemma WriteThrough(u: Word, k: int, on: bool)
    requires -64 < k < 64
    ensures (if on then Or(u, OneShifted(k)) else And(u, Complement(OneShifted(k)))) ==
      if k >= 0 then WithBit(u, k, on) else u
  {
    if k >= 0 {
      InsideMask(k);
    } else {
      OutsideMask(u, k);
    }
  }

  lemma ReadThrough(u: Word, k: int)
    requires -64 < k < 64
    ensures And(u, OneShifted(k)) != 0 <==> k >= 0 && BitAt(u, k)
  {
    if k >= 0 {
      InsideMask(k);
      MaskTest(u, k);
    } else {
      OutsideMask(u, k);
    }
  }

  /** `(1 << k) - 1`. */
  function LowMask(k: nat): nat {
    Pow2(k) - 1
  }

  /** `word | ((1 << k) - 1)`: the bits below the hint count as taken. */
  lemma MaskedBits(u: Word, k: nat)
    requires k < 64
    ensures Or(u, LowMask(k)) < WORD_LIMIT
    ensures forall j :: 0 <= j < 64 ==> (BitAt(Or(u, LowMask(k)), j) <==> j < k || BitAt(u, j))
  {
    PowersAreWords();
    PowGrows(k, 64);
    OrRange(u, LowMask(k), 64);
    forall j | 0 <= j < 64
      ensures BitAt(Or(u, LowMask(k)), j) <==> j < k || BitAt(u, j)
    {
      OrBit(u, LowMask(k), j);
      LowMaskBit(k, j);
    }
  }

  function Masked(u: Word, k: nat): (r: Word)
    requires k < 64
    ensures forall j :: 0 <= j < 64 ==> (BitAt(r, j) <==> j < k || BitAt(u, j))
  {
    MaskedBits(u, k);
    Or(u, LowMask(k))
  }

  lemma AllOnes(k: nat)
    requires k < 64
    ensures BitAt(ALL_ONES, k)
  {
    PowersAreWords();
    LowMaskBit(64, k);
  }

  function TrailingZerosFrom(u: Word, k: nat): (r: nat)
    requires k <= 64
    ensures k <= r <= 64
    ensures r < 64 ==> BitAt(u, r)
    ensures forall j :: k <= j < r ==> !BitAt(u, j)
    decreases 64 - k
  {
    if k == 64 || BitAt(u, k) then k else TrailingZerosFrom(u, k + 1)
  }

  lemma FlipBits(u: Word)
    ensures Pow2(64) == WORD_LIMIT
    ensures forall j :: 0 <= j < 64 ==> (BitAt(Flip(u, 64), j) <==> !BitAt(u, j))
  {
    PowersAreWords();
    forall j | 0 <= j < 64
      ensures BitAt(Flip(u, 64), j) <==> !BitAt(u, j)
    {
      FlipBit(u, 64, j);
    }
  }

  /** `bits.TrailingZeros64(^word)`: the lowest clear bit, if there is one. */
  function FirstClear(u: Word): (r: nat)
    ensures u != ALL_ONES ==> r < 64 && !BitAt(u, r)
    ensures forall j :: 0 <= j < r < 64 ==> BitAt(u, j)
  {
    FlipBits(u);
    var r := TrailingZerosFrom(Flip(u, 64), 0);
    if r == 64 then NoBits(Flip(u, 64), 64); r else r
  }
}
