// Candidate bitmasks of the logic solver (include/bitmap.h, src/bitmap.c).
//
// bitmap_t is an unsigned 64-bit word; bit k set means "value k+1 is still
// possible". A word is modelled here by its value, a natural number below
// 2^64, and every bitwise operator the solvers use (|, &, ~, <<, >>) is
// defined bit by bit: bit 0 is n % 2, the remaining bits are those of n / 2.
module Bitmaps {

  /** Number of bits of a bitmap (sizeof(bitmap_t) * CHAR_BIT). */
  const WIDTH: nat := 64

  /** 2^64: no bitmap reaches it. */
  const TWO64: nat := 0x1_0000_0000_0000_0000

  /** bitmap_t: an unsigned 64-bit word. */
  type Bitmap = n: nat | n < TWO64

  /** 2^k. */
  function Pow2(k: nat): (r: nat)
    ensures r >= 1
  {
    if k == 0 then 1 else 2 * Pow2(k - 1)
  }

  lemma Pow2Width()
    ensures Pow2(WIDTH) == TWO64
  {
    assert Pow2(1) == 2;
    Pow2Add(1, 1);
    assert Pow2(2) == 4;
    Pow2Add(2, 2);
    assert Pow2(4) == 16;
    Pow2Add(4, 4);
    assert Pow2(8) == 0x100;
    Pow2Add(8, 8);
    assert Pow2(16) == 0x1_0000;
    Pow2Add(16, 16);
    assert Pow2(32) == 0x1_0000_0000;
    Pow2Add(32, 32);
  }

  lemma {:induction false} Pow2Add(a: nat, b: nat)
    ensures Pow2(a + b) == Pow2(a) * Pow2(b)
    decreases b
  {
    if b > 0 { Pow2Add(a, b - 1); }
  }

  /** Bit p of n is set: (n >> p) & 1. */
  predicate IsSet(n: nat, p: nat)
  {
    if p == 0 then n % 2 == 1 else IsSet(n / 2, p - 1)
  }

  /** a | b. */
  function Or(a: nat, b: nat): nat
    decreases a + b
  {
    if a == 0 && b == 0 then 0
    else 2 * Or(a / 2, b / 2) + (if a % 2 == 1 || b % 2 == 1 then 1 else 0)
  }

  /** a & b. */
  function And(a: nat, b: nat): nat
    decreases a
  {
    if a == 0 || b == 0 then 0
    else 2 * And(a / 2, b / 2) + (if a % 2 == 1 && b % 2 == 1 then 1 else 0)
  }

  /** ~a on a word of w bits. */
  function Complement(a: nat, w: nat): nat
  {
    if w == 0 then 0 else 2 * Complement(a / 2, w - 1) + (1 - a % 2)
  }

  /** ((bitmap_t) 1) << p. */
  function Mask(p: nat): nat
    requires p < WIDTH
  {
    Pow2(p)
  }

  /** set_bit: n | (1 << p). */
  function SetBit(n: Bitmap, p: nat): (r: Bitmap)
    requires p < WIDTH
    ensures IsSet(r, p)
  {
    IsSetOr(n, Mask(p), p);
    IsSetPow2(p, p);
    Pow2Monotone(p + 1, WIDTH);
    Pow2Width();
    OrRange(n, Mask(p), WIDTH);
    Or(n, Mask(p))
  }

  /** unset_bit: n & ~(1 << p). */
  function UnsetBit(n: Bitmap, p: nat): (r: Bitmap)
    requires p < WIDTH
    ensures !IsSet(r, p)
    ensures r <= n
  {
    IsSetAnd(n, Complement(Mask(p), WIDTH), p);
    IsSetComplement(Mask(p), WIDTH, p);
    IsSetPow2(p, p);
    AndBound(n, Complement(Mask(p), WIDTH));
    And(n, Complement(Mask(p), WIDTH))
  }

  /** a & ~b, the operation the naked-subset rule applies. */
  function AndNot(a: Bitmap, b: Bitmap): (r: Bitmap)
    ensures r <= a
  {
    AndBound(a, Complement(b, WIDTH));
    And(a, Complement(b, WIDTH))
  }

  /** m only has bits that b also has. */
  predicate SubMask(m: Bitmap, b: Bitmap)
  {
    forall q :: 0 <= q < WIDTH && IsSet(m, q) ==> IsSet(b, q)
  }

  // ---- bits of the operators

  lemma {:induction false} IsSetZero(q: nat)
    ensures !IsSet(0, q)
  {
    if q > 0 { IsSetZero(q - 1); }
  }

  /** Bit q of a | b is set exactly when it is set in a or in b. */
  lemma {:induction false} IsSetOr(a: nat, b: nat, q: nat)
    ensures IsSet(Or(a, b), q) == (IsSet(a, q) || IsSet(b, q))
    decreases q
  {
    if a == 0 && b == 0 {
      IsSetZero(q);
    } else if q > 0 {
      IsSetOr(a / 2, b / 2, q - 1);
    }
  }

  /** Bit q of a & b is set exactly when it is set in both. */
  lemma {:induction false} IsSetAnd(a: nat, b: nat, q: nat)
    ensures IsSet(And(a, b), q) == (IsSet(a, q) && IsSet(b, q))
    decreases q
  {
    if a == 0 || b == 0 {
      IsSetZero(q);
    } else if q > 0 {
      IsSetAnd(a / 2, b / 2, q - 1);
    }
  }

  /** Bit q of ~a on w bits is the opposite of bit q of a, below w. */
  lemma {:induction false} IsSetComplement(a: nat, w: nat, q: nat)
    ensures IsSet(Complement(a, w), q) == (q < w && !IsSet(a, q))
    decreases w
  {
    if w == 0 {
      IsSetZero(q);
    } else if q > 0 {
      IsSetComplement(a / 2, w - 1, q - 1);
    }
  }

  /** 1 << p has bit p set and no other. */
  lemma {:induction false} IsSetPow2(p: nat, q: nat)
    ensures IsSet(Pow2(p), q) == (p == q)
    decreases p
  {
    if q == 0 {
    } else if p == 0 {
      IsSetZero(q - 1);
    } else {
      IsSetPow2(p - 1, q - 1);
    }
  }

  /** a & ~b has the bits of a that b lacks. */
  lemma IsSetAndNot(a: Bitmap, b: Bitmap, q: nat)
    requires q < WIDTH
    ensures IsSet(AndNot(a, b), q) == (IsSet(a, q) && !IsSet(b, q))
  {
    IsSetAnd(a, Complement(b, WIDTH), q);
    IsSetComplement(b, WIDTH, q);
  }

  /** Setting bit p leaves every other bit as it was. */
  lemma SetBitOther(n: Bitmap, p: nat, q: nat)
    requires p < WIDTH && p != q
    ensures IsSet(SetBit(n, p), q) == IsSet(n, q)
  {
    IsSetOr(n, Mask(p), q);
    IsSetPow2(p, q);
  }

  /** Clearing bit p leaves every other bit as it was. */
  lemma UnsetBitOther(n: Bitmap, p: nat, q: nat)
    requires p < WIDTH && q < WIDTH && p != q
    ensures IsSet(UnsetBit(n, p), q) == IsSet(n, q)
  {
    IsSetAnd(n, Complement(Mask(p), WIDTH), q);
    IsSetComplement(Mask(p), WIDTH, q);
    IsSetPow2(p, q);
  }

  // ---- ranges

  lemma {:induction false} Pow2Monotone(a: nat, b: nat)
    requires a <= b
    ensures Pow2(a) <= Pow2(b)
    decreases b
  {
    if a < b { Pow2Monotone(a, b - 1); }
  }

  lemma {:induction false} OrRange(a: nat, b: nat, w: nat)
    requires a < Pow2(w) && b < Pow2(w)
    ensures Or(a, b) < Pow2(w)
    decreases w
  {
    if !(a == 0 && b == 0) && w > 0 {
      OrRange(a / 2, b / 2, w - 1);
    }
  }

  lemma {:induction false} AndBound(a: nat, b: nat)
    ensures And(a, b) <= a
    decreases a
  {
    if a != 0 && b != 0 { AndBound(a / 2, b / 2); }
  }

  /** No bit at or above w is set in a number below 2^w. */
  lemma {:induction false} HighBitsClear(n: nat, w: nat, q: nat)
    requires n < Pow2(w) && w <= q
    ensures !IsSet(n, q)
    decreases w
  {
    if w == 0 {
      IsSetZero(q);
    } else {
      HighBitsClear(n / 2, w - 1, q - 1);
    }
  }

  /** Two numbers below 2^w with the same w low bits are equal. */
  lemma {:induction false} BitsEqual(a: nat, b: nat, w: nat)
    requires a < Pow2(w) && b < Pow2(w)
    requires forall q :: 0 <= q < w ==> IsSet(a, q) == IsSet(b, q)
    ensures a == b
    decreases w
  {
    if w > 0 {
      assert IsSet(a, 0) == IsSet(b, 0);
      forall q | 0 <= q < w - 1
        ensures IsSet(a / 2, q) == IsSet(b / 2, q)
      {
        assert IsSet(a, q + 1) == IsSet(b, q + 1);
      }
      BitsEqual(a / 2, b / 2, w - 1);
    }
  }

  /** Two bitmaps with the same bits are equal. */
  lemma SameBits(a: Bitmap, b: Bitmap)
    requires forall q :: 0 <= q < WIDTH ==> IsSet(a, q) == IsSet(b, q)
    ensures a == b
  {
    Pow2Width();
    BitsEqual(a, b, WIDTH);
  }

  /** set_bit and unset_bit are idempotent and undo one another. */
  lemma SetUnsetLaws(n: Bitmap, p: nat)
    requires p < WIDTH
    ensures SetBit(SetBit(n, p), p) == SetBit(n, p)
    ensures UnsetBit(UnsetBit(n, p), p) == UnsetBit(n, p)
    ensures UnsetBit(SetBit(n, p), p) == UnsetBit(n, p)
    ensures SetBit(UnsetBit(n, p), p) == SetBit(n, p)
    ensures IsSet(n, p) ==> SetBit(n, p) == n
    ensures !IsSet(n, p) ==> UnsetBit(n, p) == n
  {
    forall q | 0 <= q < WIDTH && q != p
      ensures IsSet(SetBit(SetBit(n, p), p), q) == IsSet(SetBit(n, p), q)
      ensures IsSet(UnsetBit(UnsetBit(n, p), p), q) == IsSet(UnsetBit(n, p), q)
      ensures IsSet(UnsetBit(SetBit(n, p), p), q) == IsSet(UnsetBit(n, p), q)
      ensures IsSet(SetBit(UnsetBit(n, p), p), q) == IsSet(SetBit(n, p), q)
      ensures IsSet(SetBit(n, p), q) == IsSet(n, q)
      ensures IsSet(UnsetBit(n, p), q) == IsSet(n, q)
    {
      SetBitOther(n, p, q);
      SetBitOther(SetBit(n, p), p, q);
      SetBitOther(UnsetBit(n, p), p, q);
      UnsetBitOther(n, p, q);
      UnsetBitOther(UnsetBit(n, p), p, q);
      UnsetBitOther(SetBit(n, p), p, q);
    }
    SameBits(SetBit(SetBit(n, p), p), SetBit(n, p));
    SameBits(UnsetBit(UnsetBit(n, p), p), UnsetBit(n, p));
    SameBits(UnsetBit(SetBit(n, p), p), UnsetBit(n, p));
    SameBits(SetBit(UnsetBit(n, p), p), SetBit(n, p));
    if IsSet(n, p) { SameBits(SetBit(n, p), n); }
    if !IsSet(n, p) { SameBits(UnsetBit(n, p), n); }
  }

  // ---- sub-masks

  /** Clearing a bit yields a sub-mask. */
  lemma UnsetBitSubMask(n: Bitmap, p: nat)
    requires p < WIDTH
    ensures SubMask(UnsetBit(n, p), n)
  {
    forall q | 0 <= q < WIDTH && IsSet(UnsetBit(n, p), q)
      ensures IsSet(n, q)
    {
      if q != p { UnsetBitOther(n, p, q); }
    }
  }

  /** a & ~b is a sub-mask of a. */
  lemma AndNotSubMask(a: Bitmap, b: Bitmap)
    ensures SubMask(AndNot(a, b), a)
  {
    forall q | 0 <= q < WIDTH && IsSet(AndNot(a, b), q)
      ensures IsSet(a, q)
    {
      IsSetAndNot(a, b, q);
    }
  }

  /** A sub-mask of the empty mask is empty. */
  lemma SubMaskOfZero(m: Bitmap)
    requires SubMask(m, 0)
    ensures m == 0
  {
    forall q | 0 <= q < WIDTH
      ensures IsSet(m, q) == IsSet(0, q)
    {
      IsSetZero(q);
    }
    SameBits(m, 0);
  }

  // ---- population count

  /** Number of set bits among positions 0 .. k-1. */
  function CountBelow(n: nat, k: nat): nat
  {
    if k == 0 then 0 else CountBelow(n, k - 1) + (if IsSet(n, k - 1) then 1 else 0)
  }

  /** Reference population count: the number of set bits of n. */
  function PopCount(n: Bitmap): nat
  {
    CountBelow(n, WIDTH)
  }

  lemma {:induction false} CountBelowShift(m: nat, k: nat)
    ensures CountBelow(m, k + 1) == m % 2 + CountBelow(m / 2, k)
  {
    if k > 0 { CountBelowShift(m, k - 1); }
  }

  /** The step the portable loop of get_set_bits_number relies on. */
  lemma PopCountShift(m: Bitmap)
    ensures PopCount(m) == m % 2 + PopCount(m / 2)
  {
    CountBelowShift(m, WIDTH - 1);
    Pow2Width();
    HighBitsClear(m / 2, WIDTH - 1, WIDTH - 1);
  }

  lemma {:induction false} CountBelowZero(k: nat)
    ensures CountBelow(0, k) == 0
  {
    if k > 0 {
      CountBelowZero(k - 1);
      IsSetZero(k - 1);
    }
  }

  /**
   * get_set_bits_number, the portable loop: add the low bit, shift right,
   * until nothing is left.
   */
  method GetSetBitsNumber(n: Bitmap) returns (count: nat)
    ensures count == PopCount(n)
  {
    var m: Bitmap := n;
    count := 0;
    while m != 0
      invariant count + PopCount(m) == PopCount(n)
    {
      PopCountShift(m);
      count := count + m % 2;
      m := m / 2;
    }
    CountBelowZero(WIDTH);
  }

  lemma {:induction false} CountBelowBound(n: nat, k: nat)
    ensures CountBelow(n, k) <= k
  {
    if k > 0 { CountBelowBound(n, k - 1); }
  }

  lemma {:induction false} CountBelowOfSet(n: nat, p: nat, k: nat)
    requires p < k && IsSet(n, p)
    ensures CountBelow(n, k) >= 1
  {
    if k - 1 > p { CountBelowOfSet(n, p, k - 1); }
  }

  /** A bitmap has no set bit exactly when it is zero. */
  lemma PopCountZero(n: Bitmap)
    ensures PopCount(n) == 0 <==> n == 0
  {
    if n == 0 {
      CountBelowZero(WIDTH);
    } else {
      RightmostInWord(n);
      CountBelowOfSet(n, RightmostSetBit(n) - 1, WIDTH);
    }
  }

  /** A bitmap has at most WIDTH set bits. */
  lemma PopCountBound(n: Bitmap)
    ensures PopCount(n) <= WIDTH
  {
    CountBelowBound(n, WIDTH);
  }

  lemma {:induction false} CountBelowUnset(n: Bitmap, p: nat, k: nat)
    requires p < WIDTH && k <= WIDTH && IsSet(n, p)
    ensures CountBelow(UnsetBit(n, p), k) + (if p < k then 1 else 0) == CountBelow(n, k)
  {
    if k > 0 {
      CountBelowUnset(n, p, k - 1);
      if k - 1 != p { UnsetBitOther(n, p, k - 1); }
    }
  }

  lemma {:induction false} CountBelowSet(n: Bitmap, p: nat, k: nat)
    requires p < WIDTH && !IsSet(n, p)
    ensures CountBelow(SetBit(n, p), k) == CountBelow(n, k) + (if p < k then 1 else 0)
  {
    if k > 0 {
      CountBelowSet(n, p, k - 1);
      if k - 1 != p { SetBitOther(n, p, k - 1); }
    }
  }

  /** Setting a clear bit adds exactly one to the population count. */
  lemma PopCountSetBit(n: Bitmap, p: nat)
    requires p < WIDTH && !IsSet(n, p)
    ensures PopCount(SetBit(n, p)) == PopCount(n) + 1
  {
    CountBelowSet(n, p, WIDTH);
  }

  /** Clearing a set bit removes exactly one from the population count. */
  lemma PopCountUnsetBit(n: Bitmap, p: nat)
    requires p < WIDTH && IsSet(n, p)
    ensures PopCount(UnsetBit(n, p)) == PopCount(n) - 1
  {
    CountBelowUnset(n, p, WIDTH);
  }

  lemma {:induction false} CountBelowSub(m: Bitmap, b: Bitmap, k: nat)
    requires k <= WIDTH && SubMask(m, b)
    ensures CountBelow(m, k) <= CountBelow(b, k)
  {
    if k > 0 { CountBelowSub(m, b, k - 1); }
  }

  /** A sub-mask has no more set bits than the mask it is under. */
  lemma PopCountSubMask(m: Bitmap, b: Bitmap)
    requires SubMask(m, b)
    ensures PopCount(m) <= PopCount(b)
  {
    CountBelowSub(m, b, WIDTH);
  }

  // ---- rightmost set bit

  /**
   * get_rightmost_set_bit: 1 plus the index of the least-significant set bit,
   * and 0 for a zero bitmap, as include/bitmap.h documents.
   */
  function RightmostSetBit(n: nat): (r: nat)
    ensures n == 0 <==> r == 0
    ensures n != 0 ==> IsSet(n, r - 1)
    ensures forall q :: 0 <= q < r - 1 ==> !IsSet(n, q)
  {
    if n == 0 then 0
    else if n % 2 == 1 then 1
    else 1 + RightmostSetBit(n / 2)
  }

  /** The rightmost set bit of a bitmap lies inside the word. */
  lemma RightmostInWord(n: Bitmap)
    ensures RightmostSetBit(n) <= WIDTH
  {
    if n != 0 && RightmostSetBit(n) > WIDTH {
      Pow2Width();
      HighBitsClear(n, WIDTH, RightmostSetBit(n) - 1);
    }
  }

  /**
   * Clearing the rightmost set bit of a nonzero bitmap lowers its population
   * count by one: the hypothesis loop of the logic solver terminates.
   */
  lemma PopCountUnsetRightmost(n: Bitmap)
    requires n != 0
    ensures RightmostSetBit(n) <= WIDTH
    ensures PopCount(UnsetBit(n, RightmostSetBit(n) - 1)) == PopCount(n) - 1
  {
    RightmostInWord(n);
    PopCountUnsetBit(n, RightmostSetBit(n) - 1);
  }

  // ---- the full candidate mask

  /** The mask with exactly bits 0 .. k-1 set, built one set_bit at a time. */
  function LowMask(k: nat): (r: Bitmap)
    requires k <= WIDTH
  {
    if k == 0 then 0 else SetBit(LowMask(k - 1), k - 1)
  }

  /** Bit q of LowMask(k) is set exactly when q < k. */
  lemma {:induction false} LowMaskBit(k: nat, q: nat)
    requires k <= WIDTH && q < WIDTH
    ensures IsSet(LowMask(k), q) <==> q < k
  {
    if k == 0 {
      IsSetZero(q);
    } else if q != k - 1 {
      LowMaskBit(k - 1, q);
      SetBitOther(LowMask(k - 1), k - 1, q);
    }
  }

  /** LowMask(k) has exactly k set bits. */
  lemma {:induction false} PopCountLowMask(k: nat)
    requires k <= WIDTH
    ensures PopCount(LowMask(k)) == k
  {
    if k == 0 {
      PopCountZero(0);
    } else {
      PopCountLowMask(k - 1);
      LowMaskBit(k - 1, k - 1);
      PopCountSetBit(LowMask(k - 1), k - 1);
    }
  }

  /** A bit of a sub-mask of LowMask(k) lies below k. */
  lemma SubMaskOfLow(m: Bitmap, k: nat, q: nat)
    requires k <= WIDTH && q < WIDTH
    requires SubMask(m, LowMask(k)) && IsSet(m, q)
    ensures q < k
  {
    LowMaskBit(k, q);
  }

  /** The value named by the rightmost bit of a nonzero sub-mask of LowMask(k) is in 1..k. */
  lemma RightmostInRange(m: Bitmap, k: nat)
    requires k <= WIDTH && m != 0 && SubMask(m, LowMask(k))
    ensures 1 <= RightmostSetBit(m) <= k
  {
    RightmostInWord(m);
    SubMaskOfLow(m, k, RightmostSetBit(m) - 1);
  }
}
