/**
 * Nine-bit candidate masks of the Dynamic solver: digit d is bit d-1, and a
 * mask with exactly one bit set names a determined cell.
 * The JDK's Integer.bitCount and Integer.numberOfTrailingZeros are defined
 * here on nine-bit masks instead of being taken from a library.
 */
module Masks {

  type Mask = bv9

  /** The mask allowing all nine digits, `(1 << (10 - 1)) - 1`. */
  const Unconstrained: Mask := 511

  /** The single bit of digit `d`, written out digit by digit (`1 << (d - 1)`, see BitShift). */
  function Bit(d: int): Mask
    requires 1 <= d <= 9
  {
    if d == 1 then 1 else if d == 2 then 2 else if d == 3 then 4 else if d == 4 then 8
    else if d == 5 then 16 else if d == 6 then 32 else if d == 7 then 64 else if d == 8 then 128 else 256
  }

  /** Digit `d` is still a candidate of mask `m`. */
  predicate Has(m: Mask, d: int)
  {
    1 <= d <= 9 && m & Bit(d) != 0
  }

  /** Number of candidates among digits 1..n. */
  function PopBelow(m: Mask, n: int): nat
    requires 0 <= n <= 9
  {
    if n == 0 then 0 else PopBelow(m, n - 1) + (if Has(m, n) then 1 else 0)
  }

  /** Number of candidates of `m` (Integer.bitCount on a nine-bit mask). */
  function PopCount(m: Mask): nat
  {
    PopBelow(m, 9)
  }

  /** Exactly one candidate is left: the cell is determined. */
  predicate IsSingle(m: Mask)
  {
    PopCount(m) == 1
  }

  /** Smallest candidate digit at or above `d`, 10 if there is none. */
  function LowestFrom(m: Mask, d: int): int
    requires 1 <= d <= 10
    decreases 10 - d
  {
    if d == 10 then 10 else if Has(m, d) then d else LowestFrom(m, d + 1)
  }

  /** Lowest candidate digit: `numberOfTrailingZeros(m) + 1` for a non-zero mask. */
  function Lowest(m: Mask): int
  {
    LowestFrom(m, 1)
  }

  /** Every candidate of `a` is a candidate of `b`. */
  predicate SubMask(a: Mask, b: Mask)
  {
    a & b == a
  }

  /** The mask shifted right by `n` bits, as the branching loop's `mask >>= 1` leaves it. */
  function Shr(m: Mask, n: int): Mask
    requires 0 <= n <= 9
  {
    if n == 0 then m else Shr(m, n - 1) >> 1
  }

  // ---------------------------------------------------------------------------
  // Closed forms, used only to prove the lemmas below.

  lemma BitValues()
    ensures Bit(1) == 1 && Bit(2) == 2 && Bit(3) == 4 && Bit(4) == 8 && Bit(5) == 16
    ensures Bit(6) == 32 && Bit(7) == 64 && Bit(8) == 128 && Bit(9) == 256
  {
  }

  /** The table of Bit is the shift `1 << (d - 1)` of the source. */
  lemma BitShift(d: int)
    requires 1 <= d <= 9
    ensures Bit(d) == (1 as Mask) << (d - 1)
  {
    if d == 1 {} else if d == 2 {} else if d == 3 {} else if d == 4 {} else if d == 5 {}
    else if d == 6 {} else if d == 7 {} else if d == 8 {} else {}
  }

  /** The nine bit tests written out. */
  function Pop9(m: Mask): nat
  {
    (if m & 1 != 0 then 1 else 0) + (if m & 2 != 0 then 1 else 0) + (if m & 4 != 0 then 1 else 0)
    + (if m & 8 != 0 then 1 else 0) + (if m & 16 != 0 then 1 else 0) + (if m & 32 != 0 then 1 else 0)
    + (if m & 64 != 0 then 1 else 0) + (if m & 128 != 0 then 1 else 0) + (if m & 256 != 0 then 1 else 0)
  }

  lemma PopCountValue(m: Mask)
    ensures PopCount(m) == Pop9(m)
  {
    BitValues();
    assert PopBelow(m, 1) == (if m & 1 != 0 then 1 else 0);
    assert PopBelow(m, 2) == PopBelow(m, 1) + (if m & 2 != 0 then 1 else 0);
    assert PopBelow(m, 3) == PopBelow(m, 2) + (if m & 4 != 0 then 1 else 0);
    assert PopBelow(m, 4) == PopBelow(m, 3) + (if m & 8 != 0 then 1 else 0);
    assert PopBelow(m, 5) == PopBelow(m, 4) + (if m & 16 != 0 then 1 else 0);
    assert PopBelow(m, 6) == PopBelow(m, 5) + (if m & 32 != 0 then 1 else 0);
    assert PopBelow(m, 7) == PopBelow(m, 6) + (if m & 64 != 0 then 1 else 0);
    assert PopBelow(m, 8) == PopBelow(m, 7) + (if m & 128 != 0 then 1 else 0);
  }

  /** A nine-bit mask has at most nine candidates. */
  lemma PopCountBound(m: Mask)
    ensures PopCount(m) <= 9
  {
    PopCountValue(m);
  }

  lemma HasValues(m: Mask)
    ensures Has(m, 1) == (m & 1 != 0) && Has(m, 2) == (m & 2 != 0) && Has(m, 3) == (m & 4 != 0)
    ensures Has(m, 4) == (m & 8 != 0) && Has(m, 5) == (m & 16 != 0) && Has(m, 6) == (m & 32 != 0)
    ensures Has(m, 7) == (m & 64 != 0) && Has(m, 8) == (m & 128 != 0) && Has(m, 9) == (m & 256 != 0)
  {
    BitValues();
  }

  lemma LowestValue(m: Mask)
    ensures Lowest(m) ==
      if Has(m, 1) then 1 else if Has(m, 2) then 2 else if Has(m, 3) then 3
      else if Has(m, 4) then 4 else if Has(m, 5) then 5 else if Has(m, 6) then 6
      else if Has(m, 7) then 7 else if Has(m, 8) then 8 else if Has(m, 9) then 9 else 10
  {
    HasValues(m);
    assert LowestFrom(m, 9) == if Has(m, 9) then 9 else 10;
    assert LowestFrom(m, 8) == if Has(m, 8) then 8 else LowestFrom(m, 9);
    assert LowestFrom(m, 7) == if Has(m, 7) then 7 else LowestFrom(m, 8);
    assert LowestFrom(m, 6) == if Has(m, 6) then 6 else LowestFrom(m, 7);
    assert LowestFrom(m, 5) == if Has(m, 5) then 5 else LowestFrom(m, 6);
    assert LowestFrom(m, 4) == if Has(m, 4) then 4 else LowestFrom(m, 5);
    assert LowestFrom(m, 3) == if Has(m, 3) then 3 else LowestFrom(m, 4);
    assert LowestFrom(m, 2) == if Has(m, 2) then 2 else LowestFrom(m, 3);
  }

  /** Candidates of a bitwise and, and of a complement, digit by digit. */
  lemma HasAndNot(a: Mask, b: Mask, e: int)
    ensures Has(a & b, e) <==> Has(a, e) && Has(b, e)
    ensures Has(!b, e) <==> 1 <= e <= 9 && !Has(b, e)
  {
    HasValues(a); HasValues(b); HasValues(a & b); HasValues(!b);
    if e == 1 {} else if e == 2 {} else if e == 3 {} else if e == 4 {} else if e == 5 {}
    else if e == 6 {} else if e == 7 {} else if e == 8 {} else if e == 9 {}
  }

  lemma ShrValues(m: Mask)
    ensures Shr(m, 1) == m >> 1 && Shr(m, 2) == m >> 2 && Shr(m, 3) == m >> 3 && Shr(m, 4) == m >> 4
    ensures Shr(m, 5) == m >> 5 && Shr(m, 6) == m >> 6 && Shr(m, 7) == m >> 7 && Shr(m, 8) == m >> 8
    ensures Shr(m, 9) == 0
  {
    assert Shr(m, 1) == m >> 1;
    assert Shr(m, 2) == m >> 2;
    assert Shr(m, 3) == m >> 3;
    assert Shr(m, 4) == m >> 4;
    assert Shr(m, 5) == m >> 5;
    assert Shr(m, 6) == m >> 6;
    assert Shr(m, 7) == m >> 7;
    assert Shr(m, 8) == m >> 8;
  }

  // ---------------------------------------------------------------------------
  // Facts about candidates.

  /** A mask is determined by its candidates. */
  lemma MaskExtensional(a: Mask, b: Mask)
    requires forall d :: 1 <= d <= 9 ==> (Has(a, d) <==> Has(b, d))
    ensures a == b
  {
    BitValues();
    assert Has(a, 1) == Has(b, 1) && Has(a, 2) == Has(b, 2) && Has(a, 3) == Has(b, 3);
    assert Has(a, 4) == Has(b, 4) && Has(a, 5) == Has(b, 5) && Has(a, 6) == Has(b, 6);
    assert Has(a, 7) == Has(b, 7) && Has(a, 8) == Has(b, 8) && Has(a, 9) == Has(b, 9);
  }

  /** The bit of digit d holds exactly the candidate d; 511 holds all nine. */
  lemma BitHas(d: int, e: int)
    requires 1 <= d <= 9
    ensures Has(Bit(d), e) <==> e == d
    ensures Has(Unconstrained, d)
  {
    BitValues();
  }

  /** A mask has no candidate exactly when it is zero. */
  lemma EmptyMask(m: Mask)
    ensures PopCount(m) == 0 <==> m == 0
    ensures m == 0 <==> forall d :: 1 <= d <= 9 ==> !Has(m, d)
  {
    PopCountValue(m);
    HasValues(m);
  }

  /** Determined masks are exactly the single bits, and Lowest reads the digit back. */
  lemma SingleIsBit(m: Mask)
    ensures IsSingle(m) <==> 1 <= Lowest(m) <= 9 && m == Bit(Lowest(m))
  {
    PopCountValue(m);
    LowestValue(m);
    HasValues(m);
    BitValues();
  }

  lemma BitIsSingle(d: int)
    requires 1 <= d <= 9
    ensures IsSingle(Bit(d)) && Lowest(Bit(d)) == d
  {
    BitValues();
    HasValues(Bit(d));
    LowestValue(Bit(d));
    PopCountValue(Bit(d));
  }

  /** A determined mask has exactly one candidate. */
  lemma SingleHas(m: Mask, d: int)
    requires IsSingle(m)
    ensures Has(m, d) <==> d == Lowest(m)
  {
    SingleIsBit(m);
    BitHas(Lowest(m), d);
  }

  /** Clearing the bit of digit d removes exactly the candidate d. */
  lemma ClearBitHas(m: Mask, d: int, e: int)
    requires 1 <= d <= 9
    ensures Has(m & !Bit(d), e) <==> Has(m, e) && e != d
  {
    HasAndNot(m, !Bit(d), e);
    HasAndNot(m, Bit(d), e);
    BitHas(d, e);
  }

  /** Counting the candidates below n after clearing digit d. */
  lemma {:induction false} ClearBitPopBelow(m: Mask, d: int, n: int)
    requires 1 <= d <= 9 && 0 <= n <= 9
    ensures PopBelow(m & !Bit(d), n) == PopBelow(m, n) - (if d <= n && Has(m, d) then 1 else 0)
  {
    if n > 0 {
      ClearBitPopBelow(m, d, n - 1);
      ClearBitHas(m, d, n);
    }
  }

  /**
   * Clearing a candidate removes exactly that candidate, lowers the count by
   * one when it was present, and changes nothing when it was not.
   */
  lemma ClearBit(m: Mask, d: int)
    requires 1 <= d <= 9
    ensures forall e :: Has(m & !Bit(d), e) <==> Has(m, e) && e != d
    ensures PopCount(m & !Bit(d)) == PopCount(m) - (if Has(m, d) then 1 else 0)
    ensures !Has(m, d) ==> m & !Bit(d) == m
    ensures SubMask(m & !Bit(d), m)
  {
    forall e ensures Has(m & !Bit(d), e) <==> Has(m, e) && e != d {
      ClearBitHas(m, d, e);
    }
    ClearBitPopBelow(m, d, 9);
    SubMaskHas(m & !Bit(d), m);
    if !Has(m, d) {
      MaskExtensional(m & !Bit(d), m);
    }
  }

  /** SubMask is candidate inclusion. */
  lemma SubMaskHas(a: Mask, b: Mask)
    ensures SubMask(a, b) <==> forall d :: Has(a, d) ==> Has(b, d)
  {
    HasValues(a);
    HasValues(b);
    if forall d :: Has(a, d) ==> Has(b, d) {
      assert Has(a, 1) ==> Has(b, 1);
      assert Has(a, 2) ==> Has(b, 2);
      assert Has(a, 3) ==> Has(b, 3);
      assert Has(a, 4) ==> Has(b, 4);
      assert Has(a, 5) ==> Has(b, 5);
      assert Has(a, 6) ==> Has(b, 6);
      assert Has(a, 7) ==> Has(b, 7);
      assert Has(a, 8) ==> Has(b, 8);
      assert Has(a, 9) ==> Has(b, 9);
    } else {
      var d :| Has(a, d) && !Has(b, d);
      HasAndNot(a, b, d);
    }
  }

  lemma SubMaskTransitive(a: Mask, b: Mask, c: Mask)
    requires SubMask(a, b) && SubMask(b, c)
    ensures SubMask(a, c)
  {
  }

  /** Fewer candidates never means a larger count. */
  lemma SubMaskPopCount(a: Mask, b: Mask)
    requires SubMask(a, b)
    ensures PopCount(a) <= PopCount(b)
  {
    PopCountValue(a);
    PopCountValue(b);
    assert Pop9(a) <= Pop9(b);
  }

  /** Losing a candidate lowers the count. */
  lemma SubMaskStrict(a: Mask, b: Mask)
    requires SubMask(a, b) && a != b
    ensures PopCount(a) < PopCount(b)
  {
    PopCountValue(a);
    PopCountValue(b);
    assert Pop9(a) < Pop9(b);
  }

  /** A non-empty part of a determined mask is that mask. */
  lemma SubMaskOfSingle(a: Mask, b: Mask)
    requires SubMask(a, b) && IsSingle(b) && a != 0
    ensures a == b
  {
    PopCountValue(b);
  }

  /** One step of the branching loop: shifting once more, and reading bit 0. */
  lemma ShrStep(m: Mask, n: int)
    requires 0 <= n < 9
    ensures Shr(m, n) >> 1 == Shr(m, n + 1)
    ensures (1 & Shr(m, n) == 1) == Has(m, n + 1)
  {
    HasValues(m);
    ShrValues(m);
  }

  /** Once the shifted mask is zero, no higher digit is a candidate; after nine shifts it is zero. */
  lemma ShrZero(m: Mask, n: int)
    requires 0 <= n <= 9
    ensures Shr(m, n) == 0 ==> forall d :: n < d <= 9 ==> !Has(m, d)
    ensures Shr(m, 9) == 0
  {
    HasValues(m);
    ShrValues(m);
    if Shr(m, n) == 0 {
      forall d | n < d <= 9 ensures !Has(m, d) {
        if n == 0 {} else if n == 1 {} else if n == 2 {} else if n == 3 {} else if n == 4 {}
        else if n == 5 {} else if n == 6 {} else if n == 7 {} else {}
      }
    }
  }

  /** A value 0..511 converts to a mask and back unchanged. */
  lemma OfValue(x: int)
    requires 0 <= x < 512
    ensures (x as Mask) as int == x
  {
    assert x % 512 == x;
  }
}
