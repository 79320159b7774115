/** Arithmetic of the blocks lsb cuts the numbers into: with L = lsb(v),
    v - L and v + L are consecutive multiples of 2L, so every number in
    v - L .. v + L - 1 shares the bits of v above its lowest set bit. */
module LcaBlocks {
  import opened NatBits
  import opened BitPositions
  import opened LcaHeads

  lemma OddMultiple(v: int, q: int, l: int, p: int, bigQ: int)
    requires v == q * l && bigQ == q / 2 && q % 2 == 1 && p == 2 * l
    ensures v - l == bigQ * p && v + l == (bigQ + 1) * p
  {
    assert q == 2 * bigQ + 1;
    assert q * l == 2 * (bigQ * l) + l;
    assert bigQ * p == 2 * (bigQ * l);
  }

  /** With L = lsb(v), a range lo .. hi-1 holding v in which no number has a
      larger lowest set bit lies inside v - L .. v + L, since both ends have a
      larger one. */
  lemma InsideBlock(v: int, l: int, lo: int, hi: int, c: int)
    requires v > 0 && TopLsb(v, lo, hi) && lo <= c < hi && l == LowBit(v) <= v
    requires v - l > 0 ==> LowBit(v - l) > l
    requires LowBit(v + l) > l
    ensures v - l <= c < v + l
  {
    assert Rank(v) == l;
    assert c < v - l ==> Rank(v - l) <= Rank(v);
    assert c >= v + l ==> Rank(v + l) <= Rank(v);
  }

  /** With L = lsb(v) = 2^h, v - L and v + L are consecutive multiples of 2^(h+1). */
  lemma Block(v: nat) returns (bigQ: nat)
    requires v > 0
    ensures var l, p := LowBit(v), Pow2(Height(v) + 1);
      0 < l <= v && p == 2 * l && v - l == bigQ * p && v + l == (bigQ + 1) * p
  {
    var q := LowBitIsLowest(v);
    bigQ := q / 2;
    OddMultiple(v, q, LowBit(v), Pow2(Height(v) + 1), bigQ);
  }

  /** A positive multiple n of 2^m has its lowest set bit at m or above. */
  lemma MultipleAbove(n: int, bigQ: nat, m: nat)
    requires bigQ >= 1 && n == bigQ * Pow2(m)
    ensures n > 0 && LowBit(n) >= Pow2(m)
  {
    LowBitOfMultiple(bigQ, m);
  }

  /** With L = lsb(v), v - L and v + L have larger lowest set bits than v. */
  lemma Neighbours(v: nat)
    requires v > 0
    ensures LowBit(v) <= v
    ensures v - LowBit(v) > 0 ==> LowBit(v - LowBit(v)) > LowBit(v)
    ensures LowBit(v + LowBit(v)) > LowBit(v)
  {
    var bigQ := Block(v);
    MultipleAbove(v + LowBit(v), bigQ + 1, Height(v) + 1);
    if bigQ >= 1 {
      MultipleAbove(v - LowBit(v), bigQ, Height(v) + 1);
    }
  }

  /** Shifting right by m maps lo .. hi-1, lo = Q 2^m and hi = (Q + 1) 2^m, to Q. */
  lemma ShiftWithin(c: int, bigQ: nat, m: nat, lo: int, hi: int)
    requires lo == bigQ * Pow2(m) && hi == (bigQ + 1) * Pow2(m) && lo <= c < hi
    ensures c >= 0 && Shift(c, m) == bigQ
  {
    ShiftOfRange(c, bigQ, m);
  }

  /** Every number in v - L .. v + L - 1, L = lsb(v), has v's bits above v's
      lowest set bit. */
  lemma BlockShift(v: nat, c: int)
    requires v > 0 && v - LowBit(v) <= c < v + LowBit(v)
    ensures c >= 0 && Shift(c, Height(v) + 1) == Shift(v, Height(v) + 1)
  {
    var bigQ := Block(v);
    var lo, hi := v - LowBit(v), v + LowBit(v);
    ShiftWithin(c, bigQ, Height(v) + 1, lo, hi);
    ShiftWithin(v, bigQ, Height(v) + 1, lo, hi);
  }

  /** In a range lo .. hi-1 where v has the largest lowest set bit, every
      number c has a lowest set bit no larger and the same bits as v above
      v's lowest set bit. */
  lemma RangeAgrees(v: nat, lo: int, hi: int, c: int)
    requires v > 0 && TopLsb(v, lo, hi) && lo <= c < hi
    ensures LowBit(c) <= LowBit(v)
    ensures forall i: nat :: i > Height(v) ==> Bit(c, i) == Bit(v, i)
  {
    assert Rank(c) <= Rank(v);
    Neighbours(v);
    InsideBlock(v, LowBit(v), lo, hi, c);
    BlockShift(v, c);
    SameShift(c, v, Height(v) + 1);
  }
}
