/** Bits by position: what `|`, `&`, `^`, the masks `2^K - 2^k`, the lowest
    and the highest set bit look like one bit at a time, and that a number is
    fixed by its bits. These are the facts the lowest-common-ancestor queries
    rest on. */
module BitPositions {
  import opened NatBits
  import opened CInt

  /** The position of the lowest set bit of x > 0. */
  function Height(x: nat): (r: nat)
    requires x > 0
    ensures LowBit(x) == Pow2(r)
    decreases x
  {
    if x % 2 == 1 then 0 else Height(x / 2) + 1
  }

  /** a shifted right by m places. */
  function Shift(a: nat, m: nat): nat
    decreases m
  {
    if m == 0 then a else Shift(a / 2, m - 1)
  }

  lemma {:induction false} BitBinary(a: nat, j: nat)
    ensures Bit(a, j) == 0 || Bit(a, j) == 1
    decreases j
  {
    if j > 0 {
      BitBinary(a / 2, j - 1);
    }
  }

  /** The bits of 2h + b are b, then the bits of h. */
  lemma HalfBits(m: nat, h: nat, b: nat, j: nat)
    requires m == 2 * h + b && b < 2
    ensures Bit(m, 0) == b && (j > 0 ==> Bit(m, j) == Bit(h, j - 1))
  {
    assert m / 2 == h && m % 2 == b;
  }

  lemma {:induction false} OrBits(a: nat, b: nat, j: nat)
    ensures Bit(Or(a, b), j) == 1 <==> Bit(a, j) == 1 || Bit(b, j) == 1
    decreases j
  {
    OrStep(a, b);
    HalfBits(Or(a, b), Or(a / 2, b / 2), if a % 2 == 1 || b % 2 == 1 then 1 else 0, j);
    if j > 0 {
      OrBits(a / 2, b / 2, j - 1);
    }
  }

  lemma {:induction false} AndBits(a: nat, b: nat, j: nat)
    ensures Bit(And(a, b), j) == 1 <==> Bit(a, j) == 1 && Bit(b, j) == 1
    decreases j
  {
    AndStep(a, b);
    HalfBits(And(a, b), And(a / 2, b / 2), (a % 2) * (b % 2), j);
    if j > 0 {
      AndBits(a / 2, b / 2, j - 1);
    }
  }

  lemma XorStep(a: nat, b: nat)
    ensures Xor(a, b) == 2 * Xor(a / 2, b / 2) + (a % 2 + b % 2) % 2
  {
  }

  lemma {:induction false} XorBits(a: nat, b: nat, j: nat)
    ensures Bit(Xor(a, b), j) == 1 <==> Bit(a, j) != Bit(b, j)
    decreases j
  {
    XorStep(a, b);
    HalfBits(Xor(a, b), Xor(a / 2, b / 2), (a % 2 + b % 2) % 2, j);
    if j > 0 {
      XorBits(a / 2, b / 2, j - 1);
    } else {
      BitBinary(a, 0);
      BitBinary(b, 0);
    }
  }

  /** 2^k has exactly bit k set. */
  lemma {:induction false} Pow2Bits(k: nat, j: nat)
    ensures Bit(Pow2(k), j) == 1 <==> j == k
    decreases k
  {
    if k > 0 && j > 0 {
      Pow2Bits(k - 1, j - 1);
    } else if k > 0 {
      assert Pow2(k) % 2 == 0;
    } else if j > 0 {
      BitsAbove(1, 1, j);
    }
  }

  /** A number below 2^m has no bit at m or above. */
  lemma {:induction false} BitsAbove(a: nat, m: nat, j: nat)
    requires a < Pow2(m) && j >= m
    ensures Bit(a, j) == 0
    decreases j
  {
    if j > 0 {
      if m > 0 {
        BitsAbove(a / 2, m - 1, j - 1);
      } else {
        BitsAbove(0, 0, j - 1);
      }
    }
  }

  /** Two numbers with the same bits are equal. */
  lemma {:induction false} BitsDetermine(a: nat, b: nat)
    requires forall j: nat :: Bit(a, j) == 1 <==> Bit(b, j) == 1
    ensures a == b
    decreases a + b
  {
    BitBinary(a, 0);
    BitBinary(b, 0);
    assert Bit(a, 0) == 1 <==> Bit(b, 0) == 1;
    if a + b > 0 {
      forall j: nat
        ensures Bit(a / 2, j) == 1 <==> Bit(b / 2, j) == 1
      {
        assert Bit(a, j + 1) == 1 <==> Bit(b, j + 1) == 1;
      }
      BitsDetermine(a / 2, b / 2);
    }
  }

  lemma {:induction false} ShiftBits(a: nat, m: nat, j: nat)
    ensures Bit(Shift(a, m), j) == Bit(a, j + m)
    decreases m
  {
    if m > 0 {
      ShiftBits(a / 2, m - 1, j);
    }
  }

  /** Numbers that shift right by m places to the same value agree at m and above. */
  lemma SameShift(a: nat, b: nat, m: nat)
    requires Shift(a, m) == Shift(b, m)
    ensures forall i: nat :: i >= m ==> Bit(a, i) == Bit(b, i)
  {
    forall i: nat | i >= m
      ensures Bit(a, i) == Bit(b, i)
    {
      var k: nat := i - m;
      ShiftBits(a, m, k);
      ShiftBits(b, m, k);
      assert k + m == i;
    }
  }

  /** A number in [q 2^m, (q + 1) 2^m) shifts right by m places to q. */
  lemma {:induction false} ShiftOfRange(c: nat, q: nat, m: nat)
    requires q * Pow2(m) <= c < (q + 1) * Pow2(m)
    ensures Shift(c, m) == q
    decreases m
  {
    if m > 0 {
      var p := Pow2(m - 1);
      MulTwice(q, p);
      MulTwice(q + 1, p);
      ShiftOfRange(c / 2, q, m - 1);
    }
  }

  /** A positive multiple of 2^k has its lowest set bit at k or above. */
  lemma {:induction false} LowBitOfMultiple(q: nat, k: nat)
    requires q >= 1
    ensures LowBit(q * Pow2(k)) >= Pow2(k)
    decreases k
  {
    if k == 0 {
      var h := Height(q);
    } else {
      var p := Pow2(k - 1);
      MulTwice(q, p);
      LowBitOfMultiple(q, k - 1);
      LowBitDouble(q * p);
    }
  }

  /** The lowest set bit of x sits at Height(x): nothing is set below it. */
  lemma {:induction false} HeightBits(x: nat)
    requires x > 0
    ensures Bit(x, Height(x)) == 1 && forall i: nat :: 0 <= i < Height(x) ==> Bit(x, i) == 0
    decreases x
  {
    if x % 2 == 0 {
      HeightBits(x / 2);
      forall i: nat | 0 < i < Height(x)
        ensures Bit(x, i) == 0
      {
        assert Bit(x, i) == Bit(x / 2, i - 1);
      }
    }
  }

  /** Conversely, a set bit j with nothing set below it is the lowest. */
  lemma HeightAt(x: nat, j: nat)
    requires Bit(x, j) == 1 && forall i: nat :: 0 <= i < j ==> Bit(x, i) == 0
    ensures x > 0 && Height(x) == j && LowBit(x) == Pow2(j)
  {
    if x == 0 {
      BitsAbove(0, 0, j);
    }
    HeightBits(x);
  }

  /** 2^k <= v < 2^(k+1) sets bit k and nothing above it. */
  lemma {:induction false} TopBitAt(v: nat, k: nat)
    requires Pow2(k) <= v < Pow2(k + 1)
    ensures Bit(v, k) == 1 && forall i: nat :: i > k ==> Bit(v, i) == 0
    decreases k
  {
    forall i: nat | i > k
      ensures Bit(v, i) == 0
    {
      BitsAbove(v, k + 1, i);
    }
    if k > 0 {
      TopBitAt(v / 2, k - 1);
    }
  }

  lemma {:induction false} Pow2Injective(a: nat, b: nat)
    requires Pow2(a) == Pow2(b)
    ensures a == b
  {
    if a < b {
      Pow2Below(a, b);
    } else if b < a {
      Pow2Below(b, a);
    }
  }

  /** The mask 2^K - 2^k has exactly the bits k .. K-1. */
  lemma {:induction false} MaskBits(bigK: nat, k: nat, j: nat)
    requires k <= bigK
    ensures Pow2(k) <= Pow2(bigK)
    ensures Bit(Pow2(bigK) - Pow2(k), j) == 1 <==> k <= j < bigK
    decreases bigK
  {
    if k < bigK {
      Pow2Below(k, bigK);
    }
    if bigK > 0 {
      var jj := if j > 0 then j - 1 else 0;
      assert Pow2(bigK) == 2 * Pow2(bigK - 1);
      if k > 0 {
        MaskBits(bigK - 1, k - 1, jj);
        assert Pow2(k) == 2 * Pow2(k - 1);
        HalfBits(Pow2(bigK) - Pow2(k), Pow2(bigK - 1) - Pow2(k - 1), 0, j);
      } else {
        MaskBits(bigK - 1, 0, jj);
        HalfBits(Pow2(bigK) - Pow2(k), Pow2(bigK - 1) - 1, 1, j);
      }
    } else {
      BitsAbove(0, 0, j);
    }
  }

  /** On non-negative `int`s, `&` is And. */
  lemma AndOfNonNegatives(a: int, b: int)
    requires 0 <= a < Two31 && 0 <= b < Two31
    ensures BitAnd(a, b) == And(a, b) && 0 <= BitAnd(a, b) < Two31
  {
    BitAndOfNonNegative(a, b);
    AndAtMostMin(a, b);
  }

  /** On non-negative `int`s, `^` is Xor. */
  lemma XorOfNonNegatives(a: int, b: int)
    requires 0 <= a < Two31 && 0 <= b < Two31
    ensures BitXor(a, b) == Xor(a, b) && 0 <= BitXor(a, b) < Two31
  {
    Pow2Of32();
    XorBound(a, b, 31);
  }

  /** `a & (~h + 1)` with h = 2^k keeps exactly the bits of a at k and above. */
  lemma ClearBelow(a: int, h: int, k: nat)
    requires 0 <= a < Two31 && h == Pow2(k) && h < Two31
    ensures 0 <= BitAnd(a, Wrap(BitNot(h) + 1)) < Two31
    ensures forall j: nat :: Bit(BitAnd(a, Wrap(BitNot(h) + 1)), j) == 1 <==> Bit(a, j) == 1 && k <= j
  {
    Pow2Of32();
    NegatePositive(h);
    BitAndOfNonNegative(a, Wrap(BitNot(h) + 1));
    AndAtMostMin(a, Two32 - h);
    if k > 32 {
      Pow2Below(32, k);
    }
    forall j: nat
      ensures Bit(BitAnd(a, Wrap(BitNot(h) + 1)), j) == 1 <==> Bit(a, j) == 1 && k <= j
    {
      AndBits(a, Two32 - h, j);
      MaskBits(32, k, j);
      if j >= 32 {
        BitsAbove(a, 31, j);
      }
    }
  }

  /** `a & (h - 1)` with h = 2^k keeps exactly the bits of a below k. */
  lemma KeepBelow(a: int, h: int, k: nat)
    requires 0 <= a < Two31 && h == Pow2(k) && h < Two31
    ensures Wrap(h - 1) == h - 1 && 0 <= BitAnd(a, h - 1) < Two31
    ensures forall j: nat :: Bit(BitAnd(a, h - 1), j) == 1 <==> Bit(a, j) == 1 && j < k
  {
    AndOfNonNegatives(a, h - 1);
    forall j: nat
      ensures Bit(BitAnd(a, h - 1), j) == 1 <==> Bit(a, j) == 1 && j < k
    {
      AndBits(a, h - 1, j);
      MaskBits(k, 0, j);
    }
  }

  /** msb of a positive `int` is 2^k for its highest set bit k. */
  lemma MsbAt(v: int) returns (k: nat)
    requires 0 < v < Two31
    ensures Msb(v) == Pow2(k) && Bit(v, k) == 1 && forall i: nat :: i > k ==> Bit(v, i) == 0
  {
    MsbIsHighBit(v);
    k := IsPow2IsPow2Of(Msb(v));
    TopBitAt(v, k);
  }

  /** A number has at most one highest set bit. */
  lemma TopBitUnique(v: nat, k: nat, k2: nat)
    requires Bit(v, k) == 1 && forall i: nat :: i > k ==> Bit(v, i) == 0
    requires Bit(v, k2) == 1 && forall i: nat :: i > k2 ==> Bit(v, i) == 0
    ensures k == k2
  {
  }

  /** A set bit with nothing set above it is the one msb reports. */
  lemma MsbIs(v: int, k: nat)
    requires 0 <= v < Two31 && Bit(v, k) == 1 && forall i: nat :: i > k ==> Bit(v, i) == 0
    ensures Msb(v) == Pow2(k)
  {
    if v == 0 {
      BitsAbove(0, 0, k);
    }
    var k' := MsbAt(v);
    TopBitUnique(v, k, k');
  }

  /** lsb of a non-negative `int` whose lowest set bit is j is 2^j. */
  lemma LsbIs(v: int, j: nat)
    requires 0 <= v < Two31 && Bit(v, j) == 1 && forall i: nat :: 0 <= i < j ==> Bit(v, i) == 0
    ensures Lsb(v) == Pow2(j)
  {
    LsbIsLowBit(v);
    HeightAt(v, j);
  }
}
