/** Bitwise operations on machine words, as functions on natural numbers. */
module Bits {
  import opened Common

  /** The width of a word. */
  const BITS: nat := 64

  function Bit(n: nat, k: nat): bool {
    if k == 0 then n % 2 == 1 else Bit(n / 2, k - 1)
  }

  function And(a: nat, b: nat): nat {
    if a == 0 || b == 0 then 0 else 2 * And(a / 2, b / 2) + (a % 2) * (b % 2)
  }

  function Or(a: nat, b: nat): nat {
    if a == 0 then b else if b == 0 then a else 2 * Or(a / 2, b / 2) + Max(a % 2, b % 2)
  }

  function Xor(a: nat, b: nat): nat
    decreases a + b
  {
    if a == 0 then b else if b == 0 then a else 2 * Xor(a / 2, b / 2) + (a + b) % 2
  }

  /** `a & !b`. */
  function AndNot(a: nat, b: nat): nat {
    if a == 0 || b == 0 then a else 2 * AndNot(a / 2, b / 2) + (a % 2) * (1 - b % 2)
  }

  /** `wrapping_sub(1)`. */
  function Pred(n: nat): nat {
    if n == 0 then Pow2(BITS) - 1 else n - 1
  }

  /** `trailing_zeros`, of a word that is not zero. */
  function Trailing(n: nat): (k: nat)
    requires n > 0
    ensures Bit(n, k) && forall j | 0 <= j < k :: !Bit(n, j)
  {
    if n % 2 == 1 then 0 else 1 + Trailing(n / 2)
  }

  function LowestBit(cur: nat): nat { Xor(cur, And(cur, Pred(cur))) }

  lemma {:induction false} AndSelf(n: nat)
    ensures And(n, n) == n
  {
    if n > 0 {
      AndSelf(n / 2);
    }
  }

  lemma {:induction false} XorSelf(n: nat)
    ensures Xor(n, n) == 0
  {
    if n > 0 {
      XorSelf(n / 2);
    }
  }

  lemma {:induction false} LowestBitOdd(n: nat)
    requires n % 2 == 1
    ensures LowestBit(n) == 1
  {
    if n > 1 {
      AndPredOdd(n);
      XorPredOdd(n);
    }
  }

  lemma {:induction false} AndPredOdd(n: nat)
    requires n % 2 == 1
    ensures And(n, n - 1) == n - 1
  {
    AndSelf(n / 2);
    assert (n - 1) / 2 == n / 2;
  }

  lemma {:induction false} XorPredOdd(n: nat)
    requires n % 2 == 1
    ensures Xor(n, n - 1) == 1
  {
    XorSelf(n / 2);
    assert (n - 1) / 2 == n / 2;
  }

  lemma {:induction false} XorDouble(a: nat, b: nat)
    ensures Xor(2 * a, 2 * b) == 2 * Xor(a, b)
  {
    assert (2 * a) / 2 == a && (2 * b) / 2 == b;
  }

  lemma {:induction false} LowestBitEven(m: nat)
    requires m > 0
    ensures LowestBit(2 * m) == 2 * LowestBit(m)
  {
    assert And(2 * m, 2 * m - 1) == 2 * And(m, m - 1) by {
      assert (2 * m) / 2 == m && (2 * m - 1) / 2 == m - 1;
    }
    XorDouble(m, And(m, m - 1));
  }

  /** `cur ^ (cur & (cur - 1))` is the lowest set bit of `cur`, and zero only for zero. */
  lemma {:induction false} LowestBitIs(cur: nat)
    ensures cur == 0 ==> LowestBit(cur) == 0
    ensures cur > 0 ==> LowestBit(cur) == Pow2(Trailing(cur))
  {
    if cur % 2 == 1 {
      LowestBitOdd(cur);
    } else if cur > 0 {
      LowestBitIs(cur / 2);
      LowestBitEven(cur / 2);
    }
  }

  lemma {:induction false} TrailingPow(k: nat)
    ensures Trailing(Pow2(k)) == k
  {
    if k > 0 {
      TrailingPow(k - 1);
    }
  }

  lemma {:induction false} BitZero(k: nat)
    ensures !Bit(0, k)
  {
    if k > 0 {
      BitZero(k - 1);
    }
  }

  lemma {:induction false} BitPow(k: nat, j: nat)
    ensures Bit(Pow2(k), j) <==> j == k
  {
    if j > 0 && k > 0 {
      BitPow(k - 1, j - 1);
    } else if j > 0 {
      BitZero(j - 1);
    }
  }

  lemma {:induction false} BitAndNot(a: nat, b: nat, j: nat)
    ensures Bit(AndNot(a, b), j) <==> Bit(a, j) && !Bit(b, j)
    decreases j
  {
    if a == 0 || b == 0 {
      BitZero(j);
    } else if j > 0 {
      BitAndNot(a / 2, b / 2, j - 1);
      assert AndNot(a, b) / 2 == AndNot(a / 2, b / 2);
    }
  }

  lemma {:induction false} BitOr(a: nat, b: nat, j: nat)
    ensures Bit(Or(a, b), j) <==> Bit(a, j) || Bit(b, j)
    decreases j
  {
    if a == 0 || b == 0 {
      BitZero(j);
    } else if j > 0 {
      BitOr(a / 2, b / 2, j - 1);
      assert Or(a, b) / 2 == Or(a / 2, b / 2);
    }
  }

  lemma {:induction false} BitAnd(a: nat, k: nat)
    ensures And(a, Pow2(k)) != 0 <==> Bit(a, k)
  {
    if a == 0 {
      BitZero(k);
    } else if k > 0 {
      BitAnd(a / 2, k - 1);
    }
  }

  lemma {:induction false} TrailingBound(n: nat, width: nat)
    requires 0 < n < Pow2(width)
    ensures Trailing(n) < width
  {
    if n % 2 == 0 {
      TrailingBound(n / 2, width - 1);
    }
  }

  lemma {:induction false} AndNotBound(a: nat, b: nat)
    ensures AndNot(a, b) <= a
  {
    if a != 0 && b != 0 {
      AndNotBound(a / 2, b / 2);
    }
  }

  lemma {:induction false} OrBound(a: nat, b: nat, width: nat)
    requires a < Pow2(width) && b < Pow2(width)
    ensures Or(a, b) < Pow2(width)
  {
    if a != 0 && b != 0 {
      OrBound(a / 2, b / 2, width - 1);
    }
  }

  lemma {:induction false} PowBound(k: nat, width: nat)
    requires k < width
    ensures Pow2(k) < Pow2(width)
  {
    if k > 0 {
      PowBound(k - 1, width - 1);
    }
  }

  /** Masking off the low bits rounds down to a multiple of a power of two. */
  lemma {:induction false} MaskRoundsDown(n: nat, k: nat)
    ensures AndNot(n, Pow2(k) - 1) == n - n % Pow2(k)
  {
    if k == 0 {
      assert Pow2(0) == 1;
    } else {
      MaskRoundsDown(n / 2, k - 1);
      HalfMod(n, Pow2(k - 1));
      assert (Pow2(k) - 1) / 2 == Pow2(k - 1) - 1;
    }
  }

  lemma HalfMod(n: nat, p: nat)
    requires p > 0
    ensures n % (2 * p) == 2 * (n / 2 % p) + n % 2
  {
    DivModTwoStage(n, 2, p);
  }

  /** The bits of a word's complement. */
  lemma {:induction false} BitComplement(m: nat, width: nat, j: nat)
    requires m < Pow2(width) && j < width
    ensures Bit(Pow2(width) - 1 - m, j) <==> !Bit(m, j)
  {
    if j > 0 {
      BitComplement(m / 2, width - 1, j - 1);
      assert (Pow2(width) - 1 - m) / 2 == Pow2(width - 1) - 1 - m / 2;
    }
  }

  /** A word that is not all ones has a clear bit. */
  lemma {:induction false} ClearBitExists(n: nat, width: nat) returns (j: nat)
    requires n < Pow2(width) - 1
    ensures j < width && !Bit(n, j)
  {
    j := 0;
    if n % 2 == 1 {
      j := ClearBitExists(n / 2, width - 1);
      j := j + 1;
    }
  }

  lemma {:induction false} AllOnes(width: nat, j: nat)
    requires j < width
    ensures Bit(Pow2(width) - 1, j)
  {
    BitZero(j);
    BitComplement(0, width, j);
  }
}
