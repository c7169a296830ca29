/**
 * Radix tree keys cut into digits of `L` bits: the arithmetic behind
 * `subkey`, `is_too_large` and `key_height` of src/util/rtree.rs.
 */
module RadixKeys {
  import opened Common

  /** The key with its `h` lowest digits dropped, in base `b`. */
  function Shift(key: nat, h: nat, b: nat): (r: nat)
    requires b > 0
  {
    if h == 0 then key else Shift(key, h - 1, b) / b
  }

  /** `(key >> (height * L)) % (1 << L)`. */
  function Subkey(key: nat, height: nat, bits: nat): (r: nat)
    ensures r == Shift(key, height, Pow2(bits)) % Pow2(bits)
    ensures r < Pow2(bits)
  {
    ShiftIsDiv(key, height, bits);
    key / Pow2(height * bits) % Pow2(bits)
  }

  lemma {:induction false} ShiftIsDiv(key: nat, h: nat, bits: nat)
    ensures 0 <= h * bits
    ensures Shift(key, h, Pow2(bits)) == key / Pow2(h * bits)
  {
    if h == 0 {
      assert Pow2(0) == 1;
    } else {
      ShiftIsDiv(key, h - 1, bits);
      assert h * bits == (h - 1) * bits + bits;
      Pow2Add((h - 1) * bits, bits);
      DivModTwoStage(key, Pow2((h - 1) * bits), Pow2(bits));
    }
  }

  /** The number of bits up to the highest one set: the type's width less the leading zeroes. */
  function KeyBits(key: nat): nat {
    if key == 0 then 0 else 1 + KeyBits(key / 2)
  }

  lemma {:induction false} KeyBitsBound(key: nat, n: nat)
    ensures KeyBits(key) > n <==> key >= Pow2(n)
  {
    if n > 0 && key > 0 {
      KeyBitsBound(key / 2, n - 1);
    }
  }

  predicate IsTooLarge(key: nat, height: nat, bits: nat) {
    KeyBits(key) > height * bits
  }

  function KeyHeight(key: nat, bits: nat): nat
    requires bits > 0
  {
    Max(CeilDiv(KeyBits(key), bits), 1)
  }

  lemma DivZero(n: nat, d: nat)
    requires d > 0
    ensures n / d == 0 <==> n < d
    ensures n / d >= 0
  {
    if n < d {
      DivModUnique(n, d, 0, n);
    } else {
      DivMonotone(d, n, d);
      DivModUnique(d, d, 1, 0);
    }
  }

  /** A key is too large for a height exactly when digits remain above it. */
  lemma TooLargeShift(key: nat, height: nat, bits: nat)
    ensures IsTooLarge(key, height, bits) <==> Shift(key, height, Pow2(bits)) != 0
  {
    ShiftIsDiv(key, height, bits);
    KeyBitsBound(key, height * bits);
    DivZero(key, Pow2(height * bits));
  }

  /** `KeyHeight` is enough for its key, and more than any height that is not. */
  lemma KeyHeightEnough(key: nat, bits: nat)
    requires bits > 0
    ensures Shift(key, KeyHeight(key, bits), Pow2(bits)) == 0
  {
    var n, h := KeyBits(key), KeyHeight(key, bits);
    assert n + bits - 1 == CeilDiv(n, bits) * bits + (n + bits - 1) % bits;
    MulGrows(h, bits);
    assert n <= h * bits;
    TooLargeShift(key, h, bits);
  }

  lemma KeyHeightLeast(key: nat, bits: nat, m: nat)
    requires bits > 0 && IsTooLarge(key, m, bits)
    ensures m < KeyHeight(key, bits)
  {
    TooLargeShift(key, m, bits);
    KeyHeightEnough(key, bits);
    if m >= KeyHeight(key, bits) {
      ShiftZeroUp(key, KeyHeight(key, bits), m, Pow2(bits));
    }
  }

  /** The height of a key is used to its last level. */
  lemma KeyHeightTight(key: nat, bits: nat)
    requires bits > 0 && KeyHeight(key, bits) > 1
    ensures Shift(key, KeyHeight(key, bits) - 1, Pow2(bits)) != 0
  {
    var h := KeyHeight(key, bits);
    CeilDivCovers(KeyBits(key), bits);
    MulAdd(h - 1, 1, bits);
    TooLargeShift(key, h - 1, bits);
  }

  /** A digit and the digits above it, put back together. */
  lemma ShiftJoin(key: nat, h: nat, b: nat)
    requires b > 0
    ensures Shift(key, h + 1, b) * b + Shift(key, h, b) % b == Shift(key, h, b)
    ensures 0 <= Shift(key, h, b) % b < b
  {
  }

  /** Once no digits remain, none remain further up. */
  lemma {:induction false} ShiftZeroUp(key: nat, h: nat, m: nat, b: nat)
    requires b > 0 && h <= m && Shift(key, h, b) == 0
    ensures Shift(key, m, b) == 0
    decreases m
  {
    if h < m {
      ShiftZeroUp(key, h, m - 1, b);
      DivZero(0, b);
    }
  }
}
