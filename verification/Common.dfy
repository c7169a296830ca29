/** Definitions shared by the models: bytes, powers of two, and sequence splicing. */
module Common {

  datatype Option<+T> = None | Some(value: T)

  newtype byte = x: int | 0 <= x < 256

  const U32_LIMIT: nat := 0x1_0000_0000
  const U64_LIMIT: nat := 0x1_0000_0000_0000_0000

  function Min(a: int, b: int): int { if a < b then a else b }

  function Max(a: int, b: int): int { if a < b then b else a }

  /** `n.div_ceil(d)`. */
  function CeilDiv(n: nat, d: nat): nat
    requires d > 0
  {
    (n + d - 1) / d
  }

  /** `1 << n`. */
  function Pow2(n: nat): (r: nat)
    ensures r > 0
  {
    if n == 0 then 1 else 2 * Pow2(n - 1)
  }

  lemma {:induction false} Pow2Add(a: nat, b: nat)
    ensures Pow2(a + b) == Pow2(a) * Pow2(b)
  {
    if a == 0 {
      assert Pow2(0) == 1;
    } else {
      Pow2Add(a - 1, b);
      assert Pow2(a + b) == 2 * Pow2(a - 1 + b);
      assert 2 * (Pow2(a - 1) * Pow2(b)) == (2 * Pow2(a - 1)) * Pow2(b);
    }
  }

  lemma DivMod(n: nat, d: nat)
    requires d > 0
    ensures n == n / d * d + n % d && 0 <= n % d < d && 0 <= n / d
  {
  }

  /** Quotient and remainder are determined by the division identity. */
  lemma DivModUnique(n: int, d: int, q: int, r: int)
    requires d > 0 && n == q * d + r && 0 <= r < d
    ensures n / d == q && n % d == r
  {
    var q' := n / d;
    assert n == q' * d + n % d;
    assert (q - q') * d == n % d - r;
    assert (q' - q) * d == r - n % d;
    if q > q' {
      MulGrows(q - q', d);
    } else if q < q' {
      MulGrows(q' - q, d);
    }
  }

  lemma MulGrows(k: int, d: int)
    requires k >= 1 && d >= 0
    ensures k * d >= d
  {
    assert k * d == (k - 1) * d + d;
    MulNonNeg(k - 1, d);
  }

  lemma MulNonNeg(a: int, b: int)
    requires a >= 0 && b >= 0
    ensures a * b >= 0
  {
  }

  lemma MulAssoc(a: int, b: int, c: int)
    ensures a * b * c == a * (b * c)
  {
  }

  lemma MulAdd(a: int, b: int, d: int)
    ensures (a + b) * d == a * d + b * d
  {
  }

  lemma MulOrder(a: int, b: int, d: nat)
    requires a <= b
    ensures a * d <= b * d
  {
    MulNonNeg(b - a, d);
    assert (b - a) * d == b * d - a * d;
  }

  /** `CeilDiv(n, d)` blocks of `d` bytes are just enough for `n` bytes. */
  lemma CeilDivCovers(n: nat, d: nat)
    requires d > 0
    ensures n <= CeilDiv(n, d) * d < n + d
  {
    var q := (n + d - 1) / d;
    assert n + d - 1 == q * d + (n + d - 1) % d;
  }

  /** The blocks needed for `n` bytes fit in any whole number of blocks that holds `n` bytes. */
  lemma CeilDivFits(n: nat, d: nat, size: nat)
    requires d > 0 && size % d == 0 && n <= size
    ensures CeilDiv(n, d) * d <= size
  {
    var q, k := CeilDiv(n, d), size / d;
    assert size == k * d;
    assert q <= k by {
      CeilDivCovers(n, d);
      assert (q - 1) * d == q * d - d;
      if q > k { MulOrder(k, q - 1, d); }
    }
    MulOrder(q, k, d);
  }

  lemma DivMonotone(a: nat, b: nat, d: nat)
    requires d > 0 && a <= b
    ensures 0 <= a / d <= b / d
  {
    assert b == b / d * d + b % d && a == a / d * d + a % d;
    assert (a / d - b / d) * d == a / d * d - b / d * d;
    if a / d > b / d {
      MulGrows(a / d - b / d, d);
    }
  }

  /** `n / (a * b)` and `n % (a * b)` in two stages. */
  lemma DivModTwoStage(n: nat, a: nat, b: nat)
    requires a > 0 && b > 0
    ensures a * b > 0
    ensures n / (a * b) == n / a / b
    ensures n % (a * b) == n / a % b * a + n % a
  {
    var p, o := n / a, n % a;
    var q, r := p / b, p % b;
    assert p == q * b + r;
    assert n == p * a + o;
    assert (q * b + r) * a == q * (a * b) + r * a;
    assert (r + 1) * a <= b * a by { MulNonNeg(b - r - 1, a); assert (b - r - 1) * a == b * a - (r + 1) * a; }
    assert (r + 1) * a == r * a + a;
    MulNonNeg(r, a);
    MulGrows(b, a);
    assert b * a == a * b;
    DivModUnique(n, a * b, q, r * a + o);
  }

  /** `after` is `before` with the elements from `at` on overwritten by `t`. */
  ghost predicate Patched<T>(before: seq<T>, after: seq<T>, at: nat, t: seq<T>) {
    && |after| == |before|
    && forall i | 0 <= i < |after| :: after[i] == if at <= i < at + |t| then t[i - at] else before[i]
  }

  /** `s` with the elements from `at` on overwritten by `t`. */
  function Splice<T>(s: seq<T>, at: nat, t: seq<T>): (r: seq<T>)
    requires at + |t| <= |s|
    ensures Patched(s, r, at, t)
  {
    s[..at] + t + s[at + |t|..]
  }

  /** The size of a set after one element comes, goes or stays. */
  lemma SizeAfter(a: set<nat>, b: set<nat>, x: nat, member: bool)
    requires (x in b <==> member) && forall y | y != x :: y in a <==> y in b
    ensures |b| == |a| + (if member then 1 else 0) - (if x in a then 1 else 0)
  {
    assert b - {x} == a - {x};
    assert b == if member then (a - {x}) + {x} else a - {x};
    assert a == if x in a then (a - {x}) + {x} else a - {x};
  }
}
