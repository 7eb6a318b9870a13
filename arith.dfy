/** Index arithmetic shared by the buffer and grid layouts: the flat position
    of an element of a row-major block, and the quotient/remainder facts the
    layouts rely on. */
module Arith {

  /** Flat position of element (i, j) of a row-major block that is `width` wide. */
  function FlatIndex(i: int, j: int, width: int): int
  {
    i * width + j
  }

  /** An element inside an h x w block lands inside the block's h * w positions. */
  lemma FlatIndexBound(i: int, j: int, h: int, w: int)
    requires 0 <= i < h && 0 <= j < w
    ensures 0 <= FlatIndex(i, j, w) < h * w
  {
    assert (i + 1) * w <= h * w by { MulMonotone(i + 1, h, w); }
  }

  /** Row i of an h-row, w-wide row-major block occupies positions i * w .. i * w + w - 1. */
  lemma RowBounds(i: int, h: int, w: int)
    requires 0 <= i < h && 0 <= w
    ensures 0 <= i * w && i * w + w <= h * w
  {
    assert (i + 1) * w == i * w + w;
    MulMonotone(i + 1, h, w);
  }

  lemma MulMonotone(a: int, b: int, c: int)
    requires 0 <= a <= b && 0 <= c
    ensures 0 <= a * c <= b * c
  {
  }

  lemma MulPos(a: int, b: int)
    requires 0 < a && 0 < b
    ensures 0 < a * b
  {
  }

  /** A positive product of naturals has a positive second factor. */
  lemma PositiveFactor(a: int, b: int)
    requires 0 <= a && 0 <= b && 0 < a * b
    ensures 0 < b
  {
  }

  /** Euclidean division of a natural number by a positive one. */
  lemma DivMod(x: int, d: int)
    requires 0 <= x && 0 < d
    ensures 0 <= x / d && 0 <= x % d < d && x == (x / d) * d + x % d
  {
  }

  /** The sign of a multiple of a positive number follows the sign of the factor. */
  lemma MulSign(m: int, d: int)
    requires 0 < d
    ensures 0 <= m ==> 0 <= m * d
    ensures 1 <= m ==> d <= m * d
    ensures m <= -1 ==> m * d <= -d
  {
  }

  /** A value below n * d has a quotient by d below n. */
  lemma QuotientBound(x: int, d: int, n: int)
    requires 0 <= x && 0 < d && x < n * d
    ensures 0 <= x / d < n && 0 <= x % d < d && x == (x / d) * d + x % d
  {
    var q := x / d;
    MulSign(q - n, d);
    assert (q - n) * d == q * d - n * d;
  }

  /** Quotient and remainder are determined by any decomposition x == q * d + r with 0 <= r < d. */
  lemma DivModUnique(x: int, d: int, q: int, r: int)
    requires 0 < d && 0 <= r < d && x == q * d + r
    ensures x / d == q && x % d == r
  {
    var q', r' := x / d, x % d;
    assert x == q' * d + r';
    MulSign(q - q', d);
    assert (q - q') * d == r' - r;
  }

  /** Stepping a counter by one carries into the quotient exactly when the remainder wraps. */
  lemma DivModStep(k: nat, n: nat)
    requires 0 < n
    ensures k % n + 1 < n ==> (k + 1) % n == k % n + 1 && (k + 1) / n == k / n
    ensures k % n + 1 == n ==> (k + 1) % n == 0 && (k + 1) / n == k / n + 1
  {
    if k % n + 1 < n {
      DivModUnique(k + 1, n, k / n, k % n + 1);
    } else {
      DivModUnique(k + 1, n, k / n + 1, 0);
    }
  }

  /** Exact division of a product by a product of divisors. */
  lemma DivOfProducts(x: nat, y: nat, a: nat, b: nat)
    requires 0 < a && 0 < b && x % a == 0 && y % b == 0
    ensures (x * y) % (a * b) == 0
    ensures (x * y) / (a * b) == (x / a) * (y / b)
  {
    var p, q := x / a, y / b;
    assert x == p * a;
    assert y == q * b;
    assert x * y == (p * q) * (a * b);
    DivModUnique(x * y, a * b, p * q, 0);
  }
}
