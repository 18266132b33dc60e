/** Facts about products and Euclidean division that the codecs share. */
module Arith {
  lemma QuotientNonneg(a: nat, b: nat)
    requires b > 0
    ensures a / b >= 0
  {}

  lemma OneMoreRow(n: int, width: int)
    ensures (n + 1) * width == n * width + width
  {}

  lemma {:induction false} ProductGrows(x: int, y: int, n: nat)
    requires x < y
    ensures x * n + n <= y * n
    decreases y - x
  {
    if y == x + 1 {
      OneMoreRow(x, n);
    } else {
      ProductGrows(x, y - 1, n);
      OneMoreRow(y - 1, n);
    }
  }

  lemma QuotientAtMost(a: nat, b: nat)
    requires b > 0
    ensures 0 <= a / b <= a
  {
    assert a == b * (a / b) + a % b;
    ProductGrowsEqual(1, b, a / b);
  }

  lemma QuotientUnique(a: int, b: int, q: int, r: int, n: nat)
    requires a * n + b == q * n + r && 0 <= b < n && 0 <= r < n
    ensures a == q && b == r
  {
    if a > q { ProductGrows(q, a, n); }
    if a < q { ProductGrows(a, q, n); }
  }

  lemma DivModUnique(q: nat, r: nat, n: nat)
    requires r < n
    ensures (q * n + r) / n == q && (q * n + r) % n == r
  {
    QuotientOf(q * n + r, q, r, n);
  }

  lemma ProductGrowsEqual(x: int, y: int, n: nat)
    requires x <= y
    ensures x * n <= y * n
  {
    if x < y { ProductGrows(x, y, n); }
  }

  lemma Regroup(q: int, a: int, b: int, m: nat, p: nat)
    requires 0 <= b && a * p + b < m * p
    ensures a < m
    ensures (q * m + a) * p + b == q * (m * p) + (a * p + b)
  {
    if a >= m { ProductGrowsEqual(m, a, p); }
    assert (q * m + a) * p == (q * m) * p + a * p;
    assert (q * m) * p == q * (m * p);
  }

  lemma QuotientOf(v: nat, q: int, r: int, n: nat)
    requires v == q * n + r && 0 <= r < n
    ensures v / n == q && v % n == r
  {
    assert v == v / n * n + v % n;
    QuotientUnique(v / n, v % n, q, r, n);
  }

  /** Cutting a number at `n == m * p` and then at `p` is cutting it at `p` and its quotient at `m`. */
  lemma ModSplit(v: nat, m: nat, p: nat, n: nat)
    requires n == m * p && n > 0 && m > 0 && p > 0
    ensures v % n / p == v / p % m && v % n % p == v % p
  {
    ModSplitParts(v, m, p, n, v / n, v % n / p, v % n % p);
  }

  lemma ModSplitParts(v: nat, m: nat, p: nat, n: nat, q: nat, a: nat, b: nat)
    requires n == m * p && m > 0 && p > 0
    requires v == q * n + (a * p + b) && b < p && a * p + b < n
    ensures a == v / p % m && b == v % p
  {
    Regroup(q, a, b, m, p);
    QuotientOf(v, q * m + a, b, p);
    DivModUnique(q, a, m);
  }

  /** Reducing modulo a multiple of `p` keeps what lies below `p`. */
  lemma WrapKeepsLow(x: nat, q: nat, r: nat, p: nat, m: nat, n: nat)
    requires n == m * p && m > 0 && r < p && x == q * p + r
    requires n > 0
    ensures x % n % p == r
  {
    ModSplit(x, m, p, n);
    QuotientOf(x, q, r, p);
  }
}
