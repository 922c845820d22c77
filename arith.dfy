/** Facts about Euclidean division that the index formulas of the parameter
    space rest on. */
module Arith {

  /** Multiplying both sides of `a <= b` by a non-negative factor keeps the order. */
  lemma MulLe(a: int, b: int, c: int)
    requires a <= b && 0 <= c
    ensures a * c <= b * c
  {
    assert b * c - a * c == (b - a) * c;
  }

  /** Quotient and remainder are unique: `k == q * m + r` with `0 <= r < m`
      determines `k / m` and `k % m`. */
  lemma DivModOf(k: int, q: int, m: int, r: int)
    requires 0 < m && 0 <= r < m && k == q * m + r
    ensures k / m == q && k % m == r
  {
    var q', r' := k / m, k % m;
    assert q' * m + r' == q * m + r;
    if q' < q {
      MulLe(q' + 1, q, m);
      assert false;
    } else if q < q' {
      MulLe(q + 1, q', m);
      assert false;
    }
  }

  /** An index below `a * m` has a quotient below `a`. */
  lemma DivLt(k: int, a: int, m: int)
    requires 0 < m && 0 <= k < a * m
    ensures 0 <= k / m < a
  {
    if a <= k / m {
      MulLe(a, k / m, m);
      assert false;
    }
  }

  /** Integer division by a positive divisor is monotone. */
  lemma DivMonotone(i: int, j: int, m: int)
    requires 0 < m && i <= j
    ensures i / m <= j / m
  {
    if j / m < i / m {
      MulLe(j / m + 1, i / m, m);
      assert false;
    }
  }

  /** Dividing twice by `n` is dividing once by `n * n`. */
  lemma DivDiv(k: int, n: int)
    requires 0 < n && 0 <= k
    ensures k / n / n == k / (n * n)
  {
    var a, r := k / n, k % n;
    var b, s := a / n, a % n;
    assert a * n == b * (n * n) + s * n by {
      assert a == b * n + s;
      assert (b * n + s) * n == b * (n * n) + s * n;
    }
    MulLe(s, n - 1, n);
    assert (n - 1) * n == n * n - n;
    DivModOf(k, b, n * n, s * n + r);
  }

  /** A base-`m` digit appended below a number under `bound` stays under `bound * m`. */
  lemma MulAddLt(h: int, q: int, m: int, bound: int)
    requires 0 <= q < m && 0 <= h < bound
    ensures h * m + q < bound * m
  {
    MulLe(h + 1, bound, m);
    assert (h + 1) * m == h * m + m;
  }

  /** The base-`n` number with digits `p`, `d`, `q` lies below `n³` and has
      those digits. */
  lemma Digits(n: int, p: int, d: int, q: int, i: int)
    requires 0 <= p < n && 0 <= d < n && 0 <= q < n && i == (p * n + d) * n + q
    ensures i < n * n * n
    ensures i / (n * n) == p && (i / n) % n == d && i % n == q
  {
    var h := p * n + d;
    MulAddLt(p, d, n, n);
    MulAddLt(h, q, n, n * n);
    DivModOf(i, h, n, q);
    DivModOf(h, p, n, d);
    DivDiv(i, n);
  }

  /** The three base-`n` digits of a number below `n³` are digits. */
  lemma DigitsBelow(n: int, i: int)
    requires 0 < n && 0 <= i < n * n * n
    ensures 0 <= i / (n * n) < n && 0 <= (i / n) % n < n && 0 <= i % n < n
  {
    DivLt(i, n, n * n);
  }
}
