/** Facts about products and quotients that the solver is not left alone with. */
module Arithmetic {

  lemma MulMonotone(x: int, y: int, p: nat)
    requires x <= y
    ensures x * p <= y * p
  {
  }

  lemma MulAtLeast(k: int, m: int)
    requires k >= 1 && m > 0
    ensures k * m >= m
  {
    assert (k - 1) * m >= 0;
  }

  lemma Distribute(a: int, b: int, m: int)
    ensures (a + b) * m == a * m + b * m
    ensures (a - b) * m == a * m - b * m
  {
  }

  lemma MulAssociative(a: int, b: int, c: int)
    ensures a * b * c == a * (b * c)
  {
  }

  /** A common positive factor can be dropped from a comparison. */
  lemma MulCancel(a: int, b: int, x: int)
    requires x > 0
    ensures a * x <= b * x <==> a <= b
    ensures a * x == b * x <==> a == b
  {
    Distribute(a, b, x);
    if a < b {
      MulAtLeast(b - a, x);
    } else if a > b {
      MulAtLeast(a - b, x);
    }
  }

  lemma SmallMultiple(k: int, m: int)
    requires m > 0 && -m < k * m < m
    ensures k == 0
  {
    if k > 0 {
      MulAtLeast(k, m);
    } else if k < 0 {
      MulAtLeast(-k, m);
    }
  }

  lemma QuotientUnique(u: int, m: int, q: int, r: int)
    requires m > 0 && u == q * m + r && 0 <= r < m
    ensures u / m == q
  {
    var q', r' := u / m, u % m;
    assert q' * m + r' == q * m + r;
    assert (q' - q) * m == r - r';
    SmallMultiple(q' - q, m);
  }

  lemma DivMod(u: int, m: int)
    requires m > 0
    ensures u == u / m * m + u % m && 0 <= u % m < m
  {
  }

  /** A quotient is the largest number whose multiple still fits. */
  lemma QuotientBound(u: int, m: int, q: int)
    requires m > 0
    ensures q <= u / m <==> q * m <= u
  {
    var q', r := u / m, u % m;
    assert u == q' * m + r;
    MulCancel(q, q', m);
    MulCancel(q, q' + 1, m);
    Distribute(q', 1, m);
  }

  lemma RemainderUnique(u: nat, m: nat, q: nat, r: nat)
    requires m > 0 && u == q * m + r && r < m
    ensures u % m == r
  {
    QuotientUnique(u, m, q, r);
  }

  /** A remainder by a product, of a number given with a remainder by the first factor. */
  lemma RemainderSplit(h: nat, p: nat, a: nat, b: nat)
    requires b > 0 && p < a
    ensures a * b > 0 && (h * a + p) % (a * b) == h % b * a + p
  {
    var q, r := h / b, h % b;
    assert h == q * b + r;
    MulAtLeast(b, a);
    assert h * a + p == q * (a * b) + (r * a + p) by {
      Distribute(q * b, r, a);
      MulAssociative(q, b, a);
    }
    assert r * a + p < a * b by {
      MulMonotone(r + 1, b, a);
      Distribute(r, 1, a);
    }
    RemainderUnique(h * a + p, a * b, q, r * a + p);
  }
}
