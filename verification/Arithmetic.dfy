// Products and quotients of naturals.

module Arithmetic {

  lemma Below(i: int, j: int, v: int)
    requires i <= j && v >= 0
    ensures i * v <= j * v
  {
    assert (j - i) * v >= 0;
    assert j * v == i * v + (j - i) * v;
  }

  lemma Monotone(d: int, i: int, j: int)
    requires d > 0
    ensures i < j ==> d * i + d <= d * j
    ensures i >= j ==> d * i >= d * j
  {
    if i < j {
      Distribute(i, 1, d);
      Below(i + 1, j, d);
    } else {
      Below(j, i, d);
    }
  }

  lemma Distribute(i: int, j: int, v: int)
    ensures (i + j) * v == i * v + j * v
  {
  }

  lemma Associate(a: int, b: int, c: int)
    ensures a * (b * c) == (a * b) * c
  {
  }

  ghost predicate IsQuotient(t: nat, b: nat, q: nat) {
    q * b <= t < q * b + b
  }

  lemma Quotient(t: nat, b: nat)
    requires b > 0
    ensures IsQuotient(t, b, t / b)
  {
    assert t == t / b * b + t % b;
  }

  lemma QuotientUnique(t: nat, b: nat, q: nat, r: nat)
    requires IsQuotient(t, b, q) && IsQuotient(t, b, r)
    ensures q == r
  {
    Distribute(q, 1, b);
    Distribute(r, 1, b);
    if q < r {
      Below(q + 1, r, b);
    } else if r < q {
      Below(r + 1, q, b);
    }
  }

  /** The quotient is the largest number of times that b goes into t. */
  lemma QuotientLargest(t: nat, b: nat, q: nat, k: nat)
    requires IsQuotient(t, b, q)
    ensures k <= q <==> k * b <= t
  {
    Distribute(q, 1, b);
    if k <= q {
      Below(k, q, b);
    } else {
      Below(q + 1, k, b);
    }
  }

  lemma RemainderUnique(m: nat, p: int, r: nat, q: int, s: nat)
    requires r < m && s < m && p * m + r == q * m + s
    ensures p == q && r == s
  {
    Distribute(p, 1, m);
    Distribute(q, 1, m);
    if p < q {
      Below(p + 1, q, m);
    } else if q < p {
      Below(q + 1, p, m);
    }
  }

  lemma ModuloUnique(a: int, m: nat, q: int, s: nat)
    requires s < m && a == q * m + s
    ensures a % m == s
  {
    assert a == a / m * m + a % m;
    RemainderUnique(m, a / m, a % m, q, s);
  }

  // ----- the floor of a real quotient -----

  lemma RealQuotient(t: nat, b: nat, d: nat, q: real)
    requires b > 0 && IsQuotient(t, b, d) && q == t as real / b as real
    ensures q.Floor == d && d as real <= q
  {
    var x, y := t as real, b as real;
    assert (d * b) as real == d as real * y;
    assert q == x / y;
    QuotientBounds(x, y, d as real, q);
  }

  lemma QuotientBounds(x: real, y: real, d: real, q: real)
    requires y > 0.0 && q == x / y && d * y <= x < d * y + y
    ensures d <= q < d + 1.0
  {
    assert q * y == x;
    assert (d + 1.0) * y == d * y + y;
    RealBelow(d, q, y);
    RealBelow(d + 1.0, q, y);
  }

  lemma RealBelow(p: real, q: real, b: real)
    requires b > 0.0
    ensures p <= q <==> p * b <= q * b
  {
    if p <= q {
      assert (q - p) * b >= 0.0;
    } else {
      assert (p - q) * b > 0.0;
    }
  }
}
