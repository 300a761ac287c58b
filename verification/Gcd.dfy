// Divisibility, and the greatest common divisor of a row of integers.

module Gcd {
  import opened Arithmetic

  function Abs(n: int): nat { if n < 0 then -n else n }

  ghost predicate Divides(d: int, n: int) {
    exists k :: n == d * k
  }

  lemma DividesMultiple(d: int, k: int, n: int)
    requires n == d * k
    ensures Divides(d, n)
  {
  }

  lemma DividesCombination(d: int, m: int, n: int, p: int, q: int)
    requires Divides(d, m) && Divides(d, n)
    ensures Divides(d, m * p + n * q)
  {
    var j: int :| m == d * j;
    var k: int :| n == d * k;
    assert m * p + n * q == d * (j * p + k * q) by {
      assert d * (j * p + k * q) == d * j * p + d * k * q;
    }
  }

  lemma DividesAbs(d: int, n: int)
    ensures Divides(d, n) <==> Divides(d, Abs(n))
  {
    if Divides(d, n) {
      DividesCombination(d, n, n, -1, 0);
    }
    if Divides(d, Abs(n)) {
      DividesCombination(d, Abs(n), Abs(n), -1, 0);
    }
  }

  lemma DividesTransitive(d: int, m: int, n: int)
    requires Divides(d, m) && Divides(m, n)
    ensures Divides(d, n)
  {
    var k: int :| n == m * k;
    DividesCombination(d, m, m, k, 0);
  }

  lemma DivisorBounded(d: int, n: int)
    requires d > 0 && n > 0 && Divides(d, n)
    ensures d <= n
  {
    var k: int :| n == d * k;
    Monotone(d, 0, k);
    Monotone(d, k - 1, 0);
  }

  lemma MutualDivisorsEqual(d: int, n: int)
    requires d > 0 && n > 0 && Divides(d, n) && Divides(n, d)
    ensures d == n
  {
    DivisorBounded(d, n);
    DivisorBounded(n, d);
  }

  // ----- two numbers -----

  function Gcd(a: nat, b: nat): nat
    decreases b
  {
    if b == 0 then a else Gcd(b, a % b)
  }

  lemma {:induction false} GcdDivides(a: nat, b: nat)
    ensures Divides(Gcd(a, b), a) && Divides(Gcd(a, b), b)
    decreases b
  {
    if b == 0 {
      DividesMultiple(a, 1, a);
      DividesMultiple(a, 0, 0);
    } else {
      GcdDivides(b, a % b);
      DividesCombination(Gcd(a, b), b, a % b, a / b, 1);
      assert b * (a / b) + (a % b) * 1 == a;
    }
  }

  lemma {:induction false} GcdGreatest(d: int, a: nat, b: nat)
    requires Divides(d, a) && Divides(d, b)
    ensures Divides(d, Gcd(a, b))
    decreases b
  {
    if b != 0 {
      DividesCombination(d, a, b, 1, -(a / b));
      assert a * 1 + b * -(a / b) == a % b;
      GcdGreatest(d, b, a % b);
    }
  }

  lemma GcdZero(a: nat, b: nat)
    ensures Gcd(a, b) == 0 <==> a == 0 && b == 0
  {
    GcdDivides(a, b);
    if Gcd(a, b) == 0 {
      var j: int :| a == Gcd(a, b) * j;
      var k: int :| b == Gcd(a, b) * k;
    }
  }

  // ----- a row -----

  type Row = seq<int>

  ghost predicate DividesRow(d: int, s: Row) {
    forall k | 0 <= k < |s| :: Divides(d, s[k])
  }

  predicate IsZeroRow(s: Row) {
    forall k | 0 <= k < |s| :: s[k] == 0
  }

  /** The gcd of the first n entries; zero when they are all zero. */
  function PrefixGcd(s: Row, n: nat): nat
    requires n <= |s|
  {
    if n == 0 then 0 else Gcd(PrefixGcd(s, n - 1), Abs(s[n - 1]))
  }

  lemma {:induction false} PrefixGcdDivides(s: Row, n: nat, k: nat)
    requires k < n <= |s|
    ensures Divides(PrefixGcd(s, n), s[k])
  {
    GcdDivides(PrefixGcd(s, n - 1), Abs(s[n - 1]));
    if k == n - 1 {
      DividesAbs(PrefixGcd(s, n), s[k]);
    } else {
      PrefixGcdDivides(s, n - 1, k);
      DividesTransitive(PrefixGcd(s, n), PrefixGcd(s, n - 1), s[k]);
    }
  }

  lemma {:induction false} PrefixGcdGreatest(d: int, s: Row, n: nat)
    requires n <= |s| && DividesRow(d, s)
    ensures Divides(d, PrefixGcd(s, n))
  {
    if n == 0 {
      DividesMultiple(d, 0, 0);
    } else {
      PrefixGcdGreatest(d, s, n - 1);
      DividesAbs(d, s[n - 1]);
      GcdGreatest(d, PrefixGcd(s, n - 1), Abs(s[n - 1]));
    }
  }

  lemma {:induction false} PrefixGcdZero(s: Row, n: nat)
    requires n <= |s|
    ensures PrefixGcd(s, n) == 0 <==> forall k | 0 <= k < n :: s[k] == 0
  {
    if n > 0 {
      PrefixGcdZero(s, n - 1);
      GcdZero(PrefixGcd(s, n - 1), Abs(s[n - 1]));
    }
  }

  /** What Vector_Gcd returns: the gcd of the entries, or one for a zero row. */
  function RowGcd(s: Row): int {
    if PrefixGcd(s, |s|) == 0 then 1 else PrefixGcd(s, |s|)
  }

  /** RowGcd is a positive common divisor, and every other one divides it. */
  lemma RowGcdSpec(s: Row)
    ensures RowGcd(s) > 0 && DividesRow(RowGcd(s), s)
    ensures forall d | DividesRow(d, s) && !IsZeroRow(s) :: Divides(d, RowGcd(s))
    ensures IsZeroRow(s) ==> RowGcd(s) == 1
  {
    PrefixGcdZero(s, |s|);
    forall k | 0 <= k < |s|
      ensures Divides(RowGcd(s), s[k])
    {
      if IsZeroRow(s) {
        DividesMultiple(1, s[k], s[k]);
      } else {
        PrefixGcdDivides(s, |s|, k);
      }
    }
    forall d | DividesRow(d, s) && !IsZeroRow(s)
      ensures Divides(d, RowGcd(s))
    {
      PrefixGcdGreatest(d, s, |s|);
    }
  }

  lemma RowGcdUnique(s: Row, g: int)
    requires g > 0 && DividesRow(g, s) && !IsZeroRow(s)
    requires forall d | DividesRow(d, s) :: Divides(d, g)
    ensures RowGcd(s) == g
  {
    RowGcdSpec(s);
    MutualDivisorsEqual(g, RowGcd(s));
  }

  // ----- dividing a row by its gcd -----

  /** Integer division as C does it, towards zero. */
  function TruncDiv(n: int, d: int): int
    requires d > 0
  {
    if n >= 0 then n / d else -((-n) / d)
  }

  lemma ExactQuotient(n: int, d: int, k: int)
    requires d > 0 && n == d * k
    ensures TruncDiv(n, d) == k
  {
    if n >= 0 {
      RemainderUnique(d, k, 0, n / d, n % d);
    } else {
      assert -n == d * -k;
      RemainderUnique(d, -k, 0, -n / d, -n % d);
    }
  }

  lemma ExactDivision(n: int, d: int)
    requires d > 0 && Divides(d, n)
    ensures n == d * TruncDiv(n, d)
  {
    var k: int :| n == d * k;
    ExactQuotient(n, d, k);
  }

  function DivideRow(s: Row, d: int): Row
    requires d > 0
  {
    seq(|s|, k requires 0 <= k < |s| => TruncDiv(s[k], d))
  }

  lemma DivideByOne(s: Row)
    ensures DivideRow(s, 1) == s
  {
    forall k | 0 <= k < |s|
      ensures TruncDiv(s[k], 1) == s[k]
    {
      ExactQuotient(s[k], 1, s[k]);
    }
  }

  /** The row divided by its gcd. */
  function Primitive(s: Row): Row {
    RowGcdPositive(s);
    DivideRow(s, RowGcd(s))
  }

  lemma RowGcdPositive(s: Row)
    ensures RowGcd(s) > 0
  {
  }

  lemma PrimitiveEntries(s: Row)
    ensures |Primitive(s)| == |s|
    ensures forall k | 0 <= k < |s| :: s[k] == RowGcd(s) * Primitive(s)[k]
  {
    RowGcdSpec(s);
    forall k | 0 <= k < |s|
      ensures s[k] == RowGcd(s) * Primitive(s)[k]
    {
      ExactDivision(s[k], RowGcd(s));
    }
  }

  lemma ScaledDivisor(s: Row, p: Row, g: int, h: int)
    requires |p| == |s| && forall k | 0 <= k < |s| :: s[k] == g * p[k]
    requires DividesRow(h, p)
    ensures DividesRow(g * h, s)
  {
    forall k | 0 <= k < |s|
      ensures Divides(g * h, s[k])
    {
      var q: int :| p[k] == h * q;
      assert g * (h * q) == (g * h) * q;
      DividesMultiple(g * h, q, s[k]);
    }
  }

  lemma OneIfNoLarger(g: int, h: int)
    requires g > 0 && h > 0 && g * h <= g
    ensures h == 1
  {
    Monotone(g, 1, h);
  }

  lemma ProductPositive(g: int, h: int)
    requires g > 0 && h > 0
    ensures g * h > 0
  {
  }

  /** The gcd of the quotients is one. */
  lemma PrimitiveGcd(s: Row)
    ensures RowGcd(Primitive(s)) == 1
  {
    var p, g := Primitive(s), RowGcd(s);
    PrimitiveEntries(s);
    RowGcdSpec(p);
    if IsZeroRow(s) {
      forall k | 0 <= k < |p|
        ensures p[k] == 0
      {
        assert s[k] == g * p[k];
      }
    } else {
      var h := RowGcd(p);
      RowGcdSpec(s);
      hide *;
      ScaledDivisor(s, p, g, h);
      ProductPositive(g, h);
      DivisorBounded(g * h, g);
      OneIfNoLarger(g, h);
    }
  }
}
