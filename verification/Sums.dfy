// Finite sums of reals, and matrices and vectors as total functions on their indices.

module Sums {

  type Vec = int -> real

  type Matrix = (int, int) -> real

  function Sum(n: nat, f: Vec): real {
    if n == 0 then 0.0 else Sum(n - 1, f) + f(n - 1)
  }

  lemma {:induction false} SumCong(n: nat, f: Vec, g: Vec)
    requires forall k | 0 <= k < n :: f(k) == g(k)
    ensures Sum(n, f) == Sum(n, g)
  {
    if n > 0 {
      SumCong(n - 1, f, g);
    }
  }

  lemma {:induction false} SumAdd(n: nat, f: Vec, g: Vec, h: Vec)
    requires forall k | 0 <= k < n :: h(k) == f(k) + g(k)
    ensures Sum(n, h) == Sum(n, f) + Sum(n, g)
  {
    if n > 0 {
      SumAdd(n - 1, f, g, h);
    }
  }

  lemma {:induction false} SumScale(n: nat, c: real, f: Vec, h: Vec)
    requires forall k | 0 <= k < n :: h(k) == c * f(k)
    ensures Sum(n, h) == c * Sum(n, f)
  {
    if n > 0 {
      SumScale(n - 1, c, f, h);
    }
  }

  lemma ZeroTimes(p: real)
    ensures 0.0 * p == 0.0
  {
  }

  lemma Substitute(p: real, q: real, r: real)
    requires p == q
    ensures p * r == q * r
  {
  }

  lemma Rotate(p: real, q: real, r: real)
    ensures p * (q * r) == r * (p * q)
  {
  }

  /** Terms past `m` that are zero do not count. */
  lemma {:induction false} SumTail(m: nat, n: nat, f: Vec)
    requires m <= n
    requires forall k | m <= k < n :: f(k) == 0.0
    ensures Sum(n, f) == Sum(m, f)
  {
    if m < n {
      SumTail(m, n - 1, f);
    }
  }

  /** A sum with one term that is not zero. */
  lemma {:induction false} SumSingle(n: nat, p: int, f: Vec)
    requires 0 <= p < n
    requires forall k | 0 <= k < n && k != p :: f(k) == 0.0
    ensures Sum(n, f) == f(p)
  {
    SumTail(p + 1, n, f);
    SumTail(0, p, f);
  }

  function RowOf(F: Matrix, i: int): Vec { j => F(i, j) }

  function RowSum(m: nat, F: Matrix): Vec { i => Sum(m, RowOf(F, i)) }

  function Transpose(F: Matrix): Matrix { (i, j) => F(j, i) }

  /** Summing by rows or by columns gives the same total. */
  lemma {:induction false} SumSwap(n: nat, m: nat, F: Matrix)
    ensures Sum(n, RowSum(m, F)) == Sum(m, RowSum(n, Transpose(F)))
  {
    if n == 0 {
      SumTail(0, m, RowSum(0, Transpose(F)));
    } else {
      SumSwap(n - 1, m, F);
      SumAdd(m, RowSum(n - 1, Transpose(F)), RowOf(F, n - 1), RowSum(n, Transpose(F)));
    }
  }

  // ----- entries of matrix products -----

  /** The sum over k < n of F(r, k) * G(k, c). */
  function Dot(F: Matrix, G: Matrix, r: int, c: int, n: nat): real {
    Sum(n, k => F(r, k) * G(k, c))
  }

  lemma DotLast(F: Matrix, G: Matrix, r: int, c: int, n: nat)
    requires n > 0
    ensures Dot(F, G, r, c, n) == Dot(F, G, r, c, n - 1) + F(r, n - 1) * G(n - 1, c)
  {
    var f: Vec := k => F(r, k) * G(k, c);
    assert Dot(F, G, r, c, n) == Sum(n - 1, f) + f(n - 1);
  }

  lemma DotTail(F: Matrix, G: Matrix, r: int, c: int, m: nat, n: nat)
    requires m <= n && forall k | m <= k < n :: F(r, k) == 0.0 || G(k, c) == 0.0
    ensures Dot(F, G, r, c, n) == Dot(F, G, r, c, m)
  {
    forall k | m <= k < n
      ensures F(r, k) * G(k, c) == 0.0
    {
    }
    SumTail(m, n, k => F(r, k) * G(k, c));
  }

  lemma DotCong(F: Matrix, G: Matrix, F': Matrix, G': Matrix, r: int, c: int, n: nat)
    requires forall k | 0 <= k < n :: F(r, k) * G(k, c) == F'(r, k) * G'(k, c)
    ensures Dot(F, G, r, c, n) == Dot(F', G', r, c, n)
  {
    SumCong(n, k => F(r, k) * G(k, c), k => F'(r, k) * G'(k, c));
  }

  // ----- matrices held in two-dimensional arrays -----

  ghost function Rows(a: array2<real>): (s: seq<seq<real>>)
    reads a
    ensures |s| == a.Length0
    ensures forall i | 0 <= i < a.Length0 :: |s[i]| == a.Length1
    ensures forall i, j | 0 <= i < a.Length0 && 0 <= j < a.Length1 :: s[i][j] == a[i, j]
  {
    seq(a.Length0, i requires 0 <= i < a.Length0 reads a =>
      seq(a.Length1, j requires 0 <= j < a.Length1 reads a => a[i, j]))
  }

  /** The entries of an array at one moment, as a function of the indices. */
  ghost function Entries(a: array2<real>): (A: Matrix)
    reads a
    ensures forall i, j | 0 <= i < a.Length0 && 0 <= j < a.Length1 :: A(i, j) == a[i, j]
  {
    var s := Rows(a);
    (i: int, j: int) => if 0 <= i < |s| && 0 <= j < |s[i]| then s[i][j] else 0.0
  }

  /** The entries of a one-dimensional array at one moment. */
  ghost function Items(a: array<real>): (v: Vec)
    reads a
    ensures forall i | 0 <= i < a.Length :: v(i) == a[i]
  {
    var s := a[..];
    (i: int) => if 0 <= i < |s| then s[i] else 0.0
  }
}
