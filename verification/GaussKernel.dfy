// Elimination keeps the integer solutions of M v = 0, whichever multiplier is used.
// The systems are homogeneous, so every rational solution is a multiple of an integer one.

module GaussKernel {
  import opened Arithmetic
  import opened Gcd
  import opened Gauss

  function Dot(u: Row, v: Row, n: nat): int
    requires n <= |u| && n <= |v|
  {
    if n == 0 then 0 else Dot(u, v, n - 1) + u[n - 1] * v[n - 1]
  }

  ghost predicate Solves(M: Rows, n: nat, v: Row)
    requires IsMatrix(M, n)
  {
    |v| == n && forall i | 0 <= i < |M| :: Dot(M[i], v, n) == 0
  }

  lemma {:induction false} DotCombine(p: Row, q: Row, s: Row, v: Row, g: int, a: int, b: int, n: nat)
    requires n <= |p| && n <= |q| && n <= |s| && n <= |v|
    requires forall k | 0 <= k < n :: g * s[k] == a * p[k] + b * q[k]
    ensures g * Dot(s, v, n) == a * Dot(p, v, n) + b * Dot(q, v, n)
  {
    if n > 0 {
      DotCombine(p, q, s, v, g, a, b, n - 1);
      DistributeTerm(g, a, b, s[n - 1], p[n - 1], q[n - 1], v[n - 1]);
      Distribute(Dot(s, v, n - 1), s[n - 1] * v[n - 1], g);
      Distribute(Dot(p, v, n - 1), p[n - 1] * v[n - 1], a);
      Distribute(Dot(q, v, n - 1), q[n - 1] * v[n - 1], b);
    }
  }

  lemma DistributeTerm(g: int, a: int, b: int, s: int, p: int, q: int, v: int)
    requires g * s == a * p + b * q
    ensures g * (s * v) == a * (p * v) + b * (q * v)
  {
    assert g * (s * v) == (g * s) * v;
    assert (a * p + b * q) * v == a * (p * v) + b * (q * v);
  }

  /** A cleared row vanishes on v exactly when the old row does, if the pivot row does. */
  lemma ClearedKeepsZero(p: Row, q: Row, j: nat, mode: Multiplier, v: Row, n: nat)
    requires |p| == |q| == n && |v| == n && j < n && q[j] > 0 && Dot(q, v, n) == 0
    ensures |ClearedRow(p, q, j, mode)| == n
    ensures Dot(ClearedRow(p, q, j, mode), v, n) == 0 <==> Dot(p, v, n) == 0
  {
    var g, a, b := ClearedForm(p, q, j, mode);
    var s := ClearedRow(p, q, j, mode);
    DotCombine(p, q, s, v, g, a, b, n);
    ZeroFactor(g, Dot(s, v, n));
    ZeroFactor(a, Dot(p, v, n));
  }

  lemma ZeroFactor(g: int, c: int)
    requires g != 0
    ensures g * c == 0 <==> c == 0
  {
    if g > 0 {
      ZeroQuotient(g, c);
    } else {
      ZeroQuotient(-g, c);
      NegateBoth(g, -c);
    }
  }

  lemma PivotKeepsZero(s: Row, j: nat, v: Row, n: nat)
    requires |s| == n && |v| == n && j < n
    ensures |NormalisedPivot(s, j)| == n
    ensures Dot(NormalisedPivot(s, j), v, n) == 0 <==> Dot(s, v, n) == 0
  {
    var g := NormalisedPivotForm(s, j);
    var p := NormalisedPivot(s, j);
    DotCombine(s, s, p, v, g, 1, 0, n);
    ZeroFactor(g, Dot(p, v, n));
  }

  lemma WithPivotKeepsSolutions(M: Rows, n: nat, r: nat, i: nat, j: nat, v: Row)
    requires IsMatrix(M, n) && r <= i < |M| && j < n && M[i][j] != 0
    ensures Solves(WithPivot(M, n, r, i, j), n, v) <==> Solves(M, n, v)
  {
    if |v| == n {
      PivotKeepsZero(M[i], j, v, n);
      var P := WithPivot(M, n, r, i, j);
      assert P[r] == NormalisedPivot(M[i], j);
      assert i != r ==> P[i] == M[r];
      assert forall k | 0 <= k < |M| && k != r && k != i :: P[k] == M[k];
      if Solves(P, n, v) {
        forall k | 0 <= k < |M|
          ensures Dot(M[k], v, n) == 0
        {
          assert Dot(P[k], v, n) == 0 && Dot(P[i], v, n) == 0 && Dot(P[r], v, n) == 0;
        }
      }
      if Solves(M, n, v) {
        forall k | 0 <= k < |M|
          ensures Dot(P[k], v, n) == 0
        {
          assert Dot(M[k], v, n) == 0 && Dot(M[i], v, n) == 0 && Dot(M[r], v, n) == 0;
        }
      }
    }
  }

  lemma ClearedKeepsSolutions(P: Rows, n: nat, r: nat, j: nat, mode: Multiplier, v: Row)
    requires IsMatrix(P, n) && r < |P| && j < n && P[r][j] > 0
    ensures Solves(Cleared(P, n, r, j, mode), n, v) <==> Solves(P, n, v)
  {
    var C := Cleared(P, n, r, j, mode);
    assert C[r] == P[r];
    if |v| == n && Dot(P[r], v, n) == 0 {
      forall k | 0 <= k < |P|
        ensures Dot(C[k], v, n) == 0 <==> Dot(P[k], v, n) == 0
      {
        if k != r {
          ClearedKeepsZero(P[k], P[r], j, mode, v, n);
        }
      }
    }
  }

  lemma StepKeepsSolutions(s: State, n: nat, j: nat, mode: Multiplier, v: Row)
    requires IsMatrix(s.rows, n) && j < n && |s.pivots| <= |s.rows|
    ensures Solves(Step(s, n, j, mode).rows, n, v) <==> Solves(s.rows, n, v)
  {
    var r := |s.pivots|;
    var i := FindPivot(s.rows, n, r, j);
    if i < |s.rows| {
      WithPivotKeepsSolutions(s.rows, n, r, i, j, v);
      ClearedKeepsSolutions(WithPivot(s.rows, n, r, i, j), n, r, j, mode, v);
    }
  }

  /** The whole run, as written or signed, has the solutions of the matrix it started from. */
  lemma {:induction false} RunKeepsSolutions(M: Rows, n: nat, j: nat, mode: Multiplier, v: Row)
    requires IsMatrix(M, n) && j <= n
    ensures Solves(Run(M, n, j, mode).rows, n, v) <==> Solves(M, n, v)
  {
    hide Step;
    if j > 0 {
      RunKeepsSolutions(M, n, j - 1, mode, v);
      StepKeepsSolutions(Run(M, n, j - 1, mode), n, j - 1, mode, v);
    }
  }
}
