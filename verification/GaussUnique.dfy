// Two matrices with the same solutions have the same canonical form.

module GaussUnique {
  import opened Arithmetic
  import opened Gcd
  import opened Gauss
  import opened GaussKernel
  import opened GaussCanonical

  // ----- a solution for every column without a pivot -----

  /** The product of the pivots of the first t rows. */
  function PivotProduct(s: State, n: nat, t: nat): int
    requires IsMatrix(s.rows, n) && t <= |s.pivots| <= |s.rows|
    requires forall u | 0 <= u < |s.pivots| :: s.pivots[u] < n
  {
    if t == 0 then 1 else PivotProduct(s, n, t - 1) * s.rows[t - 1][s.pivots[t - 1]]
  }

  lemma {:induction false} PivotProductDivisible(s: State, n: nat, t: nat, u: nat)
    requires Reduced(s, n, n) && u < t <= |s.pivots|
    ensures PivotProduct(s, n, t) > 0
    ensures Divides(s.rows[u][s.pivots[u]], PivotProduct(s, n, t))
  {
    var p := s.rows[t - 1][s.pivots[t - 1]];
    var before := PivotProduct(s, n, t - 1);
    assert LeadsAt(s.rows[t - 1], s.pivots[t - 1]);
    if u < t - 1 {
      PivotProductDivisible(s, n, t - 1, u);
      DividesCombination(s.rows[u][s.pivots[u]], before, before, p, 0);
    } else {
      if t > 1 {
        PivotProductDivisible(s, n, t - 1, 0);
      }
      DividesMultiple(p, before, p * before);
    }
    ZeroQuotient(before, p);
  }

  lemma PivotProductPositive(s: State, n: nat)
    requires Reduced(s, n, n)
    ensures PivotProduct(s, n, |s.pivots|) > 0
  {
    if |s.pivots| > 0 {
      PivotProductDivisible(s, n, |s.pivots|, 0);
    }
  }

  function IndexOf(pivots: seq<nat>, c: nat): (t: nat)
    requires c in pivots
    ensures t < |pivots| && pivots[t] == c
  {
    if pivots[0] == c then 0 else 1 + IndexOf(pivots[1..], c)
  }

  /** Entry k of the solution that sets column c free. */
  function FreeEntry(s: State, n: nat, c: nat, k: nat): int
    requires IsMatrix(s.rows, n) && |s.pivots| <= |s.rows| && c < n && k < n
    requires forall u | 0 <= u < |s.pivots| :: s.pivots[u] < n && s.rows[u][s.pivots[u]] > 0
  {
    var whole := PivotProduct(s, n, |s.pivots|);
    if k == c then whole
    else if k in s.pivots then
      var t := IndexOf(s.pivots, k);
      -(s.rows[t][c] * TruncDiv(whole, s.rows[t][s.pivots[t]]))
    else 0
  }

  function FreeSolution(s: State, n: nat, c: nat): Row
    requires IsMatrix(s.rows, n) && |s.pivots| <= |s.rows| && c < n
    requires forall u | 0 <= u < |s.pivots| :: s.pivots[u] < n && s.rows[u][s.pivots[u]] > 0
  {
    seq(n, k requires 0 <= k < n => FreeEntry(s, n, c, k))
  }

  lemma ReducedPivots(s: State, n: nat)
    requires Reduced(s, n, n)
    ensures forall u | 0 <= u < |s.pivots| :: s.pivots[u] < n && s.rows[u][s.pivots[u]] > 0
  {
    forall u | 0 <= u < |s.pivots|
      ensures s.pivots[u] < n && s.rows[u][s.pivots[u]] > 0
    {
      assert LeadsAt(s.rows[u], s.pivots[u]);
    }
  }

  lemma {:induction false} DotZero(u: Row, v: Row, n: nat)
    requires n <= |u| && n <= |v|
    requires forall k | 0 <= k < n :: u[k] == 0 || v[k] == 0
    ensures Dot(u, v, n) == 0
  {
    if n > 0 {
      DotZero(u, v, n - 1);
    }
  }

  lemma {:induction false} DotOne(u: Row, v: Row, n: nat, p: nat)
    requires p < n <= |u| && n <= |v|
    requires forall k | 0 <= k < n && k != p :: u[k] == 0 || v[k] == 0
    ensures Dot(u, v, n) == u[p] * v[p]
  {
    if p == n - 1 {
      DotZero(u, v, n - 1);
    } else {
      DotOne(u, v, n - 1, p);
    }
  }

  lemma {:induction false} DotTwo(u: Row, v: Row, n: nat, p: nat, q: nat)
    requires p < n <= |u| && q < n <= |v| && p != q
    requires forall k | 0 <= k < n && k != p && k != q :: u[k] == 0 || v[k] == 0
    ensures Dot(u, v, n) == u[p] * v[p] + u[q] * v[q]
  {
    if p == n - 1 {
      DotOne(u, v, n - 1, q);
    } else if q == n - 1 {
      DotOne(u, v, n - 1, p);
    } else {
      DotTwo(u, v, n - 1, p, q);
    }
  }

  lemma SameIndex(s: State, n: nat, t: nat)
    requires Reduced(s, n, n) && t < |s.pivots|
    ensures IndexOf(s.pivots, s.pivots[t]) == t
  {
  }

  /** Entry p_t of the free solution, cleared of its division. */
  lemma FreePivotEntry(s: State, n: nat, c: nat, t: nat)
    requires Reduced(s, n, n) && c < n && c !in s.pivots && t < |s.pivots|
    ensures forall u | 0 <= u < |s.pivots| :: s.pivots[u] < n && s.rows[u][s.pivots[u]] > 0
    ensures var v, p := FreeSolution(s, n, c), s.pivots[t];
            s.rows[t][p] * v[p] == -(s.rows[t][c] * v[c])
  {
    ReducedPivots(s, n);
    SameIndex(s, n, t);
    var whole := PivotProduct(s, n, |s.pivots|);
    PivotProductDivisible(s, n, |s.pivots|, t);
    var d, e := s.rows[t][s.pivots[t]], s.rows[t][c];
    ExactDivision(whole, d);
    var v, p := FreeSolution(s, n, c), s.pivots[t];
    assert v[p] == -(e * TruncDiv(whole, d));
    assert v[c] == whole;
    hide *;
    Regroup(d, e, whole, TruncDiv(whole, d));
  }

  lemma Regroup(d: int, e: int, w: int, k: int)
    requires w == d * k
    ensures d * -(e * k) == -(e * w)
  {
    assert d * -(e * k) == -(e * (d * k));
  }

  lemma FreeSolutionSolves(s: State, n: nat, c: nat)
    requires Reduced(s, n, n) && c < n && c !in s.pivots
    ensures forall u | 0 <= u < |s.pivots| :: s.pivots[u] < n && s.rows[u][s.pivots[u]] > 0
    ensures Solves(s.rows, n, FreeSolution(s, n, c))
  {
    ReducedPivots(s, n);
    var v := FreeSolution(s, n, c);
    forall i | 0 <= i < |s.rows|
      ensures Dot(s.rows[i], v, n) == 0
    {
      if i < |s.pivots| {
        var p := s.pivots[i];
        forall k | 0 <= k < n && k != p && k != c
          ensures s.rows[i][k] == 0 || v[k] == 0
        {
          if k in s.pivots {
            var u := IndexOf(s.pivots, k);
            assert s.rows[i][s.pivots[u]] == 0;
          }
        }
        DotTwo(s.rows[i], v, n, p, c);
        FreePivotEntry(s, n, c, i);
      } else {
        DotZero(s.rows[i], v, n);
      }
    }
  }

  // ----- the solutions determine the pivots -----

  ghost predicate SameSolutions(M: Rows, N: Rows, n: nat)
    requires IsMatrix(M, n) && IsMatrix(N, n)
  {
    forall v: Row :: Solves(M, n, v) <==> Solves(N, n, v)
  }

  /** A solution that is zero after a pivot column is zero there too. */
  lemma PivotForcesZero(s: State, n: nat, t: nat, v: Row)
    requires Reduced(s, n, n) && t < |s.pivots| && Solves(s.rows, n, v)
    requires forall k | s.pivots[t] < k < n :: v[k] == 0
    ensures s.pivots[t] < n && v[s.pivots[t]] == 0
  {
    var p := s.pivots[t];
    assert LeadsAt(s.rows[t], p);
    DotOne(s.rows[t], v, n, p);
    assert Dot(s.rows[t], v, n) == 0;
    ZeroFactor(s.rows[t][p], v[p]);
  }

  lemma FreeSolutionTail(s: State, n: nat, c: nat)
    requires Reduced(s, n, n) && c < n && c !in s.pivots
    ensures forall u | 0 <= u < |s.pivots| :: s.pivots[u] < n && s.rows[u][s.pivots[u]] > 0
    ensures FreeSolution(s, n, c)[c] > 0
    ensures forall k | c < k < n :: FreeSolution(s, n, c)[k] == 0
  {
    ReducedPivots(s, n);
    PivotProductPositive(s, n);
    var v := FreeSolution(s, n, c);
    forall k | c < k < n
      ensures v[k] == 0
    {
      if k in s.pivots {
        var t := IndexOf(s.pivots, k);
        assert LeadsAt(s.rows[t], s.pivots[t]);
        assert s.rows[t][c] == 0;
      }
    }
  }

  lemma PivotIsPivot(s: State, z: State, n: nat, t: nat)
    requires Reduced(s, n, n) && Reduced(z, n, n) && SameSolutions(s.rows, z.rows, n)
    requires t < |s.pivots|
    ensures s.pivots[t] in z.pivots
  {
    var p := s.pivots[t];
    assert LeadsAt(s.rows[t], p);
    if p !in z.pivots {
      FreeSolutionSolves(z, n, p);
      FreeSolutionTail(z, n, p);
      var v := FreeSolution(z, n, p);
      assert Solves(s.rows, n, v);
      PivotForcesZero(s, n, t, v);
      assert false;
    }
  }

  /** Strictly increasing sequences with the same elements are equal. */
  lemma {:induction false} IncreasingPrefix(a: seq<nat>, b: seq<nat>, j: nat, k: nat)
    requires Increasing(a, j) && Increasing(b, j) && k <= |a|
    requires forall x | x in a :: x in b
    requires forall x | x in b :: x in a
    ensures k <= |b| && a[..k] == b[..k]
  {
    if k > 0 {
      IncreasingPrefix(a, b, j, k - 1);
      forall w | 0 <= w < k - 1
        ensures a[w] == b[w]
      {
        assert a[..k - 1][w] == b[..k - 1][w];
      }
      assert a[k - 1] in b;
      var u :| 0 <= u < |b| && b[u] == a[k - 1];
      assert u >= k - 1;
      assert b[k - 1] in a;
      var t :| 0 <= t < |a| && a[t] == b[k - 1];
      assert t >= k - 1;
      assert a[k - 1] == b[k - 1];
    }
  }

  lemma SamePivots(s: State, z: State, n: nat)
    requires Reduced(s, n, n) && Reduced(z, n, n) && SameSolutions(s.rows, z.rows, n)
    ensures s.pivots == z.pivots
  {
    forall x | x in s.pivots
      ensures x in z.pivots
    {
      var t :| 0 <= t < |s.pivots| && s.pivots[t] == x;
      PivotIsPivot(s, z, n, t);
    }
    forall x | x in z.pivots
      ensures x in s.pivots
    {
      var t :| 0 <= t < |z.pivots| && z.pivots[t] == x;
      PivotIsPivot(z, s, n, t);
    }
    IncreasingPrefix(s.pivots, z.pivots, n, |s.pivots|);
    IncreasingPrefix(z.pivots, s.pivots, n, |z.pivots|);
  }

  // ----- the solutions determine the rows -----

  /** The t-th rows are proportional: entry c, scaled by the pivot of the other row. */
  lemma RowsProportional(s: State, z: State, n: nat, t: nat, c: nat)
    requires Reduced(s, n, n) && Reduced(z, n, n) && SameSolutions(s.rows, z.rows, n)
    requires s.pivots == z.pivots && t < |s.pivots| && c < n
    ensures s.pivots[t] < n
    ensures z.rows[t][s.pivots[t]] * s.rows[t][c] == s.rows[t][s.pivots[t]] * z.rows[t][c]
  {
    var p := s.pivots[t];
    assert LeadsAt(s.rows[t], p) && LeadsAt(z.rows[t], p);
    if c in s.pivots {
      var u := IndexOf(s.pivots, c);
      assert c != p ==> s.rows[t][s.pivots[u]] == 0 && z.rows[t][z.pivots[u]] == 0;
    } else {
      FreeSolutionSolves(s, n, c);
      FreeSolutionTail(s, n, c);
      FreePivotEntry(s, n, c, t);
      var v := FreeSolution(s, n, c);
      assert Solves(z.rows, n, v);
      ZeroExcept(s, z, n, t, c, v);
      DotTwo(z.rows[t], v, n, p, c);
      assert Dot(z.rows[t], v, n) == 0;
      hide *;
      CancelFree(s.rows[t][p], s.rows[t][c], z.rows[t][p], z.rows[t][c], v[p], v[c]);
    }
  }

  lemma ZeroExcept(s: State, z: State, n: nat, t: nat, c: nat, v: Row)
    requires Reduced(s, n, n) && Reduced(z, n, n) && s.pivots == z.pivots
    requires t < |s.pivots| && c < n && c !in s.pivots
    requires forall u | 0 <= u < |s.pivots| :: s.pivots[u] < n && s.rows[u][s.pivots[u]] > 0
    requires v == FreeSolution(s, n, c)
    ensures forall k | 0 <= k < n && k != s.pivots[t] && k != c :: z.rows[t][k] == 0 || v[k] == 0
  {
    forall k | 0 <= k < n && k != s.pivots[t] && k != c
      ensures z.rows[t][k] == 0 || v[k] == 0
    {
      if k in s.pivots {
        var u := IndexOf(s.pivots, k);
        assert z.rows[t][z.pivots[u]] == 0;
      }
    }
  }

  /** d x = -e y and d' x + e' y = 0 with y positive give d' e = d e'. */
  lemma CancelFree(d: int, e: int, d': int, e': int, x: int, y: int)
    requires y > 0 && d * x == -(e * y) && d' * x + e' * y == 0
    ensures d' * e == d * e'
  {
    assert d' * (d * x) == d * (d' * x);
    assert d' * (e * y) == d * (e' * y) by {
      assert d' * -(e * y) == d * -(e' * y);
    }
    assert (d' * e - d * e') * y == 0;
    ZeroQuotient(y, d' * e - d * e');
  }

  lemma CancelFactor(g: int, m: int, k: int)
    requires g > 0 && g * m == g * k
    ensures m == k
  {
    Monotone(g, m, k);
    Monotone(g, k, m);
  }

  lemma CofactorDivides(g: int, h: int, q: int, m: int)
    requires g > 0 && h == g * q && Divides(h, g * m)
    ensures Divides(q, m)
  {
    var j: int :| g * m == h * j;
    assert (g * q) * j == g * (q * j);
    CancelFactor(g, m, q * j);
    DividesMultiple(q, j, m);
  }

  /** Scaling a row of gcd one by g gives a row of gcd g. */
  lemma ScaledGcd(u: Row, w: Row, g: int)
    requires |w| == |u| && g > 0 && forall k | 0 <= k < |u| :: w[k] == g * u[k]
    requires RowGcd(u) == 1 && !IsZeroRow(u)
    ensures RowGcd(w) == g
  {
    RowGcdSpec(u);
    RowGcdSpec(w);
    var h := RowGcd(w);
    forall k | 0 <= k < |w|
      ensures Divides(g, w[k])
    {
      DividesMultiple(g, u[k], w[k]);
    }
    var z: int :| 0 <= z < |u| && u[z] != 0;
    ZeroFactor(g, u[z]);
    assert Divides(g, h);
    var q: int :| h == g * q;
    ZeroQuotient(g, q);
    forall k | 0 <= k < |u|
      ensures Divides(q, u[k])
    {
      assert Divides(h, w[k]);
      CofactorDivides(g, h, q, u[k]);
    }
    assert DividesRow(q, u);
    DivisorBounded(q, 1);
  }

  lemma SameRowOfCanonical(s: State, z: State, n: nat, t: nat)
    requires Reduced(s, n, n) && Reduced(z, n, n) && SameSolutions(s.rows, z.rows, n)
    requires s.pivots == z.pivots && t < |s.pivots|
    ensures s.rows[t] == z.rows[t]
  {
    var x, y, p := s.rows[t], z.rows[t], s.pivots[t];
    assert LeadsAt(x, p) && LeadsAt(y, p);
    var w := seq(n, c requires 0 <= c < n => y[p] * x[c]);
    forall c | 0 <= c < n
      ensures w[c] == x[p] * y[c]
    {
      RowsProportional(s, z, n, t, c);
    }
    hide Reduced, RowGcd, SameSolutions;
    ScaledGcd(x, w, y[p]);
    ScaledGcd(y, w, x[p]);
    forall c | 0 <= c < n
      ensures x[c] == y[c]
    {
      CancelFactor(x[p], x[c], y[c]);
    }
  }

  /** Reduced states with the same solutions agree on the rank, the pivots and the rows. */
  lemma CanonicalFormUnique(s: State, z: State, n: nat)
    requires Reduced(s, n, n) && Reduced(z, n, n) && SameSolutions(s.rows, z.rows, n)
    ensures s.pivots == z.pivots
    ensures forall t | 0 <= t < |s.pivots| :: s.rows[t] == z.rows[t]
  {
    SamePivots(s, z, n);
    forall t | 0 <= t < |s.pivots|
      ensures s.rows[t] == z.rows[t]
    {
      SameRowOfCanonical(s, z, n, t);
    }
  }

  // ----- the main theorem -----

  /** Rank and the first Rank rows are equal. */
  ghost predicate SameCanonicalForm(s: State, z: State)
    requires |s.pivots| <= |s.rows| && |z.pivots| <= |z.rows|
  {
    && |s.pivots| == |z.pivots|
    && forall t | 0 <= t < |s.pivots| :: s.rows[t] == z.rows[t]
  }

  lemma CanonicalFormSolutions(s: State, z: State, n: nat, v: Row)
    requires Reduced(s, n, n) && Reduced(z, n, n) && SameCanonicalForm(s, z) && Solves(s.rows, n, v)
    ensures Solves(z.rows, n, v)
  {
    forall i | 0 <= i < |z.rows|
      ensures Dot(z.rows[i], v, n) == 0
    {
      if i < |z.pivots| {
        assert z.rows[i] == s.rows[i];
      } else {
        DotZero(z.rows[i], v, n);
      }
    }
  }

  /** Two matrices have the same solutions exactly when signed elimination gives them the
      same Rank and the same first Rank rows. */
  lemma SameSolutionsIffSameForm(M: Rows, N: Rows, n: nat)
    requires IsMatrix(M, n) && IsMatrix(N, n)
    ensures SameSolutions(M, N, n) <==> SameCanonicalForm(Run(M, n, n, Signed), Run(N, n, n, Signed))
  {
    var s, z := Run(M, n, n, Signed), Run(N, n, n, Signed);
    SignedRunReduced(M, n, n);
    SignedRunReduced(N, n, n);
    if SameSolutions(M, N, n) {
      forall v: Row
        ensures Solves(s.rows, n, v) <==> Solves(z.rows, n, v)
      {
        RunKeepsSolutions(M, n, n, Signed, v);
        RunKeepsSolutions(N, n, n, Signed, v);
      }
      CanonicalFormUnique(s, z, n);
    }
    if SameCanonicalForm(s, z) {
      forall v: Row
        ensures Solves(M, n, v) <==> Solves(N, n, v)
      {
        RunKeepsSolutions(M, n, n, Signed, v);
        RunKeepsSolutions(N, n, n, Signed, v);
        if Solves(s.rows, n, v) {
          CanonicalFormSolutions(s, z, n, v);
        }
        if Solves(z.rows, n, v) {
          CanonicalFormSolutions(z, s, n, v);
        }
      }
    }
  }
}
