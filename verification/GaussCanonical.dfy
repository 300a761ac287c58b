// With the signed multiplier elimination ends in a canonical form, and the canonical form
// depends on the solution set alone. With the magnitudes it does so column by column
// exactly when no entry to be cleared is negative.

module GaussCanonical {
  import opened Gcd
  import opened Gauss
  import opened GaussKernel

  /** Pivot columns strictly increase and lie below j. */
  ghost predicate Increasing(pivots: seq<nat>, j: nat) {
    && (forall t | 0 <= t < |pivots| :: pivots[t] < j)
    && (forall t, u | 0 <= t < u < |pivots| :: pivots[t] < pivots[u])
  }

  /** Row t leads with a positive pivot in its column and has gcd one. */
  ghost predicate LeadsAt(s: Row, p: nat) {
    && p < |s| && s[p] > 0
    && (forall c | 0 <= c < p :: s[c] == 0)
    && RowGcd(s) == 1
  }

  /** The first j columns are reduced: each pivot is alone in its column, and the rows
      without a pivot are zero so far. */
  ghost predicate Reduced(s: State, n: nat, j: nat) {
    && IsMatrix(s.rows, n) && j <= n && |s.pivots| <= |s.rows|
    && Increasing(s.pivots, j)
    && (forall t | 0 <= t < |s.pivots| :: LeadsAt(s.rows[t], s.pivots[t]))
    && (forall t, i | 0 <= t < |s.pivots| && 0 <= i < |s.rows| && i != t :: s.rows[i][s.pivots[t]] == 0)
    && (forall i, c | |s.pivots| <= i < |s.rows| && 0 <= c < j :: s.rows[i][c] == 0)
  }

  // ----- one column with the signed multiplier -----

  lemma NormalisedPivotLeads(s: Row, j: nat)
    requires j < |s| && s[j] != 0 && forall c | 0 <= c < j :: s[c] == 0
    ensures LeadsAt(NormalisedPivot(s, j), j)
    ensures forall c | 0 <= c < |s| && s[c] == 0 :: NormalisedPivot(s, j)[c] == 0
  {
    NormalisedPivotSign(s, j);
    var g := NormalisedPivotForm(s, j);
    var p := NormalisedPivot(s, j);
    forall c | 0 <= c < |s| && s[c] == 0
      ensures p[c] == 0
    {
      ZeroFactor(g, p[c]);
    }
    PrimitiveGcd(s);
    NegateGcd(Primitive(s));
  }

  lemma {:induction false} NegatePrefixGcd(s: Row, n: nat)
    requires n <= |s|
    ensures PrefixGcd(Negate(s), n) == PrefixGcd(s, n)
  {
    if n > 0 {
      NegatePrefixGcd(s, n - 1);
      assert Negate(s)[n - 1] == -s[n - 1];
    }
  }

  lemma NegateGcd(s: Row)
    ensures RowGcd(Negate(s)) == RowGcd(s)
  {
    NegatePrefixGcd(s, |s|);
  }

  /** Clearing keeps an earlier pivot row leading. */
  lemma ClearedLeads(p: Row, q: Row, j: nat, mode: Multiplier, l: nat)
    requires |p| == |q| && l < j < |q| && q[j] > 0
    requires LeadsAt(p, l) && forall c | 0 <= c < j :: q[c] == 0
    ensures LeadsAt(ClearedRow(p, q, j, mode), l)
  {
    var g, a, b := ClearedForm(p, q, j, mode);
    var s := ClearedRow(p, q, j, mode);
    ZeroQuotient(g, s[l]);
    ZeroQuotient(a, p[l]);
    assert g * s[l] == a * p[l] + b * q[l];
    forall c | 0 <= c < l
      ensures s[c] == 0
    {
      assert g * s[c] == a * p[c] + b * q[c];
      ZeroQuotient(g, s[c]);
    }
  }

  lemma ClearedStaysZero(p: Row, q: Row, j: nat, mode: Multiplier, c: nat)
    requires |p| == |q| && j < |q| && c < |q| && q[j] > 0 && p[c] == 0 && q[c] == 0
    ensures |ClearedRow(p, q, j, mode)| == |p| && ClearedRow(p, q, j, mode)[c] == 0
  {
    var g, a, b := ClearedForm(p, q, j, mode);
    var s := ClearedRow(p, q, j, mode);
    assert g * s[c] == a * p[c] + b * q[c];
    ZeroQuotient(g, s[c]);
  }

  /** The state between the two halves of a step: row r holds the new pivot. */
  ghost predicate PivotPlaced(P: Rows, pivots: seq<nat>, n: nat, j: nat) {
    var r := |pivots|;
    && IsMatrix(P, n) && r < |P| && j < n
    && Increasing(pivots, j)
    && LeadsAt(P[r], j)
    && (forall t | 0 <= t < r :: LeadsAt(P[t], pivots[t]))
    && (forall t, i | 0 <= t < r && 0 <= i < |P| && i != t :: P[i][pivots[t]] == 0)
    && (forall i, c | r <= i < |P| && 0 <= c < j :: P[i][c] == 0)
  }

  lemma PlacePivot(s: State, n: nat, j: nat, i: nat)
    requires Reduced(s, n, j) && j < n && |s.pivots| <= i < |s.rows| && s.rows[i][j] != 0
    ensures PivotPlaced(WithPivot(s.rows, n, |s.pivots|, i, j), s.pivots, n, j)
  {
    var r := |s.pivots|;
    var P := WithPivot(s.rows, n, r, i, j);
    NormalisedPivotLeads(s.rows[i], j);
    assert P[r] == NormalisedPivot(s.rows[i], j);
    assert forall k | 0 <= k < |P| && k != r :: P[k] == s.rows[if k == i then r else k];
    forall t, k | 0 <= t < r && 0 <= k < |P| && k != t
      ensures P[k][s.pivots[t]] == 0
    {
      assert s.rows[i][s.pivots[t]] == 0;
    }
  }

  lemma ClearPlaced(P: Rows, pivots: seq<nat>, n: nat, j: nat)
    requires PivotPlaced(P, pivots, n, j)
    ensures Reduced(State(Cleared(P, n, |pivots|, j, Signed), pivots + [j]), n, j + 1)
  {
    var r := |pivots|;
    var q := P[r];
    var C := Cleared(P, n, r, j, Signed);
    var s := State(C, pivots + [j]);
    forall t | 0 <= t <= r
      ensures LeadsAt(C[t], s.pivots[t])
    {
      if t < r {
        ClearedLeads(P[t], q, j, Signed, pivots[t]);
      }
    }
    forall t, i | 0 <= t <= r && 0 <= i < |C| && i != t
      ensures C[i][s.pivots[t]] == 0
    {
      if i != r {
        if t == r {
          ClearedEntry(P[i], q, j, Signed);
        } else {
          assert P[r][pivots[t]] == 0;
          ClearedStaysZero(P[i], q, j, Signed, pivots[t]);
        }
      }
    }
    forall i, c | r < i < |C| && 0 <= c <= j
      ensures C[i][c] == 0
    {
      if c == j {
        ClearedEntry(P[i], q, j, Signed);
      } else {
        ClearedStaysZero(P[i], q, j, Signed, c);
      }
    }
  }

  lemma SignedStep(s: State, n: nat, j: nat)
    requires Reduced(s, n, j) && j < n
    ensures Reduced(Step(s, n, j, Signed), n, j + 1)
  {
    var r := |s.pivots|;
    var i := FindPivot(s.rows, n, r, j);
    if i < |s.rows| {
      PlacePivot(s, n, j, i);
      ClearPlaced(WithPivot(s.rows, n, r, i, j), s.pivots, n, j);
    }
  }

  /** After j columns of the signed run the first j columns are reduced. */
  lemma {:induction false} SignedRunReduced(M: Rows, n: nat, j: nat)
    requires IsMatrix(M, n) && j <= n
    ensures Reduced(Run(M, n, j, Signed), n, j)
  {
    hide Step;
    if j > 0 {
      hide Reduced;
      SignedRunReduced(M, n, j - 1);
      SignedStep(Run(M, n, j - 1, Signed), n, j - 1);
    }
  }

  // ----- the multiplier as written -----

  /** No entry that a step on column j would clear is negative. */
  ghost predicate NothingNegative(s: State, n: nat, j: nat)
    requires IsMatrix(s.rows, n) && j < n && |s.pivots| <= |s.rows|
  {
    var r := |s.pivots|;
    var i := FindPivot(s.rows, n, r, j);
    i < |s.rows| ==> forall k | 0 <= k < |s.rows| && k != i :: s.rows[k][j] >= 0
  }

  /** Column j is zero outside the pivot row of its step. */
  ghost predicate ColumnCleared(s: State, t: State, n: nat, j: nat)
    requires IsMatrix(t.rows, n) && j < n
  {
    |t.pivots| > |s.pivots| ==> forall k | 0 <= k < |t.rows| && k != |s.pivots| :: t.rows[k][j] == 0
  }

  /** As written, a step zeroes out the rest of the column exactly when it meets no negative
      entry there. */
  lemma MagnitudeClearsIff(s: State, n: nat, j: nat)
    requires IsMatrix(s.rows, n) && j < n && |s.pivots| <= |s.rows|
    ensures ColumnCleared(s, Step(s, n, j, Magnitude), n, j) <==> NothingNegative(s, n, j)
  {
    var r := |s.pivots|;
    var i := FindPivot(s.rows, n, r, j);
    if i < |s.rows| {
      var P := WithPivot(s.rows, n, r, i, j);
      var C := Cleared(P, n, r, j, Magnitude);
      assert forall k | 0 <= k < |P| && k != r :: P[k] == s.rows[if k == i then r else k];
      forall k | 0 <= k < |P| && k != r
        ensures C[k][j] == 0 <==> s.rows[if k == i then r else k][j] >= 0
      {
        ClearedEntry(P[k], P[r], j, Magnitude);
      }
      if ColumnCleared(s, Step(s, n, j, Magnitude), n, j) {
        forall k | 0 <= k < |P| && k != i
          ensures s.rows[k][j] >= 0
        {
          assert C[if k == r then i else k][j] == 0;
        }
      }
    }
  }

  lemma SameRow(p: Row, q: Row, j: nat)
    requires |p| == |q| && j < |q| && q[j] > 0 && p[j] >= 0
    ensures ClearedRow(p, q, j, Magnitude) == ClearedRow(p, q, j, Signed)
  {
  }

  lemma MagnitudeStepIff(s: State, n: nat, j: nat)
    requires IsMatrix(s.rows, n) && j < n && |s.pivots| <= |s.rows|
    ensures Step(s, n, j, Magnitude) == Step(s, n, j, Signed) <==> NothingNegative(s, n, j)
  {
    var r := |s.pivots|;
    var i := FindPivot(s.rows, n, r, j);
    if i < |s.rows| {
      var P := WithPivot(s.rows, n, r, i, j);
      assert forall k | 0 <= k < |P| && k != r :: P[k] == s.rows[if k == i then r else k];
      if NothingNegative(s, n, j) {
        forall k | 0 <= k < |P| && k != r
          ensures ClearedRow(P[k], P[r], j, Magnitude) == ClearedRow(P[k], P[r], j, Signed)
        {
          SameRow(P[k], P[r], j);
        }
        assert Cleared(P, n, r, j, Magnitude) == Cleared(P, n, r, j, Signed);
      } else {
        MagnitudeClearsIff(s, n, j);
        var C := Cleared(P, n, r, j, Signed);
        forall k | 0 <= k < |P| && k != r
          ensures C[k][j] == 0
        {
          ClearedEntry(P[k], P[r], j, Signed);
        }
      }
    }
  }

  ghost predicate RunsAgree(M: Rows, n: nat, j: nat)
    requires IsMatrix(M, n) && j <= n
  {
    forall k | 0 <= k <= j :: Run(M, n, k, Magnitude) == Run(M, n, k, Signed)
  }

  ghost predicate MeetsNothingNegative(M: Rows, n: nat, j: nat)
    requires IsMatrix(M, n) && j <= n
  {
    forall k | 0 <= k < j :: NothingNegative(Run(M, n, k, Magnitude), n, k)
  }

  /** The run as written follows the signed run through column j exactly when no step up to
      there meets a negative entry to clear. */
  lemma {:induction false} MagnitudeRunIff(M: Rows, n: nat, j: nat)
    requires IsMatrix(M, n) && j <= n
    ensures RunsAgree(M, n, j) <==> MeetsNothingNegative(M, n, j)
  {
    hide Step, NothingNegative;
    if j > 0 {
      MagnitudeRunIff(M, n, j - 1);
      var s := Run(M, n, j - 1, Magnitude);
      MagnitudeStepIff(s, n, j - 1);
      if RunsAgree(M, n, j) {
        assert RunsAgree(M, n, j - 1);
        assert Run(M, n, j, Magnitude) == Run(M, n, j, Signed);
        assert NothingNegative(s, n, j - 1);
      }
      if MeetsNothingNegative(M, n, j) {
        assert MeetsNothingNegative(M, n, j - 1);
        assert NothingNegative(s, n, j - 1);
        assert Run(M, n, j, Magnitude) == Run(M, n, j, Signed);
      }
    }
  }

  /** Some row besides row t has an entry in the column of pivot t. */
  ghost predicate Crowded(s: State, n: nat, t: nat)
    requires IsMatrix(s.rows, n)
  {
    t < |s.pivots| && s.pivots[t] < n && exists i :: 0 <= i < |s.rows| && i != t && s.rows[i][s.pivots[t]] != 0
  }

  /** Placing a later pivot keeps an entry of column c outside row t. */
  lemma PlacingKeepsEntry(M: Rows, n: nat, r: nat, i: nat, j: nat, t: nat, c: nat, k: nat) returns (l: nat)
    requires IsMatrix(M, n) && t < r <= i < |M| && j < n && M[i][j] != 0
    requires c < n && k < |M| && k != t && M[k][c] != 0
    ensures l < |M| && l != t && WithPivot(M, n, r, i, j)[l][c] != 0
  {
    var g := NormalisedPivotForm(M[i], j);
    l := if k == i then r else if k == r then i else k;
    if k == i {
      assert M[i][c] == g * NormalisedPivot(M[i], j)[c];
    }
  }

  /** So does clearing: either the pivot row has such an entry, or the entry is multiplied. */
  lemma ClearingKeepsEntry(P: Rows, n: nat, r: nat, j: nat, mode: Multiplier, t: nat, c: nat, k: nat)
    requires IsMatrix(P, n) && t < r < |P| && j < n && P[r][j] > 0
    requires c < n && k < |P| && k != t && P[k][c] != 0
    ensures exists l :: 0 <= l < |P| && l != t && Cleared(P, n, r, j, mode)[l][c] != 0
  {
    var C := Cleared(P, n, r, j, mode);
    if P[r][c] != 0 {
      assert C[r][c] != 0;
    } else {
      var g, a, b := ClearedForm(P[k], P[r], j, mode);
      var x := C[k][c];
      assert g * x == a * P[k][c] + b * P[r][c];
      NonzeroMultiple(a, P[k][c]);
      assert x != 0;
    }
  }

  lemma NonzeroMultiple(a: int, x: int)
    requires a > 0 && x != 0
    ensures a * x != 0
  {
    ZeroQuotient(a, x);
  }

  lemma StepStaysCrowded(s: State, n: nat, j: nat, mode: Multiplier, t: nat)
    requires IsMatrix(s.rows, n) && j < n && |s.pivots| <= |s.rows| && Crowded(s, n, t)
    ensures Crowded(Step(s, n, j, mode), n, t)
  {
    var r := |s.pivots|;
    var i := FindPivot(s.rows, n, r, j);
    if i < |s.rows| {
      var c := s.pivots[t];
      var k :| 0 <= k < |s.rows| && k != t && s.rows[k][c] != 0;
      hide WithPivot, Cleared;
      var l := PlacingKeepsEntry(s.rows, n, r, i, j, t, c, k);
      ClearingKeepsEntry(WithPivot(s.rows, n, r, i, j), n, r, j, mode, t, c, l);
    }
  }

  /** A step as written that meets a negative entry leaves its own pivot crowded. */
  lemma NegativeCrowds(s: State, n: nat, j: nat)
    requires IsMatrix(s.rows, n) && j < n && |s.pivots| <= |s.rows| && !NothingNegative(s, n, j)
    ensures Crowded(Step(s, n, j, Magnitude), n, |s.pivots|)
  {
    MagnitudeClearsIff(s, n, j);
  }

  lemma {:induction false} RunStaysCrowded(M: Rows, n: nat, k: nat, j: nat)
    requires IsMatrix(M, n) && k < j <= n && !NothingNegative(Run(M, n, k, Magnitude), n, k)
    ensures Crowded(Run(M, n, j, Magnitude), n, |Run(M, n, k, Magnitude).pivots|)
    decreases j
  {
    hide Step, NothingNegative, Crowded;
    if j == k + 1 {
      NegativeCrowds(Run(M, n, k, Magnitude), n, k);
    } else {
      RunStaysCrowded(M, n, k, j - 1);
      StepStaysCrowded(Run(M, n, j - 1, Magnitude), n, j - 1, Magnitude, |Run(M, n, k, Magnitude).pivots|);
    }
  }

  /** The code as written meets the canonical form exactly when no step meets a negative entry
      to clear: a pivot that is not alone in its column after its step never will be. */
  lemma MagnitudeReducedIff(M: Rows, n: nat, j: nat)
    requires IsMatrix(M, n) && j <= n
    ensures Reduced(Run(M, n, j, Magnitude), n, j) <==> MeetsNothingNegative(M, n, j)
  {
    if MeetsNothingNegative(M, n, j) {
      MagnitudeRunIff(M, n, j);
      SignedRunReduced(M, n, j);
    } else {
      var k :| 0 <= k < j && !NothingNegative(Run(M, n, k, Magnitude), n, k);
      hide Run, NothingNegative;
      RunStaysCrowded(M, n, k, j);
    }
  }

  // ----- a matrix on which the magnitudes fail -----

  lemma PairRow(a: int, g: int)
    requires g > 0 && (a == g || a == -g)
    ensures RowGcd([a, a]) == g && Primitive([a, a]) == [if a > 0 then 1 else -1, if a > 0 then 1 else -1]
  {
    var s := [a, a];
    var u := if a > 0 then 1 else -1;
    assert s[0] == a;
    forall k | 0 <= k < |s|
      ensures Divides(g, s[k])
    {
      DividesMultiple(g, u, s[k]);
    }
    forall d | DividesRow(d, s)
      ensures Divides(d, g)
    {
      assert Divides(d, s[0]);
      DividesCombination(d, s[0], s[0], u, 0);
    }
    RowGcdUnique(s, g);
    ExactQuotient(a, g, u);
  }

  lemma ClearPair(p: Row, q: Row, mode: Multiplier, b: int)
    requires |p| == |q| == 2 && q[0] == 1 && Abs(p[0]) == 1
    requires b == EntryFactor(p, q, 0, mode)
    ensures ClearedRow(p, q, 0, mode) == Primitive([p[0] + b * q[0], p[1] + b * q[1]])
    ensures b == if mode == Signed && p[0] < 0 then 1 else -1
  {
    assert Gcd.Gcd(1, 1) == Gcd.Gcd(1, 0) == 1;
    ExactQuotient(1, 1, 1);
    assert Combine(p, q, 1, b) == [p[0] + b * q[0], p[1] + b * q[1]];
  }

  /** A matrix of rank one: as written, row 1 keeps its entry -1 in column 0 and column 1
      then yields a second pivot; with the sign there is one pivot and a zero row. */
  lemma MagnitudeCounterexample(M: Rows)
    requires M == [[1, 1], [-1, -1]]
    ensures IsMatrix(M, 2)
    ensures Run(M, 2, 1, Magnitude).rows[1][0] == -1
    ensures |Run(M, 2, 2, Magnitude).pivots| == 2 && |Run(M, 2, 2, Signed).pivots| == 1
  {
    PairRow(1, 1);
    PairRow(-2, 2);
    var P := WithPivot(M, 2, 0, 0, 0);
    assert P == M;
    ClearPair(M[1], M[0], Magnitude, EntryFactor(M[1], M[0], 0, Magnitude));
    ClearPair(M[1], M[0], Signed, EntryFactor(M[1], M[0], 0, Signed));
    assert Cleared(P, 2, 0, 0, Magnitude)[1] == [-1, -1];
    assert Run(M, 2, 1, Magnitude) == Step(State(M, []), 2, 0, Magnitude);
    assert FindPivot(Run(M, 2, 1, Magnitude).rows, 2, 1, 1) == 1;
    assert Run(M, 2, 1, Signed) == Step(State(M, []), 2, 0, Signed);
    ZeroPair();
    assert Cleared(P, 2, 0, 0, Signed)[1] == [0, 0];
    assert FindPivot(Run(M, 2, 1, Signed).rows, 2, 1, 1) == 2;
  }

  lemma ZeroPair()
    ensures Primitive([0, 0]) == [0, 0]
  {
    RowGcdSpec([0, 0]);
    DivideByOne([0, 0]);
  }
}
