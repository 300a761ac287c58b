// GaussSimplify: fraction-free elimination of an integer matrix, as a function of the
// matrix, and the loops that perform it in place.

module Gauss {
  import opened Arithmetic
  import opened Gcd

  type Rows = seq<Row>

  /** The multiplier of the pivot row: from magnitudes, as GaussSimplify is written, or
      with the sign of the entry to be cleared. */
  datatype Multiplier = Magnitude | Signed

  ghost predicate IsMatrix(M: Rows, n: nat) {
    forall i | 0 <= i < |M| :: |M[i]| == n
  }

  // ----- operations on rows -----

  function Negate(s: Row): Row {
    seq(|s|, k requires 0 <= k < |s| => -s[k])
  }

  /** Vector_Combine: a * p + b * q. */
  function Combine(p: Row, q: Row, a: int, b: int): Row
    requires |p| == |q|
  {
    seq(|p|, k requires 0 <= k < |p| => a * p[k] + b * q[k])
  }

  /** Vector_Exchange of two rows of a matrix. */
  function Exchange(M: Rows, i: nat, j: nat): Rows
    requires i < |M| && j < |M|
  {
    M[i := M[j]][j := M[i]]
  }

  /** The pivot row divided by its gcd, with a positive entry in column j. */
  function NormalisedPivot(s: Row, j: nat): Row
    requires j < |s|
  {
    var p := Primitive(s);
    PrimitiveEntries(s);
    if p[j] < 0 then Negate(p) else p
  }

  function PivotFactor(p: Row, q: Row, j: nat): int
    requires j < |p| && j < |q| && q[j] != 0
  {
    TruncDiv(Abs(q[j]), PairGcd(p[j], q[j]))
  }

  function PairGcd(m: int, n: int): (g: int)
    requires n != 0
    ensures g > 0
  {
    GcdZero(Abs(m), Abs(n));
    Gcd.Gcd(Abs(m), Abs(n))
  }

  function EntryFactor(p: Row, q: Row, j: nat, mode: Multiplier): int
    requires j < |p| && j < |q| && q[j] != 0
  {
    var magnitude := TruncDiv(Abs(p[j]), PairGcd(p[j], q[j]));
    if mode == Signed && p[j] < 0 then magnitude else -magnitude
  }

  /** Row p after the pivot row q has been used on column j. */
  function ClearedRow(p: Row, q: Row, j: nat, mode: Multiplier): Row
    requires |p| == |q| && j < |q| && q[j] != 0
  {
    if p[j] == 0 then p
    else Primitive(Combine(p, q, PivotFactor(p, q, j), EntryFactor(p, q, j, mode)))
  }

  // ----- one column -----

  /** The first row from r on with an entry in column j, or |M|. */
  function FindPivot(M: Rows, n: nat, r: nat, j: nat): (i: nat)
    requires IsMatrix(M, n) && j < n && r <= |M|
    ensures r <= i <= |M|
    ensures forall k | r <= k < i :: M[k][j] == 0
    ensures i < |M| ==> M[i][j] != 0
    decreases |M| - r
  {
    if r == |M| || M[r][j] != 0 then r else FindPivot(M, n, r + 1, j)
  }

  /** The matrix with the normalised pivot row in row r. */
  function WithPivot(M: Rows, n: nat, r: nat, i: nat, j: nat): (P: Rows)
    requires IsMatrix(M, n) && r <= i < |M| && j < n && M[i][j] != 0
    ensures IsMatrix(P, n) && |P| == |M| && P[r][j] > 0
  {
    NormalisedPivotSign(M[i], j);
    var E := Exchange(M, r, i);
    E[r := NormalisedPivot(E[r], j)]
  }

  /** The other rows cleared in column j. */
  function Cleared(P: Rows, n: nat, r: nat, j: nat, mode: Multiplier): (C: Rows)
    requires IsMatrix(P, n) && r < |P| && j < n && P[r][j] != 0
    ensures IsMatrix(C, n) && |C| == |P|
  {
    seq(|P|, i requires 0 <= i < |P| =>
      if i == r then P[r] else (ClearedLength(P[i], P[r], j, mode); ClearedRow(P[i], P[r], j, mode)))
  }

  // ----- the whole run -----

  /** The matrix, and the columns of the pivots found so far; Rank is their number. */
  datatype State = State(rows: Rows, pivots: seq<nat>)

  function Step(s: State, n: nat, j: nat, mode: Multiplier): (t: State)
    requires IsMatrix(s.rows, n) && j < n && |s.pivots| <= |s.rows|
    ensures IsMatrix(t.rows, n) && |t.rows| == |s.rows| && |t.pivots| <= |t.rows|
  {
    var r := |s.pivots|;
    var i := FindPivot(s.rows, n, r, j);
    if i == |s.rows| then s
    else State(Cleared(WithPivot(s.rows, n, r, i, j), n, r, j, mode), s.pivots + [j])
  }

  /** The state after the first j columns. */
  function Run(M: Rows, n: nat, j: nat, mode: Multiplier): (s: State)
    requires IsMatrix(M, n) && j <= n
    ensures IsMatrix(s.rows, n) && |s.rows| == |M| && |s.pivots| <= |M| && |s.pivots| <= j
  {
    if j == 0 then State(M, []) else Step(Run(M, n, j - 1, mode), n, j - 1, mode)
  }

  // ----- lemmas about the row operations -----

  lemma NormalisedPivotSign(s: Row, j: nat)
    requires j < |s| && s[j] != 0
    ensures |NormalisedPivot(s, j)| == |s| && NormalisedPivot(s, j)[j] > 0
  {
    PrimitiveEntries(s);
    assert s[j] == RowGcd(s) * Primitive(s)[j];
  }

  lemma ClearedLength(p: Row, q: Row, j: nat, mode: Multiplier)
    requires |p| == |q| && j < |q| && q[j] != 0
    ensures |ClearedRow(p, q, j, mode)| == |p|
  {
    if p[j] != 0 {
      PrimitiveEntries(Combine(p, q, PivotFactor(p, q, j), EntryFactor(p, q, j, mode)));
    }
  }

  /** A pivot row is a positive or negative fraction of the row it came from. */
  lemma NormalisedPivotForm(s: Row, j: nat) returns (g: int)
    requires j < |s|
    ensures g != 0 && |NormalisedPivot(s, j)| == |s|
    ensures forall k | 0 <= k < |s| :: s[k] == g * NormalisedPivot(s, j)[k]
  {
    PrimitiveEntries(s);
    var p := Primitive(s);
    if p[j] < 0 {
      g := -RowGcd(s);
      forall k | 0 <= k < |s|
        ensures s[k] == g * NormalisedPivot(s, j)[k]
      {
        NegateBoth(RowGcd(s), p[k]);
      }
    } else {
      g := RowGcd(s);
    }
  }

  lemma NegateBoth(g: int, k: int)
    ensures g * k == -g * -k
  {
  }

  /** The two factors of a clearing step: the pivot factor is positive, and the entry
      cancels when its sign is taken into account. */
  lemma FactorsForm(p: Row, q: Row, j: nat, mode: Multiplier)
    requires |p| == |q| && j < |q| && q[j] > 0 && p[j] != 0
    ensures PivotFactor(p, q, j) > 0
    ensures mode == Signed || p[j] > 0 ==> PivotFactor(p, q, j) * p[j] + EntryFactor(p, q, j, mode) * q[j] == 0
    ensures mode == Magnitude && p[j] < 0 ==>
              PivotFactor(p, q, j) * p[j] + EntryFactor(p, q, j, mode) * q[j] == 2 * (PivotFactor(p, q, j) * p[j])
  {
    var g := PairGcd(p[j], q[j]);
    GcdDivides(Abs(p[j]), Abs(q[j]));
    ExactDivision(Abs(p[j]), g);
    ExactDivision(Abs(q[j]), g);
    var m, f := TruncDiv(Abs(p[j]), g), TruncDiv(Abs(q[j]), g);
    assert PivotFactor(p, q, j) == f;
    assert EntryFactor(p, q, j, mode) == if mode == Signed && p[j] < 0 then m else -m;
    hide TruncDiv, PairGcd, PivotFactor, EntryFactor;
    CrossProducts(g, f, m, q[j], Abs(p[j]));
    NegateBoth(f, Abs(p[j]));
    NegateBoth(m, q[j]);
  }

  lemma CrossProducts(g: int, f: int, m: int, q: int, p: int)
    requires g > 0 && q > 0 && p == g * m && q == g * f
    ensures f > 0 && f * p == m * q
  {
    assert f * (g * m) == m * (g * f);
    Monotone(g, f, 0);
    Monotone(g, 0, f);
  }

  /** A cleared row is a positive multiple of the old row plus a multiple of the pivot row,
      divided by a positive number. */
  lemma ClearedForm(p: Row, q: Row, j: nat, mode: Multiplier) returns (g: int, a: int, b: int)
    requires |p| == |q| && j < |q| && q[j] > 0
    ensures g > 0 && a > 0 && |ClearedRow(p, q, j, mode)| == |p|
    ensures forall k | 0 <= k < |p| :: g * ClearedRow(p, q, j, mode)[k] == a * p[k] + b * q[k]
    ensures p[j] == 0 ==> ClearedRow(p, q, j, mode) == p
    ensures p[j] != 0 ==> RowGcd(ClearedRow(p, q, j, mode)) == 1
  {
    if p[j] == 0 {
      g, a, b := 1, 1, 0;
    } else {
      a, b := PivotFactor(p, q, j), EntryFactor(p, q, j, mode);
      FactorsForm(p, q, j, mode);
      var s := Combine(p, q, a, b);
      g := RowGcd(s);
      PrimitiveEntries(s);
      PrimitiveGcd(s);
    }
  }

  lemma ZeroQuotient(g: int, c: int)
    requires g > 0
    ensures g * c == 0 <==> c == 0
    ensures g * c > 0 <==> c > 0
  {
    Monotone(g, 0, c);
    Monotone(g, c, 0);
  }

  /** Whether a step clears the entry: always with the signed multiplier, and with the
      magnitudes exactly when the entry was not negative. */
  lemma ClearedEntry(p: Row, q: Row, j: nat, mode: Multiplier)
    requires |p| == |q| && j < |q| && q[j] > 0
    ensures |ClearedRow(p, q, j, mode)| == |p|
    ensures ClearedRow(p, q, j, mode)[j] == 0 <==> mode == Signed || p[j] >= 0
  {
    ClearedLength(p, q, j, mode);
    if p[j] != 0 {
      var a, b := PivotFactor(p, q, j), EntryFactor(p, q, j, mode);
      FactorsForm(p, q, j, mode);
      var s := Combine(p, q, a, b);
      PrimitiveEntries(s);
      assert s[j] == RowGcd(s) * ClearedRow(p, q, j, mode)[j];
      ZeroQuotient(RowGcd(s), ClearedRow(p, q, j, mode)[j]);
      assert s[j] == a * p[j] + b * q[j];
      if mode == Magnitude && p[j] < 0 {
        ZeroQuotient(a, -p[j]);
        NegateBoth(a, p[j]);
      }
    }
  }
}
