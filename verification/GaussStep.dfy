// One column of GaussSimplify as a relation between the matrix before and after, and the whole
// elimination as a chain of them. There is only one such chain.

module GaussStep {
  import opened Arithmetic
  import opened Gcd
  import opened Gauss
  import opened GaussCanonical
  import opened GaussUnique

  // ----- rows -----

  ghost predicate IsCombination(g: int, c: Row, a: int, p: Row, m: int, q: Row)
    requires |c| == |p| == |q|
  {
    forall k | 0 <= k < |c| :: g * c[k] == a * p[k] - m * q[k]
  }

  /** The multiple of the pivot row that is taken off: from the entry's magnitude, as written, or
      from the entry itself. */
  function Multiple(mode: Multiplier, entry: int): int {
    match mode
    case Magnitude => Abs(entry)
    case Signed => entry
  }

  /** c is the row that clearing column j of p by the pivot row q leaves: p itself when the entry
      is zero; or else |q[j]| times p less the multiple of q, divided by what its entries share. */
  ghost predicate IsCleared(p: Row, q: Row, j: nat, mode: Multiplier, c: Row)
    requires |p| == |q| && j < |p|
  {
    && |c| == |p|
    && if p[j] == 0 then c == p
       else RowGcd(c) == 1 && exists g :: g > 0 && IsCombination(g, c, Abs(q[j]), p, Multiple(mode, p[j]), q)
  }

  lemma SharedFactors(p: Row, q: Row, j: nat, mode: Multiplier)
    requires |p| == |q| && j < |q| && q[j] > 0 && p[j] != 0
    ensures var g := PairGcd(p[j], q[j]);
            && g > 0 && g * PivotFactor(p, q, j) == Abs(q[j])
            && g * EntryFactor(p, q, j, mode) == -Multiple(mode, p[j])
  {
    var g := PairGcd(p[j], q[j]);
    GcdDivides(Abs(p[j]), Abs(q[j]));
    ExactDivision(Abs(p[j]), g);
    ExactDivision(Abs(q[j]), g);
    NegateBoth(g, TruncDiv(Abs(p[j]), g));
  }

  lemma ScaledSum(g: int, h: int, c: int, a: int, b: int, x: int, y: int)
    requires h * c == a * x + b * y
    ensures (g * h) * c == (g * a) * x + (g * b) * y
  {
    assert (g * h) * c == g * (h * c);
    assert g * (a * x + b * y) == g * (a * x) + g * (b * y);
    Associate(g, a, x);
    Associate(g, b, y);
  }

  lemma ClearedRowIs(p: Row, q: Row, j: nat, mode: Multiplier)
    requires |p| == |q| && j < |q| && q[j] > 0
    ensures IsCleared(p, q, j, mode, ClearedRow(p, q, j, mode))
  {
    ClearedLength(p, q, j, mode);
    if p[j] != 0 {
      var a, b, g := PivotFactor(p, q, j), EntryFactor(p, q, j, mode), PairGcd(p[j], q[j]);
      var s, c := Combine(p, q, a, b), ClearedRow(p, q, j, mode);
      var h := RowGcd(s);
      SharedFactors(p, q, j, mode);
      PrimitiveEntries(s);
      PrimitiveGcd(s);
      RowGcdPositive(s);
      hide RowGcd, Primitive, ClearedRow, PivotFactor, EntryFactor, PairGcd, IsCombination;
      ProductPositive(g, h);
      CombinationOf(p, q, a, b, g, Abs(q[j]), Multiple(mode, p[j]), h, c);
    }
  }

  lemma CombinationOf(p: Row, q: Row, a: int, b: int, g: int, d: int, m: int, h: int, c: Row)
    requires |p| == |q| == |c| && g * a == d && g * b == -m
    requires forall k | 0 <= k < |c| :: Combine(p, q, a, b)[k] == h * c[k]
    ensures IsCombination(g * h, c, d, p, m, q)
  {
    forall k | 0 <= k < |c|
      ensures (g * h) * c[k] == d * p[k] - m * q[k]
    {
      assert h * c[k] == a * p[k] + b * q[k];
      ScaledSum(g, h, c[k], a, b, p[k], q[k]);
    }
  }

  /** Rows of gcd one that are positive multiples of each other are equal. */
  lemma PrimitiveEqual(c: Row, d: Row, g: int, h: int)
    requires |c| == |d| && g > 0 && h > 0 && RowGcd(c) == RowGcd(d) == 1
    requires forall k | 0 <= k < |c| :: g * c[k] == h * d[k]
    ensures c == d
  {
    var w := seq(|c|, k requires 0 <= k < |c| => g * c[k]);
    hide RowGcd;
    forall k | 0 <= k < |c|
      ensures c[k] == 0 <==> d[k] == 0
    {
      ZeroQuotient(g, c[k]);
      ZeroQuotient(h, d[k]);
    }
    if !IsZeroRow(c) {
      ScaledGcd(c, w, g);
      ScaledGcd(d, w, h);
      forall k | 0 <= k < |c|
        ensures c[k] == d[k]
      {
        CancelFactor(g, c[k], d[k]);
      }
    }
  }

  lemma ClearedUnique(p: Row, q: Row, j: nat, mode: Multiplier, c: Row, d: Row)
    requires |p| == |q| && j < |p| && IsCleared(p, q, j, mode, c) && IsCleared(p, q, j, mode, d)
    ensures c == d
  {
    if p[j] != 0 {
      var g :| g > 0 && IsCombination(g, c, Abs(q[j]), p, Multiple(mode, p[j]), q);
      var h :| h > 0 && IsCombination(h, d, Abs(q[j]), p, Multiple(mode, p[j]), q);
      hide RowGcd;
      PrimitiveEqual(c, d, g, h);
    }
  }

  // ----- the pivot row -----

  ghost predicate IsScaled(g: int, q: Row, s: Row)
    requires |q| == |s|
  {
    forall k | 0 <= k < |s| :: s[k] == g * q[k]
  }

  /** q is the row s divided by what its entries share, with a positive entry in column j. */
  ghost predicate IsPivotRow(s: Row, q: Row, j: nat) {
    |q| == |s| && j < |s| && q[j] > 0 && RowGcd(q) == 1 && exists g :: g != 0 && IsScaled(g, q, s)
  }

  lemma NormalisedIs(s: Row, j: nat)
    requires j < |s| && s[j] != 0
    ensures IsPivotRow(s, NormalisedPivot(s, j), j)
  {
    NormalisedPivotSign(s, j);
    var g := NormalisedPivotForm(s, j);
    PrimitiveGcd(s);
    NegateGcd(Primitive(s));
    assert IsScaled(g, NormalisedPivot(s, j), s);
  }

  lemma SignOfFactor(g: int, q: int)
    requires g != 0 && q > 0
    ensures g * q > 0 <==> g > 0
    ensures g * q < 0 <==> g < 0
  {
    if g > 0 {
      ZeroQuotient(g, q);
    } else {
      ZeroQuotient(-g, q);
      assert -g * q == -(g * q);
    }
  }

  lemma PivotRowUnique(s: Row, q: Row, r: Row, j: nat)
    requires IsPivotRow(s, q, j) && IsPivotRow(s, r, j)
    ensures q == r
  {
    var g :| g != 0 && IsScaled(g, q, s);
    var h :| h != 0 && IsScaled(h, r, s);
    hide RowGcd;
    assert g * q[j] == h * r[j];
    SignOfFactor(g, q[j]);
    SignOfFactor(h, r[j]);
    if g > 0 {
      PrimitiveEqual(q, r, g, h);
    } else {
      forall k | 0 <= k < |q|
        ensures -g * q[k] == -h * r[k]
      {
        assert g * q[k] == h * r[k];
        assert -g * q[k] == -(g * q[k]) && -h * r[k] == -(h * r[k]);
      }
      PrimitiveEqual(q, r, -g, -h);
    }
  }

  // ----- one column -----

  ghost predicate IsFirstEntry(M: Rows, n: nat, r: nat, j: nat, i: nat)
    requires IsMatrix(M, n) && j < n
  {
    r <= i < |M| && M[i][j] != 0 && forall k | r <= k < i :: M[k][j] == 0
  }

  ghost predicate NoEntry(M: Rows, n: nat, r: nat, j: nat)
    requires IsMatrix(M, n) && j < n
  {
    forall k | r <= k < |M| :: M[k][j] == 0
  }

  /** What row k was before the pivot row i came to place r. */
  function Source(M: Rows, r: nat, i: nat, k: nat): Row
    requires r < |M| && k < |M|
  {
    if k == i then M[r] else M[k]
  }

  /** Row i of M has become pivot row r of C, and every other row has been cleared by it. */
  ghost predicate IsPivoted(M: Rows, n: nat, r: nat, i: nat, j: nat, mode: Multiplier, C: Rows)
    requires IsMatrix(M, n) && IsMatrix(C, n) && |C| == |M| && r < |M| && i < |M| && j < n
  {
    && IsPivotRow(M[i], C[r], j)
    && forall k: nat | k < |M| && k != r :: IsCleared(Source(M, r, i, k), C[r], j, mode, C[k])
  }

  /** The states before and after one column: nothing happens when no row from the rank on has
      an entry in it; or else the first such row becomes the pivot row. */
  ghost predicate IsStep(s: State, n: nat, j: nat, mode: Multiplier, t: State) {
    && j < n && IsMatrix(s.rows, n) && IsMatrix(t.rows, n) && |t.rows| == |s.rows|
    && var r := |s.pivots|;
       if NoEntry(s.rows, n, r, j) then t == s
       else
         && t.pivots == s.pivots + [j]
         && exists i: nat :: IsFirstEntry(s.rows, n, r, j, i) && IsPivoted(s.rows, n, r, i, j, mode, t.rows)
  }

  lemma StepIs(s: State, n: nat, j: nat, mode: Multiplier)
    requires IsMatrix(s.rows, n) && j < n && |s.pivots| <= |s.rows|
    ensures IsStep(s, n, j, mode, Step(s, n, j, mode))
  {
    var r := |s.pivots|;
    var i := FindPivot(s.rows, n, r, j);
    if i < |s.rows| {
      assert IsFirstEntry(s.rows, n, r, j, i);
      PivotedIs(s.rows, n, r, i, j, mode);
      assert !NoEntry(s.rows, n, r, j) by { assert s.rows[i][j] != 0; }
    }
  }

  lemma PivotedIs(M: Rows, n: nat, r: nat, i: nat, j: nat, mode: Multiplier)
    requires IsMatrix(M, n) && r <= i < |M| && j < n && M[i][j] != 0
    ensures IsPivoted(M, n, r, i, j, mode, Cleared(WithPivot(M, n, r, i, j), n, r, j, mode))
  {
    var P := WithPivot(M, n, r, i, j);
    var C := Cleared(P, n, r, j, mode);
    NormalisedIs(M[i], j);
    hide IsPivotRow, IsCleared, NormalisedPivot, ClearedRow;
    assert C[r] == P[r] == NormalisedPivot(M[i], j);
    forall k: nat | k < |M| && k != r
      ensures IsCleared(Source(M, r, i, k), C[r], j, mode, C[k])
    {
      assert P[k] == Source(M, r, i, k) && C[k] == ClearedRow(P[k], P[r], j, mode);
      ClearedRowIs(P[k], P[r], j, mode);
    }
  }

  lemma StepUnique(s: State, n: nat, j: nat, mode: Multiplier, t: State, z: State)
    requires IsStep(s, n, j, mode, t) && IsStep(s, n, j, mode, z)
    ensures t == z
  {
    var r := |s.pivots|;
    hide IsPivotRow, IsCleared;
    if !NoEntry(s.rows, n, r, j) {
      var i: nat :| IsFirstEntry(s.rows, n, r, j, i) && IsPivoted(s.rows, n, r, i, j, mode, t.rows);
      var l: nat :| IsFirstEntry(s.rows, n, r, j, l) && IsPivoted(s.rows, n, r, l, j, mode, z.rows);
      FirstEntryUnique(s.rows, n, r, j, i, l);
      PivotRowUnique(s.rows[i], t.rows[r], z.rows[r], j);
      forall k: nat | k < |s.rows|
        ensures t.rows[k] == z.rows[k]
      {
        if k != r {
          ClearedUnique(Source(s.rows, r, i, k), t.rows[r], j, mode, t.rows[k], z.rows[k]);
        }
      }
      assert t.rows == z.rows;
    }
  }

  lemma FirstEntryUnique(M: Rows, n: nat, r: nat, j: nat, i: nat, l: nat)
    requires IsMatrix(M, n) && j < n && IsFirstEntry(M, n, r, j, i) && IsFirstEntry(M, n, r, j, l)
    ensures i == l
  {
  }

  // ----- the whole elimination -----

  /** The states from the matrix on, one column after the other. */
  ghost predicate IsElimination(M: Rows, n: nat, mode: Multiplier, ss: seq<State>) {
    |ss| == n + 1 && ss[0] == State(M, []) && forall j: nat | j < n :: StepAt(n, mode, ss, j)
  }

  ghost predicate StepAt(n: nat, mode: Multiplier, ss: seq<State>, j: nat) {
    j + 1 < |ss| && IsStep(ss[j], n, j, mode, ss[j + 1])
  }

  function Runs(M: Rows, n: nat, mode: Multiplier): (ss: seq<State>)
    requires IsMatrix(M, n)
    ensures |ss| == n + 1 && forall j: nat | j <= n :: ss[j] == Run(M, n, j, mode)
  {
    seq(n + 1, (j: int) requires 0 <= j <= n => Run(M, n, j, mode))
  }

  lemma RunIsElimination(M: Rows, n: nat, mode: Multiplier)
    requires IsMatrix(M, n)
    ensures IsElimination(M, n, mode, Runs(M, n, mode))
  {
    var ss := Runs(M, n, mode);
    hide Step, IsStep, IsMatrix;
    forall j: nat | j < n
      ensures StepAt(n, mode, ss, j)
    {
      StepIs(ss[j], n, j, mode);
      assert ss[j + 1] == Step(ss[j], n, j, mode);
    }
  }

  lemma {:induction false} EliminationUnique(M: Rows, n: nat, mode: Multiplier, ss: seq<State>, zs: seq<State>, j: nat)
    requires IsElimination(M, n, mode, ss) && IsElimination(M, n, mode, zs) && j <= n
    ensures ss[j] == zs[j]
  {
    hide IsStep;
    if j > 0 {
      EliminationUnique(M, n, mode, ss, zs, j - 1);
      assert StepAt(n, mode, ss, j - 1) && StepAt(n, mode, zs, j - 1);
      StepUnique(ss[j - 1], n, j - 1, mode, ss[j], zs[j]);
    }
  }
}
