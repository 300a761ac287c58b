// GaussSimplify and the vector routines it calls, in place on an array.

module GaussInPlace {
  import opened Gcd
  import opened Gauss
  import opened GaussCanonical
  import opened GaussKernel
  import opened GaussStep

  ghost function RowAt(m: array2<int>, i: nat): (s: Row)
    requires i < m.Length0
    reads m
    ensures |s| == m.Length1 && forall c | 0 <= c < m.Length1 :: s[c] == m[i, c]
  {
    seq(m.Length1, c requires 0 <= c < m.Length1 reads m => m[i, c])
  }

  ghost function Contents(m: array2<int>): (M: Rows)
    reads m
    ensures |M| == m.Length0 && IsMatrix(M, m.Length1)
  {
    seq(m.Length0, i requires 0 <= i < m.Length0 reads m => RowAt(m, i))
  }

  lemma ContentsAre(m: array2<int>, W: Rows)
    requires |W| == m.Length0 && IsMatrix(W, m.Length1)
    requires forall r, c | 0 <= r < m.Length0 && 0 <= c < m.Length1 :: m[r, c] == W[r][c]
    ensures Contents(m) == W
  {
    forall r | 0 <= r < m.Length0
      ensures Contents(m)[r] == W[r]
    {
      assert RowAt(m, r) == W[r];
    }
  }

  lemma ContentsEntry(m: array2<int>)
    ensures forall r, c | 0 <= r < m.Length0 && 0 <= c < m.Length1 :: m[r, c] == Contents(m)[r][c]
  {
    forall r, c | 0 <= r < m.Length0 && 0 <= c < m.Length1
      ensures m[r, c] == Contents(m)[r][c]
    {
      assert RowAt(m, r)[c] == m[r, c];
    }
  }

  // ----- vector routines -----

  /** Vector_Exchange. */
  method VectorExchange(m: array2<int>, i: nat, j: nat)
    requires i < m.Length0 && j < m.Length0
    modifies m
    ensures Contents(m) == Exchange(old(Contents(m)), i, j)
  {
    ghost var M := Contents(m);
    ContentsEntry(m);
    for k := 0 to m.Length1
      invariant forall r, c | 0 <= r < m.Length0 && 0 <= c < m.Length1 ::
                  m[r, c] == if c < k then Exchange(M, i, j)[r][c] else M[r][c]
    {
      m[i, k], m[j, k] := m[j, k], m[i, k];
    }
    ContentsAre(m, Exchange(M, i, j));
  }

  /** The smallest entry of q that is not zero, or one. */
  method VectorMinNotZero(q: array<int>) returns (index: nat, min: int)
    requires forall k | 0 <= k < q.Length :: q[k] >= 0
    ensures IsZeroRow(q[..]) ==> min == 1
    ensures !IsZeroRow(q[..]) ==> index < q.Length && q[index] == min > 0
    ensures forall k | 0 <= k < q.Length && q[k] != 0 :: min <= q[k]
  {
    index, min := 0, 1;
    var i := 0;
    while i < q.Length && q[i] == 0
      invariant i <= q.Length
      invariant forall k | 0 <= k < i :: q[k] == 0
    {
      i := i + 1;
    }
    if i == q.Length {
      return;
    }
    index, min := i, q[i];
    for k := i + 1 to q.Length
      invariant index < q.Length && q[index] == min > 0
      invariant forall l | 0 <= l < k && q[l] != 0 :: min <= q[l]
    {
      if q[k] != 0 && q[k] < min {
        index, min := k, q[k];
      }
    }
  }

  lemma RemainderDivides(d: int, x: int, m: int)
    requires m > 0 && Divides(d, m)
    ensures Divides(d, x) <==> Divides(d, x % m)
  {
    assert x * 1 + m * -(x / m) == x % m;
    assert (x % m) * 1 + m * (x / m) == x;
    if Divides(d, x) {
      DividesCombination(d, x, m, 1, -(x / m));
    }
    if Divides(d, x % m) {
      DividesCombination(d, x % m, m, 1, x / m);
    }
  }

  function Remainders(s: Row, index: nat, min: int): Row
    requires index < |s| && min > 0
  {
    seq(|s|, k requires 0 <= k < |s| => if k == index then s[k] else s[k] % min)
  }

  lemma RemaindersDivisors(s: Row, index: nat, min: int, d: int)
    requires index < |s| && min > 0 && s[index] == min
    ensures DividesRow(d, Remainders(s, index, min)) <==> DividesRow(d, s)
  {
    var t := Remainders(s, index, min);
    assert t[index] == min;
    if Divides(d, min) {
      forall k | 0 <= k < |s|
        ensures Divides(d, t[k]) <==> Divides(d, s[k])
      {
        RemainderDivides(d, s[k], min);
      }
    }
  }

  /** One pass of Vector_Gcd: every other entry becomes its remainder. */
  method ReduceOthers(q: array<int>, index: nat, min: int) returns (notZero: bool)
    requires index < q.Length && min > 0
    modifies q
    ensures q[..] == Remainders(old(q[..]), index, min)
    ensures notZero <==> exists k | 0 <= k < q.Length :: k != index && q[k] != 0
  {
    ghost var s := q[..];
    notZero := false;
    for i := 0 to q.Length
      invariant forall k | 0 <= k < q.Length :: q[k] == if k < i && k != index then s[k] % min else s[k]
      invariant notZero <==> exists k | 0 <= k < i :: k != index && q[k] != 0
    {
      if i != index {
        q[i] := q[i] % min;
        notZero := notZero || q[i] != 0;
      }
    }
  }

  /** The row and its absolute values have the same divisors. */
  lemma AbsDivisors(s: Row, t: Row, d: int)
    requires |s| == |t| && forall k | 0 <= k < |s| :: t[k] == Abs(s[k])
    ensures DividesRow(d, t) <==> DividesRow(d, s)
  {
    forall k | 0 <= k < |s|
      ensures Divides(d, t[k]) <==> Divides(d, s[k])
    {
      DividesAbs(d, s[k]);
    }
  }

  ghost predicate SameDivisors(s: Row, t: Row) {
    forall d :: DividesRow(d, t) <==> DividesRow(d, s)
  }

  lemma OnlyEntryIsGcd(s: Row, t: Row, index: nat, min: int)
    requires SameDivisors(s, t) && !IsZeroRow(s) && index < |t| && t[index] == min > 0
    requires min == 1 || forall k | 0 <= k < |t| && k != index :: t[k] == 0
    ensures RowGcd(s) == min
  {
    forall k | 0 <= k < |t|
      ensures Divides(min, t[k])
    {
      DividesMultiple(min, if min == 1 then t[k] else if k == index then 1 else 0, t[k]);
    }
    assert DividesRow(min, s);
    forall d | DividesRow(d, s)
      ensures Divides(d, min)
    {
      assert DividesRow(d, t);
    }
    RowGcdUnique(s, min);
  }

  /** Vector_Gcd of row i. */
  method VectorGcd(m: array2<int>, i: nat) returns (min: int)
    requires i < m.Length0
    ensures min == RowGcd(Contents(m)[i])
  {
    ghost var s := RowAt(m, i);
    var q := new int[m.Length1];
    for k := 0 to m.Length1
      invariant forall c | 0 <= c < k :: q[c] == Abs(s[c])
    {
      q[k] := Abs(m[i, k]);
    }
    forall d
      ensures DividesRow(d, q[..]) <==> DividesRow(d, s)
    {
      AbsDivisors(s, q[..], d);
    }
    min := ReduceToGcd(q, s);
  }

  lemma RemaindersSameDivisors(s: Row, t: Row, index: nat, min: int)
    requires SameDivisors(s, t) && index < |t| && t[index] == min > 0
    ensures SameDivisors(s, Remainders(t, index, min))
  {
    forall d
      ensures DividesRow(d, Remainders(t, index, min)) <==> DividesRow(d, s)
    {
      RemaindersDivisors(t, index, min, d);
    }
  }

  /** The loop of Vector_Gcd on the absolute values q of row s. */
  method ReduceToGcd(q: array<int>, ghost s: Row) returns (min: int)
    requires forall k | 0 <= k < q.Length :: q[k] >= 0
    requires SameDivisors(s, q[..]) && (IsZeroRow(q[..]) <==> IsZeroRow(s))
    modifies q
    ensures min == RowGcd(s)
  {
    ghost var bound: nat := 1;
    if k :| 0 <= k < q.Length && q[k] != 0 {
      bound := q[k] + 1;
    }
    RowGcdSpec(s);
    while true
      invariant forall k | 0 <= k < q.Length :: q[k] >= 0
      invariant SameDivisors(s, q[..]) && (IsZeroRow(q[..]) <==> IsZeroRow(s))
      invariant IsZeroRow(s) || exists k | 0 <= k < q.Length :: 0 != q[k] < bound
      decreases bound
    {
      var index;
      index, min := VectorMinNotZero(q);
      if min == 1 {
        if !IsZeroRow(s) {
          OnlyEntryIsGcd(s, q[..], index, 1);
        }
        return;
      }
      RemaindersSameDivisors(s, q[..], index, min);
      var notZero := ReduceOthers(q, index, min);
      assert q[..][index] == min;
      if !notZero {
        OnlyEntryIsGcd(s, q[..], index, min);
        return;
      }
      bound := min;
    }
  }

  /** Row i is divided by g, as Vector_AntiScale and the pivot normalisation do. */
  method DivideEntries(m: array2<int>, i: nat, g: int)
    requires i < m.Length0 && g > 0
    modifies m
    ensures Contents(m) == old(Contents(m))[i := DivideRow(old(Contents(m))[i], g)]
  {
    ghost var M := Contents(m);
    ghost var W := M[i := DivideRow(M[i], g)];
    ContentsEntry(m);
    for k := 0 to m.Length1
      invariant forall r, c | 0 <= r < m.Length0 && 0 <= c < m.Length1 ::
                  m[r, c] == if r == i && c < k then W[i][c] else M[r][c]
    {
      m[i, k] := TruncDiv(m[i, k], g);
    }
    ContentsAre(m, W);
  }

  method NegateEntries(m: array2<int>, i: nat)
    requires i < m.Length0
    modifies m
    ensures Contents(m) == old(Contents(m))[i := Negate(old(Contents(m))[i])]
  {
    ghost var M := Contents(m);
    ghost var W := M[i := Negate(M[i])];
    ContentsEntry(m);
    for k := 0 to m.Length1
      invariant forall r, c | 0 <= r < m.Length0 && 0 <= c < m.Length1 ::
                  m[r, c] == if r == i && c < k then W[i][c] else M[r][c]
    {
      m[i, k] := -m[i, k];
    }
    ContentsAre(m, W);
  }

  /** Vector_Combine of rows i and q into row i. */
  method VectorCombine(m: array2<int>, i: nat, q: nat, a: int, b: int)
    requires i < m.Length0 && q < m.Length0 && i != q
    modifies m
    ensures Contents(m) == old(Contents(m))[i := Combine(old(Contents(m))[i], old(Contents(m))[q], a, b)]
  {
    ghost var M := Contents(m);
    ghost var W := M[i := Combine(M[i], M[q], a, b)];
    ContentsEntry(m);
    for k := 0 to m.Length1
      invariant forall r, c | 0 <= r < m.Length0 && 0 <= c < m.Length1 ::
                  m[r, c] == if r == i && c < k then W[i][c] else M[r][c]
    {
      m[i, k] := a * m[i, k] + b * m[q, k];
    }
    ContentsAre(m, W);
  }

  /** Vector_Normalize of row i. */
  method VectorNormalize(m: array2<int>, i: nat)
    requires i < m.Length0
    modifies m
    ensures Contents(m) == old(Contents(m))[i := Primitive(old(Contents(m))[i])]
  {
    var gcd := VectorGcd(m, i);
    RowGcdPositive(Contents(m)[i]);
    DivideByOne(Contents(m)[i]);
    if gcd != 1 {
      DivideEntries(m, i, gcd);
    }
  }

  // ----- GaussSimplify -----

  /** The pivot row r is divided by its gcd and made positive in column j. */
  method NormalisePivotRow(m: array2<int>, r: nat, j: nat)
    requires r < m.Length0 && j < m.Length1
    modifies m
    ensures Contents(m) == old(Contents(m))[r := NormalisedPivot(old(Contents(m))[r], j)]
  {
    ghost var s := Contents(m)[r];
    var gcd := VectorGcd(m, r);
    RowGcdPositive(s);
    DivideByOne(s);
    if gcd >= 2 {
      DivideEntries(m, r, gcd);
    }
    assert Contents(m)[r] == Primitive(s);
    ContentsEntry(m);
    if m[r, j] < 0 {
      NegateEntries(m, r);
    }
  }

  /** The search for a pivot from row r on, down column j. */
  method SearchPivot(m: array2<int>, r: nat, j: nat) returns (i: nat)
    requires r <= m.Length0 && j < m.Length1
    ensures i == FindPivot(Contents(m), m.Length1, r, j)
  {
    ContentsEntry(m);
    i := r;
    while i < m.Length0 && m[i, j] == 0
      invariant r <= i <= m.Length0
      invariant FindPivot(Contents(m), m.Length1, r, j) == FindPivot(Contents(m), m.Length1, i, j)
    {
      i := i + 1;
    }
  }

  /** The pivot found in row i is brought to row r and normalised. */
  method PlacePivot(m: array2<int>, r: nat, i: nat, j: nat)
    requires r <= i < m.Length0 && j < m.Length1 && Contents(m)[i][j] != 0
    modifies m
    ensures Contents(m) == WithPivot(old(Contents(m)), m.Length1, r, i, j)
  {
    if i != r {
      VectorExchange(m, r, i);
    }
    NormalisePivotRow(m, r, j);
  }

  /** Row i is cleared in column j with the pivot row r. */
  method ClearRow(m: array2<int>, r: nat, i: nat, j: nat, mode: Multiplier)
    requires r < m.Length0 && i < m.Length0 && i != r && j < m.Length1 && Contents(m)[r][j] > 0
    modifies m
    ensures Contents(m) ==
            old(Contents(m))[i := ClearedRow(old(Contents(m))[i], old(Contents(m))[r], j, mode)]
    ensures IsCleared(old(Contents(m))[i], old(Contents(m))[r], j, mode, Contents(m)[i])
    ensures forall k | 0 <= k < m.Length0 && k != i :: Contents(m)[k] == old(Contents(m))[k]
  {
    ContentsEntry(m);
    ghost var p, q := Contents(m)[i], Contents(m)[r];
    ClearedRowIs(p, q, j, mode);
    hide IsCleared;
    if m[i, j] != 0 {
      var g := PairGcd(m[i, j], m[r, j]);
      var a1 := TruncDiv(Abs(m[i, j]), g);
      var a2 := TruncDiv(Abs(m[r, j]), g);
      if mode == Magnitude || m[i, j] > 0 {
        a1 := -a1;
      }
      assert a2 == PivotFactor(p, q, j) && a1 == EntryFactor(p, q, j, mode);
      VectorCombine(m, i, r, a2, a1);
      VectorNormalize(m, i);
    }
  }

  method ClearColumn(m: array2<int>, r: nat, j: nat, mode: Multiplier)
    requires r < m.Length0 && j < m.Length1 && Contents(m)[r][j] > 0
    modifies m
    ensures Contents(m) == Cleared(old(Contents(m)), m.Length1, r, j, mode)
  {
    ghost var P := Contents(m);
    ghost var C := Cleared(P, m.Length1, r, j, mode);
    hide Contents, ClearedRow;
    for i := 0 to m.Length0
      invariant forall k | 0 <= k < m.Length0 :: Contents(m)[k] == if k < i then C[k] else P[k]
    {
      if i != r {
        ClearRow(m, r, i, j, mode);
      }
    }
    assert Contents(m) == C;
  }

  /** The array holds this state: the rows, the rank and the pivot columns. */
  ghost predicate Holds(m: array2<int>, columnIndex: array<nat>, rank: nat, s: State)
    reads m, columnIndex
  {
    Contents(m) == s.rows && rank == |s.pivots| <= columnIndex.Length && columnIndex[..rank] == s.pivots
  }

  /** The body of the loop on the columns. */
  method EliminateColumn(m: array2<int>, columnIndex: array<nat>, rank: nat, j: nat, mode: Multiplier, ghost s: State)
    returns (newRank: nat)
    requires rank <= m.Length0 && j < m.Length1 && rank < columnIndex.Length
    requires Holds(m, columnIndex, rank, s)
    modifies m, columnIndex
    ensures rank <= |s.rows| && Holds(m, columnIndex, newRank, Step(s, m.Length1, j, mode))
    ensures newRank <= columnIndex.Length
    ensures IsStep(s, m.Length1, j, mode, State(Contents(m), columnIndex[..newRank]))
  {
    ContentsAreMatrix(m);
    StepIs(s, m.Length1, j, mode);
    hide Contents, WithPivot, Cleared, IsMatrix, IsStep;
    newRank := rank;
    var i := SearchPivot(m, rank, j);
    if i != m.Length0 {
      PlacePivot(m, rank, i, j);
      ClearColumn(m, rank, j, mode);
      columnIndex[rank] := j;
      newRank := rank + 1;
      assert columnIndex[..newRank] == s.pivots + [j];
    }
  }

  lemma RunStart(M: Rows, n: nat, mode: Multiplier)
    requires IsMatrix(M, n)
    ensures Run(M, n, 0, mode) == State(M, [])
  {
  }

  lemma RunStep(M: Rows, n: nat, j: nat, mode: Multiplier)
    requires IsMatrix(M, n) && j < n
    ensures Run(M, n, j + 1, mode) == Step(Run(M, n, j, mode), n, j, mode)
  {
  }

  lemma HoldsState(m: array2<int>, columnIndex: array<nat>, rank: nat, s: State)
    requires Holds(m, columnIndex, rank, s)
    ensures rank <= columnIndex.Length && State(Contents(m), columnIndex[..rank]) == s
  {
  }

  lemma HoldsRank(m: array2<int>, columnIndex: array<nat>, rank: nat, s: State)
    requires Holds(m, columnIndex, rank, s)
    ensures rank == |s.pivots|
  {
  }

  /** What the run means for the matrix: the same solutions, and a canonical form, with the
      multiplier as written exactly when no step met a negative entry to clear. */
  lemma RunMeans(M: Rows, n: nat, mode: Multiplier)
    requires IsMatrix(M, n)
    ensures var s := Run(M, n, n, mode);
            && (forall v :: Solves(s.rows, n, v) <==> Solves(M, n, v))
            && (Reduced(s, n, n) <==> mode == Signed || MeetsNothingNegative(M, n, n))
  {
    hide Solves, Reduced, MeetsNothingNegative, Run;
    forall v
      ensures Solves(Run(M, n, n, mode).rows, n, v) <==> Solves(M, n, v)
    {
      RunKeepsSolutions(M, n, n, mode, v);
    }
    SignedRunReduced(M, n, n);
    MagnitudeReducedIff(M, n, n);
  }

  lemma ContentsAreMatrix(m: array2<int>)
    ensures IsMatrix(Contents(m), m.Length1)
  {
  }

  /** GaussSimplify on its first matrix: the rows, the rank and the pivot columns of Run, and
      what they mean. */
  method GaussSimplify(m: array2<int>, mode: Multiplier) returns (rank: nat, columnIndex: array<nat>)
    modifies m
    ensures Holds(m, columnIndex, rank, Run(old(Contents(m)), m.Length1, m.Length1, mode))
    ensures exists ss :: IsElimination(old(Contents(m)), m.Length1, mode, ss) && Holds(m, columnIndex, rank, ss[m.Length1])
    ensures forall v :: Solves(Contents(m), m.Length1, v) <==> Solves(old(Contents(m)), m.Length1, v)
    ensures rank <= columnIndex.Length
    ensures Reduced(State(Contents(m), columnIndex[..rank]), m.Length1, m.Length1) <==>
            mode == Signed || MeetsNothingNegative(old(Contents(m)), m.Length1, m.Length1)
  {
    ghost var M := Contents(m);
    ghost var n := m.Length1;
    columnIndex := new nat[m.Length1];
    rank := 0;
    ContentsAreMatrix(m);
    RunStart(M, n, mode);
    hide Contents, Step, Run, IsMatrix;
    for j := 0 to m.Length1
      invariant Holds(m, columnIndex, rank, Run(M, n, j, mode))
    {
      hide *;
      HoldsRank(m, columnIndex, rank, Run(M, n, j, mode));
      RunStep(M, n, j, mode);
      rank := EliminateColumn(m, columnIndex, rank, j, mode, Run(M, n, j, mode));
    }
    HoldsState(m, columnIndex, rank, Run(M, n, n, mode));
    RunMeans(M, n, mode);
    ContentsAreMatrix(m);
    RunIsElimination(M, n, mode);
    assert Runs(M, n, mode)[n] == Run(M, n, n, mode);
  }
}
