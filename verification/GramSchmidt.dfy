// Modified Gram-Schmidt as in `gramschmidt`: the columns of A are orthogonalised in place
// while Q and R are filled. Entries are exact reals and `root` is an exact square root.

module GramSchmidt {
  import opened Sums

  /** V(k, i, j) is cell (i, j) of A after the first k steps. */
  type Tower = (int, int, int) -> real

  ghost predicate IsRoot(root: real -> real) {
    forall s: real :: s >= 0.0 ==> root(s) >= 0.0 && root(s) * root(s) == s
  }

  function Inner(m: nat, f: Vec, g: Vec): real {
    Sum(m, i => f(i) * g(i))
  }

  function Column(F: Matrix, j: int): Vec { i => F(i, j) }

  function TowerColumn(V: Tower, k: int, j: int): Vec { i => V(k, i, j) }

  lemma InnerCong(m: nat, f: Vec, f': Vec, g: Vec, g': Vec)
    requires forall i | 0 <= i < m :: f(i) == f'(i) && g(i) == g'(i)
    ensures Inner(m, f, g) == Inner(m, f', g')
  {
    SumCong(m, i => f(i) * g(i), i => f'(i) * g'(i));
  }

  // ----- reference: every intermediate value of the nest -----

  datatype Input = Input(A: Matrix, m: nat, root: real -> real) {

    /** Cell (i, j) of A after k steps; column j takes part in steps below j only. */
    ghost function State(k: nat, i: int, j: int): real
      decreases k, 0
    {
      if k == 0 then A(i, j)
      else if j < k then State(k - 1, i, j)
      else State(k - 1, i, j) - Unit(k - 1, i) * Coefficient(k - 1, j)
    }

    ghost function Norm(k: nat): real
      decreases k, 1
    {
      root(Inner(m, i => State(k, i, k), i => State(k, i, k)))
    }

    /** Cell (i, k) of Q. */
    ghost function Unit(k: nat, i: int): real
      decreases k, 2
    {
      if Norm(k) == 0.0 then 0.0 else State(k, i, k) / Norm(k)
    }

    /** Cell (k, j) of R. */
    ghost function Coefficient(k: nat, j: int): real
      decreases k, 3
    {
      if j == k then Norm(k)
      else if j < k then 0.0
      else Inner(m, i => Unit(k, i), i => State(k, i, j))
    }

    ghost function Tower(): Tower {
      (k: int, i: int, j: int) => if k < 0 then 0.0 else State(k, i, j)
    }

    ghost function Q(): Matrix {
      (i: int, k: int) => if k < 0 then 0.0 else Unit(k, i)
    }

    ghost function R(): Matrix {
      (k: int, j: int) => if k < 0 then 0.0 else Coefficient(k, j)
    }

    ghost predicate NonzeroNorms(n: nat) {
      forall k: nat | k < n :: Norm(k) != 0.0
    }
  }

  // ----- the equations of one step, for any candidate matrices -----

  ghost predicate DiagonalAt(m: nat, V: Tower, R: Matrix, root: real -> real, k: int) {
    R(k, k) == root(Inner(m, TowerColumn(V, k, k), TowerColumn(V, k, k))) && R(k, k) != 0.0
  }

  ghost predicate UnitAt(V: Tower, Q: Matrix, R: Matrix, i: int, k: int) {
    R(k, k) != 0.0 && Q(i, k) == V(k, i, k) / R(k, k)
  }

  ghost predicate CoefficientAt(m: nat, V: Tower, Q: Matrix, R: Matrix, k: int, j: int) {
    R(k, j) == if k < j then Inner(m, Column(Q, k), TowerColumn(V, k, j)) else 0.0
  }

  ghost predicate StepAt(V: Tower, Q: Matrix, R: Matrix, k: int, i: int, j: int) {
    V(k + 1, i, j) == if k < j then V(k, i, j) - Q(i, k) * R(k, j) else V(k, i, j)
  }

  /** All the equations of step k. */
  ghost predicate StepEquations(m: nat, root: real -> real, V: Tower, Q: Matrix, R: Matrix, k: int) {
    && DiagonalAt(m, V, R, root, k)
    && (forall i :: UnitAt(V, Q, R, i, k))
    && (forall j | 0 <= j && k != j :: CoefficientAt(m, V, Q, R, k, j))
    && (forall i, j :: StepAt(V, Q, R, k, i, j))
  }

  ghost predicate Orthogonalised(A: Matrix, m: nat, n: nat, root: real -> real, V: Tower, Q: Matrix, R: Matrix) {
    && (forall i, j :: V(0, i, j) == A(i, j))
    && (forall k | 0 <= k < n :: StepEquations(m, root, V, Q, R, k))
  }

  lemma ReferenceStep(x: Input, k: nat, V: Tower, Q: Matrix, R: Matrix)
    requires x.Norm(k) != 0.0 && V == x.Tower() && Q == x.Q() && R == x.R()
    ensures StepEquations(x.m, x.root, V, Q, R, k)
  {
    ReferenceDiagonal(x, k, V, R);
    forall j | 0 <= j && k != j
      ensures CoefficientAt(x.m, V, Q, R, k, j)
    {
      ReferenceCoefficient(x, k, j, V, Q, R);
    }
  }

  lemma ReferenceOrthogonalised(x: Input, n: nat, V: Tower, Q: Matrix, R: Matrix)
    requires x.NonzeroNorms(n) && V == x.Tower() && Q == x.Q() && R == x.R()
    ensures Orthogonalised(x.A, x.m, n, x.root, V, Q, R)
  {
    forall k | 0 <= k < n
      ensures StepEquations(x.m, x.root, V, Q, R, k)
    {
      ReferenceStep(x, k, V, Q, R);
    }
  }

  lemma ReferenceDiagonal(x: Input, k: nat, V: Tower, R: Matrix)
    requires x.Norm(k) != 0.0 && V == x.Tower() && R == x.R()
    ensures DiagonalAt(x.m, V, R, x.root, k)
  {
    InnerCong(x.m, i => x.State(k, i, k), TowerColumn(V, k, k), i => x.State(k, i, k), TowerColumn(V, k, k));
  }

  lemma ReferenceCoefficient(x: Input, k: nat, j: int, V: Tower, Q: Matrix, R: Matrix)
    requires 0 <= j && k != j && V == x.Tower() && Q == x.Q() && R == x.R()
    ensures CoefficientAt(x.m, V, Q, R, k, j)
  {
    if k < j {
      InnerCong(x.m, i => x.Unit(k, i), Column(Q, k), i => x.State(k, i, j), TowerColumn(V, k, j));
    }
  }

  // ----- the loops -----

  /** The accumulation of the squared norm of column k. */
  method SquaredNorm(m: nat, a: array2<real>, k: nat, ghost v: Vec) returns (nrm: real)
    requires m <= a.Length0 && k < a.Length1
    requires forall i | 0 <= i < m :: a[i, k] == v(i)
    ensures nrm == Inner(m, v, v)
  {
    nrm := 0.0;
    for i := 0 to m
      invariant nrm == Inner(i, v, v)
    {
      nrm := nrm + a[i, k] * a[i, k];
    }
  }

  /** Column k of Q is column k of A divided by its norm. */
  method Normalise(m: nat, a: array2<real>, q: array2<real>, k: nat, norm: real, ghost V: Tower, ghost Q: Matrix, ghost R: Matrix)
    requires a.Length0 == q.Length0 == m && k < a.Length1 && k < q.Length1 && a != q
    requires norm == R(k, k)
    requires forall i | 0 <= i < m :: a[i, k] == V(k, i, k)
    requires forall i | 0 <= i < m :: UnitAt(V, Q, R, i, k)
    requires norm != 0.0
    modifies q
    ensures forall i, c | 0 <= i < m && 0 <= c < q.Length1 :: q[i, c] == if c == k then Q(i, k) else old(q[i, c])
  {
    for i := 0 to m
      invariant forall r, c | 0 <= r < m && 0 <= c < q.Length1 ::
                  q[r, c] == if c == k && r < i then Q(r, k) else old(q[r, c])
    {
      assert UnitAt(V, Q, R, i, k);
      q[i, k] := a[i, k] / norm;
    }
  }

  /** R[k][j] accumulates the inner product of column k of Q and column j of A. */
  method Project(m: nat, a: array2<real>, q: array2<real>, r: array2<real>, k: nat, j: nat, ghost f: Vec, ghost g: Vec)
    requires a.Length0 == q.Length0 == m && j < a.Length1 && k < q.Length1
    requires k < r.Length0 && j < r.Length1 && r != a && r != q
    requires forall i | 0 <= i < m :: q[i, k] == f(i) && a[i, j] == g(i)
    modifies r
    ensures forall s, c | 0 <= s < r.Length0 && 0 <= c < r.Length1 ::
              r[s, c] == if s == k && c == j then Inner(m, f, g) else old(r[s, c])
  {
    r[k, j] := 0.0;
    for i := 0 to m
      invariant forall s, c | 0 <= s < r.Length0 && 0 <= c < r.Length1 ::
                  r[s, c] == if s == k && c == j then Inner(i, f, g) else old(r[s, c])
    {
      r[k, j] := r[k, j] + q[i, k] * a[i, j];
    }
  }

  /** Column j of A loses its component along column k of Q. */
  method Subtract(m: nat, a: array2<real>, q: array2<real>, r: array2<real>, k: nat, j: nat,
                  ghost V: Tower, ghost Q: Matrix, ghost R: Matrix)
    requires a.Length0 == q.Length0 == m && k < j < a.Length1 && k < q.Length1
    requires k < r.Length0 && j < r.Length1 && r != a && a != q
    requires r[k, j] == R(k, j)
    requires forall i | 0 <= i < m :: q[i, k] == Q(i, k) && a[i, j] == V(k, i, j) && StepAt(V, Q, R, k, i, j)
    modifies a
    ensures forall i, c | 0 <= i < m && 0 <= c < a.Length1 ::
              a[i, c] == if c == j then V(k + 1, i, j) else old(a[i, c])
  {
    for i := 0 to m
      invariant forall s, c | 0 <= s < m && 0 <= c < a.Length1 ::
                  a[s, c] == if c == j && s < i then V(k + 1, s, j) else old(a[s, c])
    {
      assert StepAt(V, Q, R, k, i, j);
      a[i, j] := a[i, j] - q[i, k] * r[k, j];
    }
  }

  /** Column j of A after k steps, all rows. */
  ghost predicate ColumnsHold(m: nat, n: nat, a: array2<real>, V: Tower, k: nat)
    requires a.Length0 == m && a.Length1 == n
    reads a
  {
    forall i, j | 0 <= i < m && 0 <= j < n :: a[i, j] == V(k, i, j)
  }

  /** The rows of R below k hold R from the diagonal on and are untouched before it. */
  ghost predicate RowsHold(n: nat, r: array2<real>, R: Matrix, k: int, was: seq<seq<real>>)
    requires n <= r.Length0 && r.Length1 == n
    requires |was| == r.Length0 && forall s | 0 <= s < r.Length0 :: |was[s]| == n
    reads r
  {
    forall s, c | 0 <= s < r.Length0 && 0 <= c < n :: r[s, c] == if s < k && s <= c then R(s, c) else was[s][c]
  }

  /** The inner nest of step k over the later columns. */
  method Deflate(m: nat, n: nat, a: array2<real>, q: array2<real>, r: array2<real>, k: nat,
                 ghost V: Tower, ghost Q: Matrix, ghost R: Matrix)
    requires a.Length0 == q.Length0 == m && a.Length1 == q.Length1 == r.Length1 == n && n <= r.Length0
    requires a != q && a != r && q != r && k < n
    requires forall j | 0 <= j && k != j :: CoefficientAt(m, V, Q, R, k, j)
    requires forall i, j :: StepAt(V, Q, R, k, i, j)
    requires ColumnsHold(m, n, a, V, k)
    requires forall i | 0 <= i < m :: q[i, k] == Q(i, k)
    modifies a, r
    ensures forall i, c | 0 <= i < m && 0 <= c < n :: a[i, c] == if k < c then V(k + 1, i, c) else V(k, i, c)
    ensures forall s, c | 0 <= s < r.Length0 && 0 <= c < n :: r[s, c] == if s == k < c then R(s, c) else old(r[s, c])
  {
    for j := k + 1 to n
      invariant forall i, c | 0 <= i < m && 0 <= c < n :: a[i, c] == if k < c < j then V(k + 1, i, c) else V(k, i, c)
      invariant forall s, c | 0 <= s < r.Length0 && 0 <= c < n ::
                  r[s, c] == if s == k < c < j then R(s, c) else old(r[s, c])
    {
      assert CoefficientAt(m, V, Q, R, k, j);
      Project(m, a, q, r, k, j, Column(Q, k), TowerColumn(V, k, j));
      Subtract(m, a, q, r, k, j, V, Q, R);
    }
  }

  /** The first half of step k: the norm of column k and the unit column. */
  method NormaliseColumn(m: nat, n: nat, a: array2<real>, q: array2<real>, r: array2<real>, root: real -> real, k: nat,
                         ghost V: Tower, ghost Q: Matrix, ghost R: Matrix) returns (nrm: real)
    requires a.Length0 == q.Length0 == m && a.Length1 == q.Length1 == r.Length1 == n && n <= r.Length0
    requires a != q && a != r && q != r && k < n
    requires DiagonalAt(m, V, R, root, k)
    requires forall i | 0 <= i < m :: UnitAt(V, Q, R, i, k)
    requires forall i | 0 <= i < m :: a[i, k] == V(k, i, k)
    modifies q, r
    ensures forall i, c | 0 <= i < m && 0 <= c < n :: q[i, c] == if c == k then Q(i, c) else old(q[i, c])
    ensures forall s, c | 0 <= s < r.Length0 && 0 <= c < n :: r[s, c] == if s == k == c then R(s, c) else old(r[s, c])
  {
    nrm := SquaredNorm(m, a, k, TowerColumn(V, k, k));
    hide UnitAt;
    r[k, k] := root(nrm);
    Normalise(m, a, q, k, r[k, k], V, Q, R);
  }

  /** One whole step k. */
  method FactorStep(m: nat, n: nat, a: array2<real>, q: array2<real>, r: array2<real>, root: real -> real, k: nat,
                    ghost V: Tower, ghost Q: Matrix, ghost R: Matrix) returns (nrm: real)
    requires a.Length0 == q.Length0 == m && a.Length1 == q.Length1 == r.Length1 == n && n <= r.Length0
    requires a != q && a != r && q != r && k < n
    requires StepEquations(m, root, V, Q, R, k)
    requires ColumnsHold(m, n, a, V, k)
    modifies a, q, r
    ensures ColumnsHold(m, n, a, V, k + 1)
    ensures forall i, c | 0 <= i < m && 0 <= c < n :: q[i, c] == if c == k then Q(i, c) else old(q[i, c])
    ensures forall s, c | 0 <= s < r.Length0 && 0 <= c < n :: r[s, c] == if s == k <= c then R(s, c) else old(r[s, c])
  {
    hide DiagonalAt, UnitAt, CoefficientAt, StepAt;
    nrm := NormaliseColumn(m, n, a, q, r, root, k, V, Q, R);
    Deflate(m, n, a, q, r, k, V, Q, R);
    StepsHold(m, n, a, k, V, Q, R);
  }

  lemma StepsHold(m: nat, n: nat, a: array2<real>, k: nat, V: Tower, Q: Matrix, R: Matrix)
    requires a.Length0 == m && a.Length1 == n
    requires forall i, c | 0 <= i < m && 0 <= c < n :: a[i, c] == if k < c then V(k + 1, i, c) else V(k, i, c)
    requires forall i, j :: StepAt(V, Q, R, k, i, j)
    ensures ColumnsHold(m, n, a, V, k + 1)
  {
    forall i, c | 0 <= i < m && 0 <= c < n
      ensures a[i, c] == V(k + 1, i, c)
    {
      assert StepAt(V, Q, R, k, i, c);
    }
  }

  /** The nest with its outcome named in advance. */
  method Factor(m: nat, n: nat, a: array2<real>, q: array2<real>, r: array2<real>, root: real -> real,
                ghost A: Matrix, ghost V: Tower, ghost Q: Matrix, ghost R: Matrix) returns (nrm: real)
    requires a.Length0 == q.Length0 == m && a.Length1 == q.Length1 == r.Length1 == n && n <= r.Length0
    requires a != q && a != r && q != r
    requires Orthogonalised(A, m, n, root, V, Q, R)
    requires ColumnsHold(m, n, a, V, 0)
    modifies a, q, r
    ensures forall i, k | 0 <= i < m && 0 <= k < n :: q[i, k] == Q(i, k)
    ensures RowsHold(n, r, R, n, old(Rows(r)))
    ensures ColumnsHold(m, n, a, V, n)
  {
    hide StepEquations;
    ghost var was := Rows(r);
    nrm := 0.0;
    for k := 0 to n
      invariant ColumnsHold(m, n, a, V, k)
      invariant forall i, c | 0 <= i < m && 0 <= c < k :: q[i, c] == Q(i, c)
      invariant RowsHold(n, r, R, k, was)
    {
      assert StepEquations(m, root, V, Q, R, k);
      nrm := FactorStep(m, n, a, q, r, root, k, V, Q, R);
    }
  }
}
