// What modified Gram-Schmidt computes: A = Q R with R upper triangular and the columns of
// Q orthonormal, and the norms are nonzero exactly when the columns are independent.

module OrthonormalFactors {
  import opened Sums
  import opened GramSchmidt

  /** Inner products are linear in their second argument. */
  lemma {:induction false} InnerCombine(m: nat, f: Vec, g: Vec, h: Vec, c: real, u: Vec)
    requires forall i | 0 <= i < m :: u(i) == g(i) - h(i) * c
    ensures Inner(m, f, u) == Inner(m, f, g) - Inner(m, f, h) * c
  {
    if m > 0 {
      InnerCombine(m - 1, f, g, h, c, u);
      InnerLast(m, f, u);
      InnerLast(m, f, g);
      InnerLast(m, f, h);
      Spread(f(m - 1), g(m - 1), h(m - 1), c);
    }
  }

  lemma Spread(p: real, q: real, r: real, c: real)
    ensures p * (q - r * c) == p * q - p * r * c
  {
  }

  lemma InnerLast(m: nat, f: Vec, g: Vec)
    requires m > 0
    ensures Inner(m, f, g) == Inner(m - 1, f, g) + f(m - 1) * g(m - 1)
  {
    var p: Vec := i => f(i) * g(i);
    assert Inner(m, f, g) == Sum(m - 1, p) + p(m - 1);
  }

  lemma InnerSymmetric(m: nat, f: Vec, g: Vec)
    ensures Inner(m, f, g) == Inner(m, g, f)
  {
    SumCong(m, i => f(i) * g(i), i => g(i) * f(i));
  }

  lemma {:induction false} InnerScaled(m: nat, f: Vec, g: Vec, c: real, u: Vec)
    requires forall i | 0 <= i < m :: u(i) * c == g(i)
    ensures Inner(m, f, u) * c == Inner(m, f, g)
  {
    if m > 0 {
      InnerScaled(m - 1, f, g, c, u);
      InnerLast(m, f, u);
      InnerLast(m, f, g);
      assert f(m - 1) * u(m - 1) * c == f(m - 1) * g(m - 1);
    }
  }

  // ----- A = Q R -----

  /** Column j before it is normalised: the original less its first k components. */
  lemma {:induction false} Telescope(A: Matrix, m: nat, n: nat, root: real -> real,
                                     V: Tower, Q: Matrix, R: Matrix, k: nat, i: int, j: int)
    requires Orthogonalised(A, m, n, root, V, Q, R) && k <= j && k <= n
    ensures A(i, j) == V(k, i, j) + Dot(Q, R, i, j, k)
  {
    hide DiagonalAt, UnitAt, CoefficientAt;
    if k > 0 {
      Telescope(A, m, n, root, V, Q, R, k - 1, i, j);
      assert StepEquations(m, root, V, Q, R, k - 1);
      assert StepAt(V, Q, R, k - 1, i, j);
      DotLast(Q, R, i, j, k);
    }
  }

  lemma FactorsMultiplyBack(A: Matrix, m: nat, n: nat, root: real -> real, V: Tower, Q: Matrix, R: Matrix, i: int, j: int)
    requires Orthogonalised(A, m, n, root, V, Q, R) && 0 <= j < n
    ensures Dot(Q, R, i, j, n) == A(i, j)
  {
    Telescope(A, m, n, root, V, Q, R, j, i, j);
    assert Q(i, j) * R(j, j) == V(j, i, j) by {
      assert StepEquations(m, root, V, Q, R, j);
      UnitTimesNorm(m, root, V, Q, R, j);
      assert Column(Q, j)(i) * R(j, j) == TowerColumn(V, j, j)(i);
    }
    BelowDiagonal(A, m, n, root, V, Q, R, j);
    hide Orthogonalised;
    DotLast(Q, R, i, j, j + 1);
    DotTail(Q, R, i, j, j + 1, n);
  }

  lemma BelowDiagonal(A: Matrix, m: nat, n: nat, root: real -> real, V: Tower, Q: Matrix, R: Matrix, j: int)
    requires Orthogonalised(A, m, n, root, V, Q, R) && 0 <= j < n
    ensures forall k | j < k < n :: R(k, j) == 0.0
  {
    hide DiagonalAt, UnitAt, StepAt;
    forall k | j < k < n
      ensures R(k, j) == 0.0
    {
      assert StepEquations(m, root, V, Q, R, k);
      assert CoefficientAt(m, V, Q, R, k, j);
    }
  }

  // ----- the columns of Q are orthonormal -----

  lemma UnitColumn(m: nat, root: real -> real, V: Tower, Q: Matrix, R: Matrix, k: int)
    requires IsRoot(root) && StepEquations(m, root, V, Q, R, k)
    ensures Inner(m, Column(Q, k), Column(Q, k)) == 1.0
  {
    var q, v, r := Column(Q, k), TowerColumn(V, k, k), R(k, k);
    assert DiagonalAt(m, V, R, root, k);
    UnitTimesNorm(m, root, V, Q, R, k);
    hide Inner, StepEquations, IsRoot;
    InnerScaled(m, q, v, r, q);
    InnerSymmetric(m, q, v);
    InnerScaled(m, v, v, r, q);
    SquareNonnegative(m, v);
    RootSquared(root, Inner(m, v, v), r);
    Cancel(Inner(m, q, q), Inner(m, v, q), r, Inner(m, v, v));
  }

  lemma RootSquared(root: real -> real, s: real, r: real)
    requires IsRoot(root) && s >= 0.0 && r == root(s)
    ensures r * r == s
  {
  }

  lemma Cancel(p: real, t: real, r: real, s: real)
    requires r != 0.0 && p * r == t && t * r == s && r * r == s
    ensures p == 1.0
  {
    assert (t - r) * r == 0.0;
    assert t == r;
    assert (p - 1.0) * r == 0.0;
  }

  lemma PositiveProduct(p: real, q: real, t: real)
    requires p > 0.0 && q > 0.0 && t == p * q
    ensures t > 0.0
  {
  }

  lemma SquareSign(p: real, t: real)
    requires t == p * p
    ensures t >= 0.0
    ensures p != 0.0 ==> t > 0.0
  {
    if p > 0.0 {
      PositiveProduct(p, p, t);
    } else if p < 0.0 {
      PositiveProduct(-p, -p, t);
    }
  }

  lemma AddSquare(s: real, p: real, t: real)
    requires s >= 0.0 && t == s + p * p
    ensures t >= 0.0
    ensures s > 0.0 || p != 0.0 ==> t > 0.0
  {
    SquareSign(p, p * p);
  }

  lemma RootZero(root: real -> real, s: real)
    requires IsRoot(root) && s >= 0.0 && root(s) == 0.0
    ensures s == 0.0
  {
    assert root(s) * root(s) == s;
  }

  lemma UnitTimesNorm(m: nat, root: real -> real, V: Tower, Q: Matrix, R: Matrix, k: int)
    requires StepEquations(m, root, V, Q, R, k)
    ensures forall i :: Column(Q, k)(i) * R(k, k) == TowerColumn(V, k, k)(i)
  {
    forall i
      ensures Column(Q, k)(i) * R(k, k) == TowerColumn(V, k, k)(i)
    {
      assert UnitAt(V, Q, R, i, k);
    }
  }

  lemma {:induction false} SquareNonnegative(m: nat, v: Vec)
    ensures Inner(m, v, v) >= 0.0
    ensures forall i | 0 <= i < m && v(i) != 0.0 :: Inner(m, v, v) > 0.0
  {
    if m > 0 {
      SquareNonnegative(m - 1, v);
      InnerLast(m, v, v);
      AddSquare(Inner(m - 1, v, v), v(m - 1), Inner(m, v, v));
      forall i | 0 <= i < m && v(i) != 0.0
        ensures Inner(m, v, v) > 0.0
      {
        assert i < m - 1 ==> Inner(m - 1, v, v) > 0.0;
        assert i == m - 1 ==> v(m - 1) != 0.0;
      }
    }
  }

  /** One step removes the component along its unit column and keeps the others. */
  lemma StepInner(m: nat, root: real -> real, V: Tower, Q: Matrix, R: Matrix, k: int, j: int, f: Vec)
    requires StepEquations(m, root, V, Q, R, k) && k < j
    ensures Inner(m, f, TowerColumn(V, k + 1, j)) ==
            Inner(m, f, TowerColumn(V, k, j)) - Inner(m, f, Column(Q, k)) * R(k, j)
  {
    hide DiagonalAt, UnitAt, CoefficientAt;
    forall i | 0 <= i < m
      ensures TowerColumn(V, k + 1, j)(i) == TowerColumn(V, k, j)(i) - Column(Q, k)(i) * R(k, j)
    {
      assert StepAt(V, Q, R, k, i, j);
    }
    InnerCombine(m, f, TowerColumn(V, k, j), Column(Q, k), R(k, j), TowerColumn(V, k + 1, j));
  }

  /** After k steps column j is orthogonal to every unit column found so far. */
  lemma {:induction false} OrthogonalToEarlier(A: Matrix, m: nat, n: nat, root: real -> real,
                                               V: Tower, Q: Matrix, R: Matrix, a: nat, k: nat, j: nat)
    requires IsRoot(root) && Orthogonalised(A, m, n, root, V, Q, R) && a < k <= j < n
    ensures Inner(m, Column(Q, a), TowerColumn(V, k, j)) == 0.0
    decreases k, 0
  {
    hide IsRoot;
    var p := k - 1;
    assert StepEquations(m, root, V, Q, R, p);
    StepInner(m, root, V, Q, R, p, j, Column(Q, a));
    if a == p {
      UnitColumn(m, root, V, Q, R, p);
      assert CoefficientAt(m, V, Q, R, p, j);
    } else {
      OrthogonalToEarlier(A, m, n, root, V, Q, R, a, p, j);
      OrthogonalColumns(A, m, n, root, V, Q, R, a, p);
    }
  }

  lemma {:induction false} OrthogonalColumns(A: Matrix, m: nat, n: nat, root: real -> real,
                                             V: Tower, Q: Matrix, R: Matrix, a: nat, b: nat)
    requires IsRoot(root) && Orthogonalised(A, m, n, root, V, Q, R) && a < b < n
    ensures Inner(m, Column(Q, a), Column(Q, b)) == 0.0
    decreases b, 1
  {
    hide IsRoot;
    OrthogonalToEarlier(A, m, n, root, V, Q, R, a, b, b);
    assert StepEquations(m, root, V, Q, R, b);
    assert R(b, b) != 0.0;
    UnitTimesNorm(m, root, V, Q, R, b);
    InnerScaled(m, Column(Q, a), TowerColumn(V, b, b), R(b, b), Column(Q, b));
  }

  ghost predicate OrthonormalColumns(Q: Matrix, m: nat, n: nat) {
    forall a, b | 0 <= a < n && 0 <= b < n ::
      Inner(m, Column(Q, a), Column(Q, b)) == if a == b then 1.0 else 0.0
  }

  ghost predicate UpperTriangular(R: Matrix, n: nat) {
    forall k, j | 0 <= j < k < n :: R(k, j) == 0.0
  }

  /** The main theorem: with nonzero norms, A = Q R, Q orthonormal, R upper triangular. */
  lemma QrFactorisation(x: Input, n: nat)
    requires IsRoot(x.root) && x.NonzeroNorms(n)
    ensures forall i, j | 0 <= i < x.m && 0 <= j < n :: Dot(x.Q(), x.R(), i, j, n) == x.A(i, j)
    ensures OrthonormalColumns(x.Q(), x.m, n)
    ensures UpperTriangular(x.R(), n)
  {
    hide IsRoot;
    ReferenceOrthogonalised(x, n, x.Tower(), x.Q(), x.R());
    hide Orthogonalised;
    forall i, j | 0 <= i < x.m && 0 <= j < n
      ensures Dot(x.Q(), x.R(), i, j, n) == x.A(i, j)
    {
      FactorsMultiplyBack(x.A, x.m, n, x.root, x.Tower(), x.Q(), x.R(), i, j);
    }
    forall a, b | 0 <= a < n && 0 <= b < n
      ensures Inner(x.m, Column(x.Q(), a), Column(x.Q(), b)) == if a == b then 1.0 else 0.0
    {
      OrthonormalPair(x.A, x.m, n, x.root, x.Tower(), x.Q(), x.R(), a, b);
    }
  }

  lemma OrthonormalPair(A: Matrix, m: nat, n: nat, root: real -> real, V: Tower, Q: Matrix, R: Matrix, a: nat, b: nat)
    requires IsRoot(root) && Orthogonalised(A, m, n, root, V, Q, R) && a < n && b < n
    ensures Inner(m, Column(Q, a), Column(Q, b)) == if a == b then 1.0 else 0.0
  {
    hide IsRoot;
    if a == b {
      assert StepEquations(m, root, V, Q, R, a);
      UnitColumn(m, root, V, Q, R, a);
    } else if a < b {
      OrthogonalColumns(A, m, n, root, V, Q, R, a, b);
    } else {
      OrthogonalColumns(A, m, n, root, V, Q, R, b, a);
      InnerSymmetric(m, Column(Q, a), Column(Q, b));
    }
  }

  // ----- what the nest leaves in the arrays -----

  function UpperPart(R: Matrix): Matrix {
    (k: int, j: int) => if k <= j then R(k, j) else 0.0
  }

  /** The arrays hold A = Q R with orthonormal columns of Q; R is its array's upper part. */
  ghost predicate AreFactors(A: Matrix, Q: Matrix, R: Matrix, m: nat, n: nat) {
    && (forall i, j | 0 <= i < m && 0 <= j < n :: Dot(Q, UpperPart(R), i, j, n) == A(i, j))
    && OrthonormalColumns(Q, m, n)
  }

  lemma FactorsCong(x: Input, n: nat, Q: Matrix, R: Matrix)
    requires IsRoot(x.root) && x.NonzeroNorms(n)
    requires forall i, k | 0 <= i < x.m && 0 <= k < n :: Q(i, k) == x.Q()(i, k)
    requires forall k, j | 0 <= k <= j < n :: R(k, j) == x.R()(k, j)
    ensures AreFactors(x.A, Q, R, x.m, n)
  {
    QrFactorisation(x, n);
    hide IsRoot, Input.Q, Input.R, Input.NonzeroNorms;
    forall i, j | 0 <= i < x.m && 0 <= j < n
      ensures Dot(Q, UpperPart(R), i, j, n) == x.A(i, j)
    {
      forall k | 0 <= k < n
        ensures Q(i, k) * UpperPart(R)(k, j) == x.Q()(i, k) * x.R()(k, j)
      {
        assert UpperPart(R)(k, j) == x.R()(k, j);
      }
      DotCong(Q, UpperPart(R), x.Q(), x.R(), i, j, n);
    }
    forall a, b | 0 <= a < n && 0 <= b < n
      ensures Inner(x.m, Column(Q, a), Column(Q, b)) == if a == b then 1.0 else 0.0
    {
      InnerCong(x.m, Column(Q, a), Column(x.Q(), a), Column(Q, b), Column(x.Q(), b));
    }
  }

  /** The factorisation of main on any m by n input with n at most the rows of r. */
  method ModifiedGramSchmidt(m: nat, n: nat, a: array2<real>, q: array2<real>, r: array2<real>, root: real -> real)
    returns (nrm: real)
    requires a.Length0 == q.Length0 == m && a.Length1 == q.Length1 == r.Length1 == n && n <= r.Length0
    requires a != q && a != r && q != r
    requires Input(Entries(a), m, root).NonzeroNorms(n)
    modifies a, q, r
    ensures forall i, k | 0 <= i < m && 0 <= k < n :: q[i, k] == Input(old(Entries(a)), m, root).Q()(i, k)
    ensures RowsHold(n, r, Input(old(Entries(a)), m, root).R(), n, old(Rows(r)))
    ensures ColumnsHold(m, n, a, Input(old(Entries(a)), m, root).Tower(), n)
    ensures IsRoot(root) ==> AreFactors(old(Entries(a)), Entries(q), Entries(r), m, n)
  {
    ghost var A := Entries(a);
    ghost var x := Input(A, m, root);
    ReferenceOrthogonalised(x, n, x.Tower(), x.Q(), x.R());
    nrm := Factor(m, n, a, q, r, root, A, x.Tower(), x.Q(), x.R());
    hide IsRoot, Input.Q, Input.R, Input.Tower, Input.NonzeroNorms, Orthogonalised, AreFactors;
    if IsRoot(root) {
      FactorsCong(x, n, Entries(q), Entries(r));
    }
  }

  // ----- when the norms are nonzero -----

  /** c is a combination of the n columns of A that vanishes on all m rows. */
  ghost predicate Vanishes(A: Matrix, m: nat, n: nat, c: Vec) {
    forall i | 0 <= i < m :: Inner(n, RowOf(A, i), c) == 0.0
  }

  ghost predicate IsZero(c: Vec, n: nat) {
    forall j | 0 <= j < n :: c(j) == 0.0
  }

  ghost predicate IndependentColumns(A: Matrix, m: nat, n: nat) {
    forall c: Vec :: Vanishes(A, m, n, c) ==> IsZero(c, n)
  }

  ghost function Ratio(x: Input, k: nat, j: int): real {
    if x.Norm(k) == 0.0 then 0.0 else x.Coefficient(k, j) / x.Norm(k)
  }

  /** Column j after k steps is the combination of the original columns with these weights. */
  ghost function Weight(x: Input, k: nat, j: int, t: int): real
    decreases k
  {
    if k == 0 then if t == j then 1.0 else 0.0
    else if j < k then Weight(x, k - 1, j, t)
    else Weight(x, k - 1, j, t) - Weight(x, k - 1, k - 1, t) * Ratio(x, k - 1, j)
  }

  ghost function Weights(x: Input, k: nat, j: int): Vec {
    t => Weight(x, k, j, t)
  }

  lemma {:induction false} WeightTriangular(x: Input, k: nat, j: int, t: int)
    requires k <= j <= t
    ensures Weight(x, k, j, t) == if t == j then 1.0 else 0.0
  {
    hide Ratio;
    if k > 0 {
      WeightTriangular(x, k - 1, j, t);
      WeightTriangular(x, k - 1, k - 1, t);
      ZeroTimes(Ratio(x, k - 1, j));
    }
  }

  lemma StateStep(x: Input, k: nat, i: int, j: int)
    requires k < j && x.Norm(k) != 0.0
    ensures x.State(k + 1, i, j) == x.State(k, i, j) - x.State(k, i, k) * Ratio(x, k, j)
  {
    hide *;
    StateNext(x, k, i, j);
    UnitScaled(x, k, i);
    RatioScaled(x, k, j);
    Reassociate(x.State(k, i, k), x.Norm(k), x.Coefficient(k, j), x.Unit(k, i), Ratio(x, k, j));
  }

  ghost predicate IsProduct(a: real, b: real, c: real) {
    a * b == c
  }

  lemma StateNext(x: Input, k: nat, i: int, j: int)
    requires k < j
    ensures x.State(k + 1, i, j) == x.State(k, i, j) - x.Unit(k, i) * x.Coefficient(k, j)
  {
    hide Input.Unit, Input.Coefficient, Input.Norm;
  }

  lemma UnitScaled(x: Input, k: nat, i: int)
    requires x.Norm(k) != 0.0
    ensures IsProduct(x.Unit(k, i), x.Norm(k), x.State(k, i, k))
  {
    hide Input.State, Input.Norm, Input.Coefficient;
  }

  lemma RatioScaled(x: Input, k: nat, j: int)
    requires x.Norm(k) != 0.0
    ensures IsProduct(Ratio(x, k, j), x.Norm(k), x.Coefficient(k, j))
  {
    hide Input.State, Input.Norm, Input.Coefficient;
  }

  lemma Reassociate(p: real, d: real, c: real, u: real, v: real)
    requires IsProduct(u, d, p) && IsProduct(v, d, c)
    ensures u * c == p * v
  {
    assert u * (v * d) == (u * d) * v;
  }

  lemma {:induction false} StateIsCombination(x: Input, n: nat, k: nat, i: int, j: int)
    requires k <= j < n && forall t: nat | t < k :: x.Norm(t) != 0.0
    ensures x.State(k, i, j) == Inner(n, RowOf(x.A, i), Weights(x, k, j))
    decreases k
  {
    var f := RowOf(x.A, i);
    if k == 0 {
      hide Inner;
      SelectOne(n, f, Weights(x, 0, j), j);
    } else {
      hide Ratio, Inner, Input.State, Input.Norm, Input.Coefficient;
      var p := k - 1;
      StateIsCombination(x, n, p, i, j);
      StateIsCombination(x, n, p, i, p);
      StateStep(x, p, i, j);
      var combination := Inner(n, f, Weights(x, p, p));
      Substitute(x.State(p, i, p), combination, Ratio(x, p, j));
      InnerCombine(n, f, Weights(x, p, j), Weights(x, p, p), Ratio(x, p, j), Weights(x, k, j));
    }
  }

  lemma SelectOne(n: nat, f: Vec, e: Vec, j: int)
    requires 0 <= j < n && forall t | 0 <= t < n :: e(t) == if t == j then 1.0 else 0.0
    ensures Inner(n, f, e) == f(j)
  {
    SumSingle(n, j, t => f(t) * e(t));
  }

  /** With independent columns no norm is zero. */
  lemma {:induction false} IndependentNorm(x: Input, n: nat, k: nat)
    requires IsRoot(x.root) && IndependentColumns(x.A, x.m, n) && k < n
    ensures x.Norm(k) != 0.0
  {
    forall t: nat | t < k
      ensures x.Norm(t) != 0.0
    {
      IndependentNorm(x, n, t);
    }
    if x.Norm(k) == 0.0 {
      var v: Vec := i => x.State(k, i, k);
      var c := Weights(x, k, k);
      SquareNonnegative(x.m, v);
      assert x.Norm(k) == x.root(Inner(x.m, v, v));
      RootZero(x.root, Inner(x.m, v, v));
      forall i | 0 <= i < x.m
        ensures Inner(n, RowOf(x.A, i), c) == 0.0
      {
        StateIsCombination(x, n, k, i, k);
        assert v(i) == 0.0;
      }
      assert Vanishes(x.A, x.m, n, c);
      assert c(k) == 0.0;
      WeightTriangular(x, k, k, k);
      assert false;
    }
  }

  /** Steps below both indices do not change the component along unit column a. */
  lemma {:induction false} ComponentKept(A: Matrix, m: nat, n: nat, root: real -> real,
                                         V: Tower, Q: Matrix, R: Matrix, a: nat, j: nat, k: nat)
    requires IsRoot(root) && Orthogonalised(A, m, n, root, V, Q, R)
    requires a < n && j < n && k <= a && k <= j
    ensures Inner(m, Column(Q, a), Column(A, j)) == Inner(m, Column(Q, a), TowerColumn(V, k, j))
  {
    hide IsRoot;
    if k == 0 {
      InnerCong(m, Column(Q, a), Column(Q, a), Column(A, j), TowerColumn(V, 0, j));
    } else {
      ComponentKept(A, m, n, root, V, Q, R, a, j, k - 1);
      assert StepEquations(m, root, V, Q, R, k - 1);
      StepInner(m, root, V, Q, R, k - 1, j, Column(Q, a));
      OrthonormalPair(A, m, n, root, V, Q, R, a, k - 1);
      hide StepEquations, Orthogonalised, Inner;
      ZeroTimes(R(k - 1, j));
    }
  }

  /** R is the transpose of Q times A. */
  lemma CoefficientsAreProjections(A: Matrix, m: nat, n: nat, root: real -> real,
                                   V: Tower, Q: Matrix, R: Matrix, a: nat, j: nat)
    requires IsRoot(root) && Orthogonalised(A, m, n, root, V, Q, R) && a < n && j < n
    ensures Inner(m, Column(Q, a), Column(A, j)) == R(a, j)
  {
    hide IsRoot;
    var k := if a < j then a else j;
    ComponentKept(A, m, n, root, V, Q, R, a, j, k);
    assert StepEquations(m, root, V, Q, R, a) && StepEquations(m, root, V, Q, R, j);
    if a < j {
      assert CoefficientAt(m, V, Q, R, a, j);
    } else {
      UnitTimesNorm(m, root, V, Q, R, j);
      InnerScaled(m, Column(Q, a), TowerColumn(V, j, j), R(j, j), Column(Q, j));
      OrthonormalPair(A, m, n, root, V, Q, R, a, j);
      ZeroTimes(R(j, j));
      assert a != j ==> CoefficientAt(m, V, Q, R, a, j);
    }
  }

  function Weighted(f: Vec, A: Matrix, c: Vec): Matrix {
    (i, j) => f(i) * (A(i, j) * c(j))
  }

  lemma WeightedCell(f: Vec, A: Matrix, c: Vec, i: int, n: nat)
    ensures forall j :: RowOf(Weighted(f, A, c), i)(j) == f(i) * (RowOf(A, i)(j) * c(j))
  {
  }

  lemma WeightedRow(f: Vec, A: Matrix, c: Vec, i: int, n: nat)
    ensures RowSum(n, Weighted(f, A, c))(i) == f(i) * Inner(n, RowOf(A, i), c)
  {
    var g: Vec := j => RowOf(A, i)(j) * c(j);
    WeightedCell(f, A, c, i, n);
    hide Weighted;
    SumScale(n, f(i), g, RowOf(Weighted(f, A, c), i));
  }

  lemma WeightedColumn(f: Vec, A: Matrix, c: Vec, j: int, m: nat)
    ensures RowSum(m, Transpose(Weighted(f, A, c)))(j) == c(j) * Inner(m, f, Column(A, j))
  {
    forall i | 0 <= i < m
      ensures RowOf(Transpose(Weighted(f, A, c)), j)(i) == c(j) * (f(i) * Column(A, j)(i))
    {
      Rotate(f(i), A(i, j), c(j));
    }
    SumScale(m, c(j), i => f(i) * Column(A, j)(i), RowOf(Transpose(Weighted(f, A, c)), j));
  }

  lemma VanishingRows(f: Vec, A: Matrix, c: Vec, m: nat, n: nat)
    requires Vanishes(A, m, n, c)
    ensures Sum(m, RowSum(n, Weighted(f, A, c))) == 0.0
  {
    forall i | 0 <= i < m
      ensures RowSum(n, Weighted(f, A, c))(i) == 0.0
    {
      WeightedRow(f, A, c, i, n);
      ZeroTimes(f(i));
    }
    SumTail(0, m, RowSum(n, Weighted(f, A, c)));
  }

  lemma ProjectedColumns(f: Vec, A: Matrix, c: Vec, g: Vec, m: nat, n: nat)
    requires forall j | 0 <= j < n :: Inner(m, f, Column(A, j)) == g(j)
    ensures Sum(n, RowSum(m, Transpose(Weighted(f, A, c)))) == Inner(n, c, g)
  {
    forall j | 0 <= j < n
      ensures RowSum(m, Transpose(Weighted(f, A, c)))(j) == c(j) * g(j)
    {
      WeightedColumn(f, A, c, j, m);
      assert Inner(m, f, Column(A, j)) == g(j);
    }
    SumCong(n, RowSum(m, Transpose(Weighted(f, A, c))), j => c(j) * g(j));
  }

  /** A vanishing combination of the columns of A also vanishes on row a of R. */
  lemma VanishesOnR(A: Matrix, m: nat, n: nat, root: real -> real, V: Tower, Q: Matrix, R: Matrix, a: nat, c: Vec)
    requires IsRoot(root) && Orthogonalised(A, m, n, root, V, Q, R) && a < n && Vanishes(A, m, n, c)
    ensures Inner(n, c, RowOf(R, a)) == 0.0
  {
    hide IsRoot, Orthogonalised;
    var f := Column(Q, a);
    forall j | 0 <= j < n
      ensures Inner(m, f, Column(A, j)) == RowOf(R, a)(j)
    {
      CoefficientsAreProjections(A, m, n, root, V, Q, R, a, j);
    }
    VanishingRows(f, A, c, m, n);
    SumSwap(m, n, Weighted(f, A, c));
    ProjectedColumns(f, A, c, RowOf(R, a), m, n);
  }

  /** Back substitution on R c = 0. */
  lemma {:induction false} TriangularKernel(R: Matrix, n: nat, c: Vec, a: nat)
    requires a < n && UpperTriangular(R, n)
    requires forall k | 0 <= k < n :: R(k, k) != 0.0
    requires forall k | 0 <= k < n :: Inner(n, c, RowOf(R, k)) == 0.0
    ensures c(a) == 0.0
    decreases n - a
  {
    forall j | 0 <= j < n && j != a
      ensures c(j) * RowOf(R, a)(j) == 0.0
    {
      if j > a {
        TriangularKernel(R, n, c, j);
        ZeroTimes(R(a, j));
      } else {
        ZeroTimes(c(j));
      }
    }
    SumSingle(n, a, j => c(j) * RowOf(R, a)(j));
    ZeroProduct(c(a), R(a, a), Inner(n, c, RowOf(R, a)));
  }

  lemma ZeroProduct(p: real, d: real, s: real)
    requires d != 0.0 && p * d == s && s == 0.0
    ensures p == 0.0
  {
  }

  /** The precondition of the factorisation, as a property of the input alone. */
  lemma NormsNonzeroIffIndependent(x: Input, n: nat)
    requires IsRoot(x.root)
    ensures x.NonzeroNorms(n) <==> IndependentColumns(x.A, x.m, n)
  {
    if IndependentColumns(x.A, x.m, n) {
      forall k: nat | k < n
        ensures x.Norm(k) != 0.0
      {
        IndependentNorm(x, n, k);
      }
    }
    if x.NonzeroNorms(n) {
      forall c: Vec | Vanishes(x.A, x.m, n, c)
        ensures IsZero(c, n)
      {
        IndependentFromNorms(x, n, c);
      }
    }
  }

  lemma IndependentFromNorms(x: Input, n: nat, c: Vec)
    requires IsRoot(x.root) && x.NonzeroNorms(n) && Vanishes(x.A, x.m, n, c)
    ensures IsZero(c, n)
  {
    hide IsRoot;
    ReferenceOrthogonalised(x, n, x.Tower(), x.Q(), x.R());
    QrFactorisation(x, n);
    hide Orthogonalised;
    forall k | 0 <= k < n
      ensures Inner(n, c, RowOf(x.R(), k)) == 0.0
    {
      VanishesOnR(x.A, x.m, n, x.root, x.Tower(), x.Q(), x.R(), k, c);
    }
    forall k | 0 <= k < n
      ensures x.R()(k, k) != 0.0
    {
      assert x.Norm(k) != 0.0;
    }
    forall j | 0 <= j < n
      ensures c(j) == 0.0
    {
      TriangularKernel(x.R(), n, c, j);
    }
  }
}
