// The linear solver of `ludcmp`: in-place factorisation, forward and back substitution,
// and the proof that it leaves the one solution of the original system.

module Ludcmp {
  import opened Sums
  import opened LU
  import opened Factorization

  // ----- reference: the two triangular solutions -----

  /** Entry i of the forward substitution with the packed unit lower factor. */
  ghost function Forward(F: Matrix, b: Vec, i: nat): real
    decreases i, 1, 0
  {
    b(i) - ForwardDot(F, b, i, i)
  }

  ghost function ForwardDot(F: Matrix, b: Vec, i: nat, m: nat): real
    requires m <= i
    decreases i, 0, m
  {
    if m == 0 then 0.0 else ForwardDot(F, b, i, m - 1) + F(i, m - 1) * Forward(F, b, m - 1)
  }

  /** Entry k of the back substitution, for a system of n equations. */
  ghost function Back(F: Matrix, y: Vec, n: nat, k: nat): real
    requires k < n
    decreases n - k, 1, 0
  {
    if F(k, k) == 0.0 then 0.0 else (y(k) - BackDot(F, y, n, k, n)) / F(k, k)
  }

  ghost function BackDot(F: Matrix, y: Vec, n: nat, k: nat, m: nat): real
    requires k < n && m <= n
    decreases n - k, 0, m
  {
    if m == 0 then 0.0
    else BackDot(F, y, n, k, m - 1) + if m - 1 > k then F(k, m - 1) * Back(F, y, n, m - 1) else 0.0
  }

  ghost function ForwardVec(F: Matrix, b: Vec): Vec {
    (i: int) => if i < 0 then 0.0 else Forward(F, b, i)
  }

  ghost function BackVec(F: Matrix, y: Vec, n: nat): Vec {
    (k: int) => if 0 <= k < n then Back(F, y, n, k) else 0.0
  }

  function Product(L: Matrix, i: int, z: Vec, n: nat): real {
    Sum(n, k => L(i, k) * z(k))
  }

  lemma ProductLast(L: Matrix, i: int, z: Vec, n: nat)
    requires n > 0
    ensures Product(L, i, z, n) == Product(L, i, z, n - 1) + L(i, n - 1) * z(n - 1)
  {
    var f: Vec := k => L(i, k) * z(k);
    assert Product(L, i, z, n) == Sum(n - 1, f) + f(n - 1);
  }

  function StrictUpper(F: Matrix): Matrix {
    (r: int, c: int) => if r < c then F(r, c) else 0.0
  }

  lemma {:induction false} StrictUpperBelow(F: Matrix, x: Vec, k: int, m: nat)
    requires m <= k + 1
    ensures Product(StrictUpper(F), k, x, m) == 0.0
  {
    if m > 0 {
      StrictUpperBelow(F, x, k, m - 1);
      ProductLast(StrictUpper(F), k, x, m);
      ZeroTimes(x(m - 1));
    }
  }

  lemma {:induction false} ForwardDotIsProduct(F: Matrix, b: Vec, i: nat, m: nat)
    requires m <= i
    ensures ForwardDot(F, b, i, m) == Product(F, i, ForwardVec(F, b), m)
  {
    if m > 0 {
      ForwardDotIsProduct(F, b, i, m - 1);
      ProductLast(F, i, ForwardVec(F, b), m);
      assert ForwardVec(F, b)(m - 1) == Forward(F, b, m - 1);
    }
  }

  lemma {:induction false} BackDotIsProduct(F: Matrix, y: Vec, n: nat, k: nat, m: nat)
    requires k < n && m <= n
    ensures BackDot(F, y, n, k, m) == Product(StrictUpper(F), k, BackVec(F, y, n), m)
  {
    if m > 0 {
      BackDotIsProduct(F, y, n, k, m - 1);
      ProductLast(StrictUpper(F), k, BackVec(F, y, n), m);
      assert BackVec(F, y, n)(m - 1) == Back(F, y, n, m - 1);
      if m - 1 <= k {
        ZeroTimes(Back(F, y, n, m - 1));
      }
    }
  }

  ghost predicate ForwardAt(F: Matrix, b: Vec, y: Vec, i: int) {
    0 <= i && y(i) == b(i) - Product(F, i, y, i)
  }

  ghost predicate BackAt(F: Matrix, y: Vec, x: Vec, n: nat, k: int) {
    F(k, k) != 0.0 && x(k) == (y(k) - Product(StrictUpper(F), k, x, n)) / F(k, k)
  }

  // ----- the loops -----

  /** One accumulation of the forward sweep. */
  method ForwardEntry(n: nat, a: array2<real>, b: array<real>, y: array<real>, i: nat, ghost F: Matrix, ghost Y: Vec)
    returns (w: real)
    requires i <= n && a.Length0 == a.Length1 == b.Length == y.Length == n + 1
    requires forall j | 0 <= j < i :: a[i, j] == F(i, j) && y[j] == Y(j)
    ensures w == b[i] - Product(F, i, Y, i)
  {
    w := b[i];
    for j := 0 to i
      invariant w == b[i] - Product(F, i, Y, j)
    {
      w := w - a[i, j] * y[j];
    }
  }

  method ForwardSubstitution(n: nat, a: array2<real>, b: array<real>, y: array<real>, ghost F: Matrix, ghost Y: Vec)
    requires a.Length0 == a.Length1 == b.Length == y.Length == n + 1 && y != b
    requires forall r, c | 0 <= r <= n && 0 <= c <= n :: a[r, c] == F(r, c)
    requires forall i | 0 <= i <= n :: ForwardAt(F, Items(b), Y, i)
    modifies y
    ensures forall i | 0 <= i <= n :: y[i] == Y(i)
  {
    ghost var B := Items(b);
    y[0] := b[0];
    assert ForwardAt(F, B, Y, 0);
    for i := 1 to n + 1
      invariant forall j | 0 <= j < i :: y[j] == Y(j)
    {
      assert ForwardAt(F, B, Y, i);
      y[i] := ForwardEntry(n, a, b, y, i, F, Y);
    }
  }

  /** One accumulation of the backward sweep, for row k = n - 1 - i. */
  method BackEntry(n: nat, a: array2<real>, y: array<real>, x: array<real>, i: nat, ghost F: Matrix, ghost X: Vec)
    returns (w: real)
    requires i < n && a.Length0 == a.Length1 == x.Length == y.Length == n + 1
    requires forall j | n - i <= j <= n :: a[n - 1 - i, j] == F(n - 1 - i, j) && x[j] == X(j)
    ensures w == y[n - 1 - i] - Product(StrictUpper(F), n - 1 - i, X, n + 1)
  {
    ghost var k := n - 1 - i;
    w := y[n - 1 - i];
    StrictUpperBelow(F, X, k, n - i);
    for j := n - i to n + 1
      invariant w == y[k] - Product(StrictUpper(F), k, X, j)
    {
      w := w - a[n - 1 - i, j] * x[j];
    }
  }

  method BackSubstitution(n: nat, a: array2<real>, y: array<real>, x: array<real>,
                          ghost m: nat, ghost F: Matrix, ghost Y: Vec, ghost X: Vec)
    requires a.Length0 == a.Length1 == x.Length == y.Length == m == n + 1 && x != y
    requires forall r, c | 0 <= r <= n && 0 <= c <= n :: a[r, c] == F(r, c)
    requires forall k | 0 <= k <= n :: y[k] == Y(k)
    requires forall k | 0 <= k <= n :: BackAt(F, Y, X, m, k)
    modifies x
    ensures forall k | 0 <= k <= n :: x[k] == X(k)
  {
    assert BackAt(F, Y, X, m, n);
    StrictUpperBelow(F, X, n, m);
    x[n] := y[n] / a[n, n];
    for i := 0 to n
      invariant forall k | n - i <= k <= n :: x[k] == X(k)
    {
      assert BackAt(F, Y, X, m, n - 1 - i);
      var w := BackEntry(n, a, y, x, i, F, X);
      x[n - 1 - i] := w / a[n - 1 - i, n - 1 - i];
    }
  }

  // ----- what the loops compute -----

  /** z solves the n equations A z = b. */
  ghost predicate Solves(A: Matrix, z: Vec, b: Vec, n: nat) {
    forall i | 0 <= i < n :: Product(A, i, z, n) == b(i)
  }

  ghost function UpperTimes(F: Matrix, z: Vec, n: nat): Vec {
    k => Product(Upper(F), k, z, n)
  }

  function Term(L: Matrix, U: Matrix, z: Vec, i: int): Matrix {
    (k, j) => L(i, k) * (U(k, j) * z(j))
  }

  lemma TermByRow(L: Matrix, U: Matrix, z: Vec, i: int, k: int, n: nat)
    ensures RowSum(n, Term(L, U, z, i))(k) == L(i, k) * Product(U, k, z, n)
  {
    SumScale(n, L(i, k), j => U(k, j) * z(j), RowOf(Term(L, U, z, i), k));
  }

  lemma TermByColumn(L: Matrix, U: Matrix, z: Vec, i: int, j: int, n: nat)
    ensures RowSum(n, Transpose(Term(L, U, z, i)))(j) == Dot(L, U, i, j, n) * z(j)
  {
    forall k | 0 <= k < n
      ensures RowOf(Transpose(Term(L, U, z, i)), j)(k) == z(j) * (L(i, k) * U(k, j))
    {
      Rotate(L(i, k), U(k, j), z(j));
    }
    SumScale(n, z(j), k => L(i, k) * U(k, j), RowOf(Transpose(Term(L, U, z, i)), j));
  }

  lemma TermsByRow(L: Matrix, U: Matrix, z: Vec, w: Vec, i: int, n: nat)
    requires forall k | 0 <= k < n :: w(k) == Product(U, k, z, n)
    ensures Sum(n, RowSum(n, Term(L, U, z, i))) == Product(L, i, w, n)
  {
    forall k | 0 <= k < n
      ensures RowSum(n, Term(L, U, z, i))(k) == L(i, k) * w(k)
    {
      TermByRow(L, U, z, i, k, n);
    }
    SumCong(n, RowSum(n, Term(L, U, z, i)), k => L(i, k) * w(k));
  }

  lemma TermsByColumn(A: Matrix, L: Matrix, U: Matrix, z: Vec, i: int, n: nat)
    requires 0 <= i < n && MultipliesTo(L, U, A, n)
    ensures Sum(n, RowSum(n, Transpose(Term(L, U, z, i)))) == Product(A, i, z, n)
  {
    forall j | 0 <= j < n
      ensures RowSum(n, Transpose(Term(L, U, z, i)))(j) == A(i, j) * z(j)
    {
      TermByColumn(L, U, z, i, j, n);
      assert Dot(L, U, i, j, n) == A(i, j);
    }
    SumCong(n, RowSum(n, Transpose(Term(L, U, z, i))), j => A(i, j) * z(j));
  }

  /** (L U) z == L (U z), row by row. */
  lemma ProductAssociates(A: Matrix, L: Matrix, U: Matrix, z: Vec, w: Vec, n: nat, i: nat)
    requires i < n && MultipliesTo(L, U, A, n)
    requires forall k | 0 <= k < n :: w(k) == Product(U, k, z, n)
    ensures Product(A, i, z, n) == Product(L, i, w, n)
  {
    TermsByRow(L, U, z, w, i, n);
    SumSwap(n, n, Term(L, U, z, i));
    TermsByColumn(A, L, U, z, i, n);
  }

  lemma UnitLowerProduct(F: Matrix, w: Vec, n: nat, i: nat)
    requires i < n
    ensures Product(UnitLower(F), i, w, n) == Product(F, i, w, i) + w(i)
  {
    var f: Vec := k => UnitLower(F)(i, k) * w(k);
    forall k | i < k < n
      ensures f(k) == 0.0
    {
      assert UnitLower(F)(i, k) == 0.0;
    }
    SumTail(i + 1, n, f);
    SumCong(i, f, k => F(i, k) * w(k));
    assert Sum(i + 1, f) == Sum(i, f) + f(i);
  }

  lemma UpperProduct(F: Matrix, z: Vec, n: nat, k: nat)
    requires k < n
    ensures Product(Upper(F), k, z, n) == F(k, k) * z(k) + Product(StrictUpper(F), k, z, n)
  {
    var diagonal: Vec := j => if j == k then F(k, k) * z(k) else 0.0;
    SumSingle(n, k, diagonal);
    SumAdd(n, diagonal, j => StrictUpper(F)(k, j) * z(j), j => Upper(F)(k, j) * z(j));
  }

  lemma {:induction false} ForwardUnique(F: Matrix, b: Vec, w: Vec, y: Vec, n: nat, i: nat)
    requires i < n
    requires forall k | 0 <= k < n :: ForwardAt(F, b, y, k) && ForwardAt(F, b, w, k)
    ensures w(i) == y(i)
  {
    forall k | 0 <= k < i
      ensures w(k) == y(k)
    {
      ForwardUnique(F, b, w, y, n, k);
    }
    SumCong(i, k => F(i, k) * w(k), k => F(i, k) * y(k));
    assert ForwardAt(F, b, y, i) && ForwardAt(F, b, w, i);
  }

  lemma StrictUpperCong(F: Matrix, z: Vec, x: Vec, n: nat, k: int)
    requires forall j | k < j < n :: z(j) == x(j)
    ensures Product(StrictUpper(F), k, z, n) == Product(StrictUpper(F), k, x, n)
  {
    forall j | 0 <= j < n
      ensures StrictUpper(F)(k, j) * z(j) == StrictUpper(F)(k, j) * x(j)
    {
      if j <= k {
        assert StrictUpper(F)(k, j) == 0.0;
        ZeroTimes(z(j));
        ZeroTimes(x(j));
      }
    }
    SumCong(n, j => StrictUpper(F)(k, j) * z(j), j => StrictUpper(F)(k, j) * x(j));
  }

  lemma {:induction false} BackUnique(F: Matrix, y: Vec, z: Vec, x: Vec, n: nat, k: nat)
    requires k < n
    requires forall j | 0 <= j < n :: BackAt(F, y, x, n, j) && BackAt(F, y, z, n, j)
    ensures z(k) == x(k)
    decreases n - k
  {
    forall j | k < j < n
      ensures z(j) == x(j)
    {
      BackUnique(F, y, z, x, n, j);
    }
    StrictUpperCong(F, z, x, n, k);
    assert BackAt(F, y, x, n, k) && BackAt(F, y, z, n, k);
  }

  lemma Isolate(d: real, z: real, s: real, y: real)
    requires d != 0.0
    ensures d * z + s == y <==> z == (y - s) / d
  {
    var q := (y - s) / d;
    assert q * d == y - s;
    if d * z + s == y {
      assert (z - q) * d == 0.0;
    }
  }

  /** Row k of U z equals y(k) exactly when z meets the back substitution equation. */
  lemma BackEquation(F: Matrix, y: Vec, z: Vec, n: nat, k: nat)
    requires k < n && F(k, k) != 0.0
    ensures UpperTimes(F, z, n)(k) == y(k) <==> BackAt(F, y, z, n, k)
  {
    UpperProduct(F, z, n, k);
    hide Product;
    Isolate(F(k, k), z(k), Product(StrictUpper(F), k, z, n), y(k));
  }

  /** Row i of L (U z) equals b(i) exactly when U z meets the forward equation. */
  lemma ForwardEquation(A: Matrix, F: Matrix, b: Vec, z: Vec, n: nat, i: nat)
    requires i < n && MultipliesTo(UnitLower(F), Upper(F), A, n)
    ensures Product(A, i, z, n) == b(i) <==> ForwardAt(F, b, UpperTimes(F, z, n), i)
  {
    ProductAssociates(A, UnitLower(F), Upper(F), z, UpperTimes(F, z, n), n, i);
    UnitLowerProduct(F, UpperTimes(F, z, n), n, i);
  }

  ghost predicate Agree(z: Vec, x: Vec, n: nat) {
    forall k | 0 <= k < n :: z(k) == x(k)
  }

  ghost predicate IsOnlySolution(A: Matrix, b: Vec, x: Vec, n: nat) {
    forall z: Vec :: Solves(A, z, b, n) <==> Agree(z, x, n)
  }

  /** The two substitutions give a solution, and there is no other. */
  lemma SolutionUnique(A: Matrix, F: Matrix, b: Vec, y: Vec, x: Vec, z: Vec, n: nat)
    requires MultipliesTo(UnitLower(F), Upper(F), A, n)
    requires forall k | 0 <= k < n :: ForwardAt(F, b, y, k)
    requires forall k | 0 <= k < n :: BackAt(F, y, x, n, k)
    ensures Solves(A, z, b, n) <==> Agree(z, x, n)
  {
    var w := UpperTimes(F, z, n);
    if Solves(A, z, b, n) {
      forall i | 0 <= i < n
        ensures ForwardAt(F, b, w, i)
      {
        ForwardEquation(A, F, b, z, n, i);
      }
      forall k | 0 <= k < n
        ensures BackAt(F, y, z, n, k)
      {
        assert BackAt(F, y, x, n, k);
        ForwardUnique(F, b, w, y, n, k);
        BackEquation(F, y, z, n, k);
      }
      forall k | 0 <= k < n
        ensures z(k) == x(k)
      {
        BackUnique(F, y, z, x, n, k);
      }
    }
    if Agree(z, x, n) {
      forall k | 0 <= k < n
        ensures w(k) == y(k)
      {
        assert BackAt(F, y, x, n, k);
        StrictUpperCong(F, z, x, n, k);
        BackEquation(F, y, z, n, k);
      }
      forall i | 0 <= i < n
        ensures Product(A, i, z, n) == b(i)
      {
        assert ForwardAt(F, b, y, i);
        SumCong(i, k => F(i, k) * w(k), k => F(i, k) * y(k));
        ForwardEquation(A, F, b, z, n, i);
      }
    }
  }

  ghost predicate NonzeroDiagonal(F: Matrix, n: nat) {
    forall k | 0 <= k < n :: F(k, k) != 0.0
  }

  lemma ReferenceSolves(A: Matrix, F: Matrix, b: Vec, n: nat)
    requires Eliminated(A, F, n) && NonzeroDiagonal(F, n)
    ensures forall k | 0 <= k < n :: ForwardAt(F, b, ForwardVec(F, b), k)
    ensures forall k | 0 <= k < n ::
              BackAt(F, ForwardVec(F, b), BackVec(F, ForwardVec(F, b), n), n, k)
  {
    forall k | 0 <= k < n
      ensures ForwardAt(F, b, ForwardVec(F, b), k)
    {
      ForwardDotIsProduct(F, b, k, k);
    }
    var y := ForwardVec(F, b);
    forall k | 0 <= k < n
      ensures BackAt(F, y, BackVec(F, y, n), n, k)
    {
      BackDotIsProduct(F, y, n, k, n);
    }
  }

  lemma ReferenceIsOnlySolution(A: Matrix, F: Matrix, b: Vec, y: Vec, x: Vec, n: nat)
    requires Eliminated(A, F, n)
    requires forall k | 0 <= k < n :: ForwardAt(F, b, y, k)
    requires forall k | 0 <= k < n :: BackAt(F, y, x, n, k)
    ensures IsOnlySolution(A, b, x, n)
  {
    LeftFactorsMultiplyBack(A, F, n);
    forall z: Vec
      ensures Solves(A, z, b, n) <==> Agree(z, x, n)
    {
      SolutionUnique(A, F, b, y, x, z, n);
    }
  }

  lemma OnlySolutionCong(A: Matrix, b: Vec, b': Vec, x: Vec, x': Vec, n: nat)
    requires IsOnlySolution(A, b, x, n) && Agree(b, b', n) && Agree(x, x', n)
    ensures IsOnlySolution(A, b', x', n)
  {
    forall z: Vec
      ensures Solves(A, z, b', n) <==> Agree(z, x', n)
    {
      assert Solves(A, z, b', n) <==> Solves(A, z, b, n);
    }
  }

  method Substitutions(n: nat, a: array2<real>, b: array<real>, y: array<real>, x: array<real>,
                       ghost m: nat, ghost A: Matrix, ghost F: Matrix)
    requires a.Length0 == a.Length1 == b.Length == y.Length == x.Length == m == n + 1
    requires x != y && x != b && y != b
    requires Eliminated(A, F, m) && NonzeroDiagonal(F, m) && forall r, c | 0 <= r <= n && 0 <= c <= n :: a[r, c] == F(r, c)
    modifies x, y
    ensures IsOnlySolution(A, Items(b), Items(x), m)
  {
    ghost var B := Items(b);
    ghost var Y := ForwardVec(F, B);
    ghost var X := BackVec(F, Y, m);
    ReferenceSolves(A, F, B, m);
    ForwardSubstitution(n, a, b, y, F, Y);
    BackSubstitution(n, a, y, x, m, F, Y, X);
    ReferenceIsOnlySolution(A, F, B, Y, X, m);
    OnlySolutionCong(A, B, Items(b), X, Items(x), m);
  }

  /** The region of main: b[0] is set to one, then x is the unique solution of a x = b. */
  method Solve(n: nat, a: array2<real>, b: array<real>, y: array<real>, x: array<real>)
    requires a.Length0 == a.Length1 == b.Length == y.Length == x.Length == n + 1
    requires x != y && x != b && y != b
    requires NonzeroPivots(Entries(a), n + 1)
    modifies a, b, x, y
    ensures b[..] == old(b[..])[0 := 1.0]
    ensures IsOnlySolution(old(Entries(a)), Items(b), Items(x), n + 1)
  {
    ghost var A := Entries(a);
    b[0] := 1.0;
    PackedIsEliminated(A, Packed(A), n + 1);
    ColumnThenRow(n, a, A, Packed(A));
    Substitutions(n, a, b, y, x, n + 1, A, Packed(A));
  }
}
