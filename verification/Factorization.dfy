// What the packed factors mean: they multiply back to the matrix, they are the only
// factors that do, and they exist exactly when elimination divides by no zero pivot.

module Factorization {
  import opened Sums
  import opened LU

  function UnitLower(F: Matrix): Matrix {
    (r: int, c: int) => if r == c then 1.0 else if c < r then F(r, c) else 0.0
  }

  function Upper(F: Matrix): Matrix {
    (r: int, c: int) => if r <= c then F(r, c) else 0.0
  }

  function Lower(F: Matrix): Matrix {
    (r: int, c: int) => if c <= r then F(r, c) else 0.0
  }

  function UnitUpper(F: Matrix): Matrix {
    (r: int, c: int) => if r == c then 1.0 else if r < c then F(r, c) else 0.0
  }

  ghost predicate MultipliesTo(L: Matrix, U: Matrix, A: Matrix, n: nat) {
    forall r, c | 0 <= r < n && 0 <= c < n :: Dot(L, U, r, c, n) == A(r, c)
  }

  ghost predicate IsUnitLower(L: Matrix, n: nat) {
    && (forall k | 0 <= k < n :: L(k, k) == 1.0)
    && (forall r, c | 0 <= r < c < n :: L(r, c) == 0.0)
  }

  /** Upper triangular with no zero among the first m entries of its diagonal. */
  ghost predicate IsRegularUpper(U: Matrix, n: nat, m: nat) {
    && (forall k | 0 <= k < m :: U(k, k) != 0.0)
    && (forall r, c | 0 <= c < r < n :: U(r, c) == 0.0)
  }

  ghost predicate AreRegularFactors(L: Matrix, U: Matrix, A: Matrix, n: nat, m: nat) {
    IsUnitLower(L, n) && IsRegularUpper(U, n, m) && MultipliesTo(L, U, A, n)
  }

  ghost predicate HasFactors(A: Matrix, n: nat, m: nat) {
    exists L: Matrix, U: Matrix :: AreRegularFactors(L, U, A, n, m)
  }

  /** With triangular factors a product entry stops at the smaller index. */
  lemma TriangularDot(L: Matrix, U: Matrix, r: int, c: int, n: nat)
    requires 0 <= r < n && 0 <= c < n
    requires forall k | r < k < n :: L(r, k) == 0.0
    requires forall k | c < k < n :: U(k, c) == 0.0
    ensures var m := if r < c then r else c;
            Dot(L, U, r, c, n) == Dot(L, U, r, c, m) + L(r, m) * U(m, c)
  {
    var m := if r < c then r else c;
    DotLast(L, U, r, c, m + 1);
    DotTail(L, U, r, c, m + 1, n);
  }

  lemma LeftEntry(A: Matrix, F: Matrix, r: int, c: int, n: nat)
    requires 0 <= r < n && 0 <= c < n && EliminatedAt(A, F, r, c)
    ensures Dot(UnitLower(F), Upper(F), r, c, n) == A(r, c)
  {
    var m := if r < c then r else c;
    TriangularDot(UnitLower(F), Upper(F), r, c, n);
    DotCong(UnitLower(F), Upper(F), F, F, r, c, m);
  }

  /** Left-looking factors: unit lower times upper is the original matrix. */
  lemma LeftFactorsMultiplyBack(A: Matrix, F: Matrix, n: nat)
    requires Eliminated(A, F, n)
    ensures MultipliesTo(UnitLower(F), Upper(F), A, n)
  {
    forall r, c | 0 <= r < n && 0 <= c < n
      ensures Dot(UnitLower(F), Upper(F), r, c, n) == A(r, c)
    {
      assert EliminatedAt(A, F, r, c);
      LeftEntry(A, F, r, c, n);
    }
  }

  lemma RightEntry(A: Matrix, G: Matrix, r: int, c: int, n: nat)
    requires 0 <= r < n && 0 <= c < n && CroutEliminatedAt(A, G, r, c)
    ensures Dot(Lower(G), UnitUpper(G), r, c, n) == A(r, c)
  {
    var m := if r < c then r else c;
    TriangularDot(Lower(G), UnitUpper(G), r, c, n);
    DotCong(Lower(G), UnitUpper(G), G, G, r, c, m);
  }

  /** Right-looking factors: lower times unit upper is the original matrix. */
  lemma RightFactorsMultiplyBack(A: Matrix, G: Matrix, n: nat)
    requires CroutEliminated(A, G, n)
    ensures MultipliesTo(Lower(G), UnitUpper(G), A, n)
  {
    forall r, c | 0 <= r < n && 0 <= c < n
      ensures Dot(Lower(G), UnitUpper(G), r, c, n) == A(r, c)
    {
      assert CroutEliminatedAt(A, G, r, c);
      RightEntry(A, G, r, c, n);
    }
  }

  /** Any unit lower and regular upper factors of A are the ones elimination computes. */
  lemma {:induction false} FactorsAreUnique(A: Matrix, L: Matrix, U: Matrix, n: nat, r: nat, c: nat)
    requires AreRegularFactors(L, U, A, n, Divisors(n))
    requires r < n && c < n
    ensures Lu(A, r, c) == if r <= c then U(r, c) else L(r, c)
    decreases if r < c then r else c, if r > c then 1 else 0
  {
    var m := if r < c then r else c;
    UniqueDot(A, L, U, n, r, c, m);
    TriangularDot(L, U, r, c, n);
    if r > c {
      FactorsAreUnique(A, L, U, n, c, c);
    }
  }

  lemma {:induction false} UniqueDot(A: Matrix, L: Matrix, U: Matrix, n: nat, r: nat, c: nat, m: nat)
    requires AreRegularFactors(L, U, A, n, Divisors(n))
    requires r < n && c < n && m <= r && m <= c
    ensures LuDot(A, r, c, m) == Dot(L, U, r, c, m)
    decreases m, -1
  {
    hide AreRegularFactors;
    if m > 0 {
      UniqueDot(A, L, U, n, r, c, m - 1);
      FactorsAreUnique(A, L, U, n, r, m - 1);
      FactorsAreUnique(A, L, U, n, m - 1, c);
      DotLast(L, U, r, c, m);
    }
  }

  /** None of the first m pivots is zero exactly when the matrix has an LU factorisation with
      no zero in the first m places of the diagonal. Elimination divides by all pivots but the
      last one, and solving by that one too. */
  lemma PivotsNonzeroIffFactorable(A: Matrix, n: nat, m: nat)
    requires Divisors(n) <= m <= n
    ensures NonzeroPivots(A, m) <==> HasFactors(A, n, m)
  {
    if NonzeroPivots(A, m) {
      var F := Packed(A);
      PackedIsEliminated(A, F, n);
      LeftFactorsMultiplyBack(A, F, n);
      assert AreRegularFactors(UnitLower(F), Upper(F), A, n, m);
    }
    if HasFactors(A, n, m) {
      var L: Matrix, U: Matrix :| AreRegularFactors(L, U, A, n, m);
      forall k: nat | k < m
        ensures Lu(A, k, k) != 0.0
      {
        FactorsAreUnique(A, L, U, n, k, k);
      }
    }
  }

  /** The two nests compared: same diagonal, and each row of U in the left-looking result is
      its pivot times the unit row of the right-looking one, each column of L scaled back. */
  ghost predicate SameUpToPivots(F: Matrix, G: Matrix, n: nat) {
    && (forall k | 0 <= k < n :: G(k, k) == F(k, k))
    && (forall r, c | 0 <= r < c < n :: F(r, c) == F(r, r) * G(r, c))
    && (forall r, c | 0 <= c < r < n :: G(r, c) == F(r, c) * F(c, c))
  }

  lemma LeftAndRightAgree(A: Matrix, F: Matrix, G: Matrix, n: nat)
    requires NonzeroPivots(A, Divisors(n)) && F == Packed(A) && G == Crout(Packed(A))
    ensures MultipliesTo(UnitLower(F), Upper(F), A, n)
    ensures MultipliesTo(Lower(G), UnitUpper(G), A, n)
    ensures SameUpToPivots(F, G, n)
  {
    PackedIsEliminated(A, F, n);
    LeftFactorsMultiplyBack(A, F, n);
    CroutIsEliminated(A, F, G, n);
    RightFactorsMultiplyBack(A, G, n);
    CroutScales(A, F, G, n);
  }

  lemma CroutScalesRow(F: Matrix, G: Matrix, r: int, c: int)
    requires G == Crout(F) && r < c && F(r, r) != 0.0
    ensures F(r, c) == F(r, r) * G(r, c)
  {
  }

  lemma CroutScales(A: Matrix, F: Matrix, G: Matrix, n: nat)
    requires Eliminated(A, F, n) && G == Crout(F)
    ensures SameUpToPivots(F, G, n)
  {
    forall r, c | 0 <= r < c < n
      ensures F(r, c) == F(r, r) * G(r, c)
    {
      assert F(r, r) != 0.0 by {
        assert EliminatedAt(A, F, c, r);
      }
      hide EliminatedAt;
      CroutScalesRow(F, G, r, c);
    }
  }

  // ----- what the nests leave in the array -----

  ghost predicate SameEntries(F: Matrix, G: Matrix, n: nat) {
    forall r, c | 0 <= r < n && 0 <= c < n :: F(r, c) == G(r, c)
  }

  lemma MultipliesCong(L: Matrix, U: Matrix, L': Matrix, U': Matrix, A: Matrix, n: nat)
    requires SameEntries(L, L', n) && SameEntries(U, U', n) && MultipliesTo(L, U, A, n)
    ensures MultipliesTo(L', U', A, n)
  {
    forall r, c | 0 <= r < n && 0 <= c < n
      ensures Dot(L', U', r, c, n) == A(r, c)
    {
      DotCong(L, U, L', U', r, c, n);
    }
  }

  /** lud_99: the triangles left in the array multiply to the matrix that was there. */
  method Lud99(size: nat, a: array2<real>)
    requires a.Length0 == a.Length1 == size
    requires NonzeroPivots(Entries(a), Divisors(size))
    modifies a
    ensures forall r, c | 0 <= r < size && 0 <= c < size :: a[r, c] == Lu(old(Entries(a)), r, c)
    ensures MultipliesTo(UnitLower(Entries(a)), Upper(Entries(a)), old(Entries(a)), size)
  {
    ghost var A := Entries(a);
    ghost var F := Packed(A);
    PackedIsEliminated(A, F, size);
    LeftLooking(size, a, A, F);
    LeftFactorsMultiplyBack(A, F, size);
    hide MultipliesTo;
    MultipliesCong(UnitLower(F), Upper(F), UnitLower(Entries(a)), Upper(Entries(a)), A, size);
  }

  /** lu: the same, with the unit triangle above. */
  method LuRightLooking(n: nat, a: array2<real>)
    requires a.Length0 == a.Length1 == n
    requires NonzeroPivots(Entries(a), Divisors(n))
    modifies a
    ensures forall r, c | 0 <= r < n && 0 <= c < n :: a[r, c] == Crout(Packed(old(Entries(a))))(r, c)
    ensures MultipliesTo(Lower(Entries(a)), UnitUpper(Entries(a)), old(Entries(a)), n)
  {
    ghost var A := Entries(a);
    ghost var F := Packed(A);
    ghost var G := Crout(F);
    PackedIsEliminated(A, F, n);
    CroutIsEliminated(A, F, G, n);
    RightLooking(n, a, A, G);
    RightFactorsMultiplyBack(A, G, n);
    hide MultipliesTo;
    MultipliesCong(Lower(G), UnitUpper(G), Lower(Entries(a)), UnitUpper(Entries(a)), A, n);
  }
}
