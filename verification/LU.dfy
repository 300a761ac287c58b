// LU factorisation without pivoting: the left-looking loop nest of `lud_99`, the loop
// nest inside `ludcmp`, the right-looking loop nest of `lu`, and what they compute.
// Entries are exact reals.

module LU {
  import opened Sums

  // ----- reference: the entries of the packed factors -----

  /** Entry (r, c) of the packed factors with a unit lower triangle: the upper triangle
      holds U, the strict lower triangle holds L. Recursion over the smaller index. */
  ghost function Lu(A: Matrix, r: nat, c: nat): real
    decreases if r < c then r else c, 1, if r > c then 1 else 0
  {
    if r <= c then
      A(r, c) - LuDot(A, r, c, r)
    else if Lu(A, c, c) == 0.0 then
      0.0
    else
      (A(r, c) - LuDot(A, r, c, c)) / Lu(A, c, c)
  }

  /** The sum over k < n of the products of L(r, k) and U(k, c). */
  ghost function LuDot(A: Matrix, r: nat, c: nat, n: nat): real
    requires n <= r && n <= c
    decreases n, 0, 0
  {
    if n == 0 then 0.0 else LuDot(A, r, c, n - 1) + Lu(A, r, n - 1) * Lu(A, n - 1, c)
  }

  ghost predicate NonzeroPivots(A: Matrix, n: nat) {
    forall k: nat | k < n :: Lu(A, k, k) != 0.0
  }

  /** The number of pivots that elimination of n rows divides by: the last one has nothing
      below it or to its right. */
  function Divisors(n: nat): nat {
    if n == 0 then 0 else n - 1
  }

  ghost function Packed(A: Matrix): Matrix {
    (r: int, c: int) => if r < 0 || c < 0 then 0.0 else Lu(A, r, c)
  }

  /** The equation that left-looking elimination of A solves for cell (r, c). */
  ghost predicate EliminatedAt(A: Matrix, F: Matrix, r: int, c: int) {
    && (0 <= r <= c ==> F(r, c) == A(r, c) - Dot(F, F, r, c, r))
    && (0 <= c < r ==> F(c, c) != 0.0 && F(r, c) == (A(r, c) - Dot(F, F, r, c, c)) / F(c, c))
  }

  /** F is what left-looking elimination of A leaves in place. */
  ghost predicate Eliminated(A: Matrix, F: Matrix, n: nat) {
    forall r, c | 0 <= r < n && 0 <= c < n :: EliminatedAt(A, F, r, c)
  }

  lemma {:induction false} LuDotIsDot(A: Matrix, r: nat, c: nat, n: nat)
    requires n <= r && n <= c
    ensures LuDot(A, r, c, n) == Dot(Packed(A), Packed(A), r, c, n)
  {
    if n > 0 {
      LuDotIsDot(A, r, c, n - 1);
      DotLast(Packed(A), Packed(A), r, c, n);
    }
  }

  lemma PackedEntry(A: Matrix, F: Matrix, r: nat, c: nat)
    requires F == Packed(A)
    requires c < r ==> Lu(A, c, c) != 0.0
    ensures EliminatedAt(A, F, r, c)
  {
    LuDotIsDot(A, r, c, if r <= c then r else c);
  }

  lemma PackedIsEliminated(A: Matrix, F: Matrix, n: nat)
    requires NonzeroPivots(A, Divisors(n)) && F == Packed(A)
    ensures Eliminated(A, F, n)
  {
    forall r, c | 0 <= r < n && 0 <= c < n
      ensures EliminatedAt(A, F, r, c)
    {
      PackedEntry(A, F, r, c);
    }
  }

  // ----- the loop nests -----

  /** Cells with row or column below i are final, the others are still those of A. */
  ghost predicate Reduced(a: array2<real>, A: Matrix, F: Matrix, i: int)
    reads a
  {
    forall r, c | 0 <= r < a.Length0 && 0 <= c < a.Length1 ::
      a[r, c] == if r < i || c < i then F(r, c) else A(r, c)
  }

  /** The accumulation loop shared by the four inner nests. */
  method Accumulate(a: array2<real>, r: nat, c: nat, n: nat, ghost F: Matrix) returns (sum: real)
    requires r < a.Length0 && c < a.Length1 && n <= a.Length0 && n <= a.Length1
    requires forall k | 0 <= k < n :: a[r, k] == F(r, k) && a[k, c] == F(k, c)
    ensures sum == a[r, c] - Dot(F, F, r, c, n)
  {
    sum := a[r, c];
    for k := 0 to n
      invariant sum == a[r, c] - Dot(F, F, r, c, k)
    {
      sum := sum - a[r, k] * a[k, c];
    }
  }

  /** Row i from column `from`: the upper part of one step. */
  method UpperRow(a: array2<real>, i: nat, from: nat, size: nat, ghost A: Matrix, ghost F: Matrix)
    requires a.Length0 == a.Length1 == size && i < size && i <= from <= size
    requires forall c | i <= c < size :: EliminatedAt(A, F, i, c)
    requires forall r, c | 0 <= r < size && 0 <= c < size ::
               a[r, c] == if r < i || c < from then F(r, c) else A(r, c)
    modifies a
    ensures forall r, c | 0 <= r < size && 0 <= c < size ::
              a[r, c] == if r <= i || c < from then F(r, c) else A(r, c)
  {
    for j := from to size
      invariant forall r, c | 0 <= r < size && 0 <= c < size ::
                  a[r, c] == if r < i || c < from || (r == i && c < j) then F(r, c) else A(r, c)
    {
      assert EliminatedAt(A, F, i, j);
      a[i, j] := Accumulate(a, i, j, i, F);
    }
  }

  /** Column i below the diagonal: the lower part of one step. */
  method LowerColumn(a: array2<real>, i: nat, size: nat, ghost A: Matrix, ghost F: Matrix)
    requires a.Length0 == a.Length1 == size && i < size
    requires forall r | i < r < size :: EliminatedAt(A, F, r, i)
    requires forall r, c | 0 <= r < size && 0 <= c < size ::
               a[r, c] == if r <= i || c < i then F(r, c) else A(r, c)
    modifies a
    ensures Reduced(a, A, F, i + 1)
  {
    for j := i + 1 to size
      invariant forall r, c | 0 <= r < size && 0 <= c < size ::
                  a[r, c] == if r <= i || c < i || (c == i && r < j) then F(r, c) else A(r, c)
    {
      assert EliminatedAt(A, F, j, i);
      var sum := Accumulate(a, j, i, i, F);
      a[j, i] := sum / a[i, i];
    }
  }

  /** The nest of lud_99 with its outcome F named in advance. */
  method LeftLooking(size: nat, a: array2<real>, ghost A: Matrix, ghost F: Matrix)
    requires a.Length0 == a.Length1 == size
    requires Eliminated(A, F, size) && Reduced(a, A, F, 0)
    modifies a
    ensures Reduced(a, A, F, size)
  {
    for i := 0 to size
      invariant Reduced(a, A, F, i)
    {
      UpperRow(a, i, i, size, A, F);
      LowerColumn(a, i, size, A, F);
    }
  }

  /** The strided order of ludcmp: the column below pivot i, then row i + 1. */
  method ColumnThenRow(n: nat, a: array2<real>, ghost A: Matrix, ghost F: Matrix)
    requires a.Length0 == a.Length1 == n + 1
    requires Eliminated(A, F, n + 1) && Reduced(a, A, F, 0)
    modifies a
    ensures Reduced(a, A, F, n + 1)
  {
    forall c | 0 <= c <= n
      ensures F(0, c) == A(0, c)
    {
      assert EliminatedAt(A, F, 0, c);
    }
    for i := 0 to n
      invariant forall r, c | 0 <= r <= n && 0 <= c <= n ::
                  a[r, c] == if r <= i || c < i then F(r, c) else A(r, c)
    {
      LowerColumn(a, i, n + 1, A, F);
      UpperRow(a, i + 1, i + 1, n + 1, A, F);
    }
  }

  // ----- the right-looking nest of lu -----

  /** The same factors with the pivots moved from U to L: unit upper triangle. */
  function Crout(F: Matrix): Matrix {
    (r: int, c: int) =>
      if r == c then F(r, c)
      else if r > c then F(r, c) * F(c, c)
      else if F(r, r) == 0.0 then 0.0
      else F(r, c) / F(r, r)
  }

  lemma CroutProduct(F: Matrix, G: Matrix, r: int, k: int, c: int)
    requires G == Crout(F) && k < r && k < c && F(k, k) != 0.0
    ensures G(r, k) * G(k, c) == F(r, k) * F(k, c)
  {
    assert G(r, k) * G(k, c) == F(r, k) * (F(k, k) * (F(k, c) / F(k, k)));
  }

  lemma CroutDot(F: Matrix, G: Matrix, r: int, c: int, n: nat)
    requires G == Crout(F) && n <= r && n <= c
    requires forall k | 0 <= k < n :: F(k, k) != 0.0
    ensures Dot(G, G, r, c, n) == Dot(F, F, r, c, n)
  {
    forall k | 0 <= k < n
      ensures G(r, k) * G(k, c) == F(r, k) * F(k, c)
    {
      CroutProduct(F, G, r, k, c);
    }
    DotCong(G, G, F, F, r, c, n);
  }

  /** The equation that right-looking elimination of A solves for cell (r, c). */
  ghost predicate CroutEliminatedAt(A: Matrix, G: Matrix, r: int, c: int) {
    && (0 <= c <= r ==> G(r, c) == A(r, c) - Dot(G, G, r, c, c))
    && (0 <= r < c ==> G(r, r) != 0.0 && G(r, c) == (A(r, c) - Dot(G, G, r, c, r)) / G(r, r))
  }

  /** G is what right-looking elimination of A leaves in place. */
  ghost predicate CroutEliminated(A: Matrix, G: Matrix, n: nat) {
    forall r, c | 0 <= r < n && 0 <= c < n :: CroutEliminatedAt(A, G, r, c)
  }

  lemma CroutEntry(A: Matrix, F: Matrix, G: Matrix, r: int, c: int)
    requires 0 <= r && 0 <= c && G == Crout(F)
    requires EliminatedAt(A, F, r, c) && (r < c ==> F(r, r) != 0.0)
    requires r < c ==> EliminatedAt(A, F, r, r)
    requires forall k | 0 <= k < r && 0 <= k < c :: F(k, k) != 0.0
    ensures CroutEliminatedAt(A, G, r, c)
  {
    CroutDot(F, G, r, c, if r < c then r else c);
  }

  lemma CroutIsEliminated(A: Matrix, F: Matrix, G: Matrix, n: nat)
    requires Eliminated(A, F, n) && G == Crout(F)
    ensures CroutEliminated(A, G, n)
  {
    forall r, c | 0 <= r < n && 0 <= c < n
      ensures CroutEliminatedAt(A, G, r, c)
    {
      forall k | 0 <= k < r && 0 <= k < c
        ensures F(k, k) != 0.0
      {
        assert EliminatedAt(A, F, r, k);
      }
      assert r < c ==> EliminatedAt(A, F, c, r);
      CroutEntry(A, F, G, r, c);
    }
  }

  /** After k steps: rows and columns below k are final, the rest has lost k products. */
  ghost predicate Updated(a: array2<real>, A: Matrix, G: Matrix, k: nat)
    reads a
  {
    forall r, c | 0 <= r < a.Length0 && 0 <= c < a.Length1 ::
      a[r, c] == if r < k || c < k then G(r, c) else A(r, c) - Dot(G, G, r, c, k)
  }

  /** One row of the rank-one update of step k. */
  method UpdateRow(n: nat, a: array2<real>, k: nat, i: nat, ghost A: Matrix, ghost G: Matrix)
    requires a.Length0 == a.Length1 == n && k < i < n
    requires forall c | k < c < n :: a[k, c] == G(k, c) && a[i, c] == A(i, c) - Dot(G, G, i, c, k)
    requires a[i, k] == G(i, k)
    modifies a
    ensures forall r, c | 0 <= r < n && 0 <= c < n ::
              a[r, c] == if r == i && c > k then A(i, c) - Dot(G, G, i, c, k + 1) else old(a[r, c])
  {
    for j := k + 1 to n
      invariant forall r, c | 0 <= r < n && 0 <= c < n ::
                  a[r, c] == if r == i && k < c < j then A(i, c) - Dot(G, G, i, c, k + 1) else old(a[r, c])
    {
      assert Dot(G, G, i, j, k + 1) == Dot(G, G, i, j, k) + G(i, k) * G(k, j);
      a[i, j] := a[i, j] - a[i, k] * a[k, j];
    }
  }

  /** The pivot row of step k is divided by the pivot. */
  method DividePivotRow(n: nat, a: array2<real>, k: nat, ghost A: Matrix, ghost G: Matrix)
    requires a.Length0 == a.Length1 == n && k < n
    requires CroutEliminated(A, G, n) && Updated(a, A, G, k)
    modifies a
    ensures forall r, c | 0 <= r < n && 0 <= c < n ::
              a[r, c] == if r <= k || c <= k then G(r, c) else A(r, c) - Dot(G, G, r, c, k)
  {
    forall r | k <= r < n
      ensures a[r, k] == G(r, k)
    {
      assert CroutEliminatedAt(A, G, r, k);
    }
    for j := k + 1 to n
      invariant forall r, c | 0 <= r < n && 0 <= c < n ::
                  a[r, c] == if r < k || c <= k || (r == k && c < j) then G(r, c) else A(r, c) - Dot(G, G, r, c, k)
    {
      assert CroutEliminatedAt(A, G, k, j);
      a[k, j] := a[k, j] / a[k, k];
    }
  }

  /** One step k of lu. */
  method UpdateBlock(n: nat, a: array2<real>, k: nat, ghost A: Matrix, ghost G: Matrix)
    requires a.Length0 == a.Length1 == n && k < n
    requires forall r, c | 0 <= r < n && 0 <= c < n ::
               a[r, c] == if r <= k || c <= k then G(r, c) else A(r, c) - Dot(G, G, r, c, k)
    modifies a
    ensures Updated(a, A, G, k + 1)
  {
    for i := k + 1 to n
      invariant forall r, c | 0 <= r < n && 0 <= c < n ::
                  a[r, c] == if r <= k || c <= k then G(r, c)
                             else A(r, c) - Dot(G, G, r, c, if r < i then k + 1 else k)
    {
      UpdateRow(n, a, k, i, A, G);
    }
  }

  method RightLooking(n: nat, a: array2<real>, ghost A: Matrix, ghost G: Matrix)
    requires a.Length0 == a.Length1 == n
    requires CroutEliminated(A, G, n) && Updated(a, A, G, 0)
    modifies a
    ensures forall r, c | 0 <= r < n && 0 <= c < n :: a[r, c] == G(r, c)
  {
    for k := 0 to n
      invariant Updated(a, A, G, k)
    {
      DividePivotRow(n, a, k, A, G);
      UpdateBlock(n, a, k, A, G);
    }
  }
}
