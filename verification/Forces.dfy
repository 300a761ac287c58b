// The forces on the periodic grid of Stars-PM: half differences of the potential between
// neighbours, where neighbours wrap around by masking with NP - 1, NP being a power of two.

module Forces {
  import opened Arithmetic
  import opened Sums

  // ----- masks -----

  /** The bitwise and, on two's complement for a negative a. */
  function BitAnd(a: int, b: nat): nat
    decreases b
  {
    if b == 0 then 0 else (a % 2) * (b % 2) + 2 * BitAnd(a / 2, b / 2)
  }

  function Power2(k: nat): (n: nat)
    ensures n > 0
  {
    if k == 0 then 1 else 2 * Power2(k - 1)
  }

  /** Masking with a power of two less one wraps around, for negative numbers too. */
  lemma {:induction false} MaskWraps(a: int, k: nat, n: nat)
    requires n == Power2(k)
    ensures BitAnd(a, n - 1) == a % n
    decreases k
  {
    if k > 0 {
      var h, b := Power2(k - 1), a / 2;
      MaskWraps(b, k - 1, h);
      assert n == 2 * h;
      hide BitAnd, Power2;
      MaskDouble(a, b, h, n);
    }
  }

  lemma MaskDouble(a: int, b: int, h: nat, n: nat)
    requires b == a / 2 && h > 0 && n == 2 * h && BitAnd(b, h - 1) == b % h
    ensures BitAnd(a, n - 1) == a % n
  {
    hide BitAnd;
    MaskBit(a, h);
    HalfModulo(a, h);
  }

  lemma MaskBit(a: int, h: nat)
    requires h > 0
    ensures BitAnd(a, 2 * h - 1) == a % 2 + 2 * BitAnd(a / 2, h - 1)
  {
    var b := 2 * h - 1;
    assert b % 2 == 1 && b / 2 == h - 1;
    assert BitAnd(a, b) == (a % 2) * (b % 2) + 2 * BitAnd(a / 2, b / 2);
  }

  lemma HalfModulo(a: int, h: nat)
    requires h > 0
    ensures a % (2 * h) == a % 2 + 2 * ((a / 2) % h)
  {
    var q, r := (a / 2) / h, (a / 2) % h;
    var s := a % 2 + 2 * r;
    assert a / 2 == q * h + r;
    assert q * (2 * h) == 2 * (q * h);
    assert a == q * (2 * h) + s;
    ModuloUnique(a, 2 * h, q, s);
  }

  // ----- the force along an axis -----

  datatype Axis = X | Y | Z

  type Field = (int, int, int) -> real

  ghost function FieldOf(a: array3<real>, n: nat): (F: Field)
    requires a.Length0 == a.Length1 == a.Length2 == n
    reads a
    ensures forall i, j, k | 0 <= i < n && 0 <= j < n && 0 <= k < n :: F(i, j, k) == a[i, j, k]
  {
    var s := seq(n, i requires 0 <= i < n reads a =>
      seq(n, j requires 0 <= j < n reads a => seq(n, k requires 0 <= k < n reads a => a[i, j, k])));
    (i: int, j: int, k: int) => if 0 <= i < n && 0 <= j < n && 0 <= k < n then s[i][j][k] else 0.0
  }

  /** The value of a field d places on along the axis, on a grid that wraps around. */
  function Neighbour(axis: Axis, n: nat, F: Field, i: int, j: int, k: int, d: int): real
    requires n > 0
  {
    match axis
    case X => F((i + d) % n, j, k)
    case Y => F(i, (j + d) % n, k)
    case Z => F(i, j, (k + d) % n)
  }

  ghost predicate IsForceAt(axis: Axis, n: nat, dx: real, pot: Field, f: Field, i: int, j: int, k: int)
    requires n > 0 && dx != 0.0
  {
    f(i, j, k) == (Neighbour(axis, n, pot, i, j, k, 1) - Neighbour(axis, n, pot, i, j, k, -1)) / (2.0 * dx)
  }

  ghost predicate IsForce(axis: Axis, n: nat, dx: real, pot: Field, f: Field)
    requires n > 0 && dx != 0.0
  {
    forall i, j, k | 0 <= i < n && 0 <= j < n && 0 <= k < n :: IsForceAt(axis, n, dx, pot, f, i, j, k)
  }

  /** The same on the entries of the arrays: along the axis, half the difference between the next
      entry and the one before, on a grid that wraps around. */
  ghost predicate HalfDifference(axis: Axis, n: nat, dx: real, pot: array3<real>, f: array3<real>, i: int, j: int, k: int)
    requires pot.Length0 == pot.Length1 == pot.Length2 == f.Length0 == f.Length1 == f.Length2 == n
    requires 0 <= i < n && 0 <= j < n && 0 <= k < n
    reads pot, f
  {
    f[i, j, k] * (2.0 * dx) ==
    match axis
    case X => pot[if i == n - 1 then 0 else i + 1, j, k] - pot[if i == 0 then n - 1 else i - 1, j, k]
    case Y => pot[i, if j == n - 1 then 0 else j + 1, k] - pot[i, if j == 0 then n - 1 else j - 1, k]
    case Z => pot[i, j, if k == n - 1 then 0 else k + 1] - pot[i, j, if k == 0 then n - 1 else k - 1]
  }

  /** Along the axis, the next entry less the one before, on a grid that wraps around. */
  function Difference(axis: Axis, n: nat, pot: array3<real>, i: int, j: int, k: int): real
    requires pot.Length0 == pot.Length1 == pot.Length2 == n && 0 <= i < n && 0 <= j < n && 0 <= k < n
    reads pot
  {
    match axis
    case X => pot[if i == n - 1 then 0 else i + 1, j, k] - pot[if i == 0 then n - 1 else i - 1, j, k]
    case Y => pot[i, if j == n - 1 then 0 else j + 1, k] - pot[i, if j == 0 then n - 1 else j - 1, k]
    case Z => pot[i, j, if k == n - 1 then 0 else k + 1] - pot[i, j, if k == 0 then n - 1 else k - 1]
  }

  lemma Around(n: nat, c: nat)
    requires c < n
    ensures (c + 1) % n == (if c == n - 1 then 0 else c + 1) && (c - 1) % n == if c == 0 then n - 1 else c - 1
  {
    ForthAndBack(n, c);
    if c < n - 1 {
      ModuloUnique(c + 1, n, 0, c + 1);
    } else {
      ModuloUnique(n, n, 1, 0);
    }
    if c > 0 {
      ModuloUnique(c - 1, n, 0, c - 1);
    } else {
      ModuloUnique(-1, n, -1, n - 1);
    }
  }

  lemma ForceOnEntries(axis: Axis, n: nat, dx: real, pot: array3<real>, f: array3<real>, i: nat, j: nat, k: nat)
    requires n > 0 && dx != 0.0 && pot.Length0 == pot.Length1 == pot.Length2 == f.Length0 == f.Length1 == f.Length2 == n
    requires IsForce(axis, n, dx, FieldOf(pot, n), FieldOf(f, n)) && i < n && j < n && k < n
    ensures HalfDifference(axis, n, dx, pot, f, i, j, k)
  {
    hide FieldOf, Neighbour;
    var P, d := FieldOf(pot, n), Difference(axis, n, pot, i, j, k);
    assert f[i, j, k] == d / (2.0 * dx) by {
      assert IsForceAt(axis, n, dx, P, FieldOf(f, n), i, j, k);
      DifferenceIs(axis, n, pot, i, j, k);
    }
    assert d == Neighbour(axis, n, P, i, j, k, 1) - Neighbour(axis, n, P, i, j, k, -1) by {
      DifferenceIs(axis, n, pot, i, j, k);
    }
    hide IsForceAt;
    assert f[i, j, k] * (2.0 * dx) == d by {
      Undivided(f[i, j, k], d, 2.0 * dx);
    }
  }

  lemma DifferenceIs(axis: Axis, n: nat, pot: array3<real>, i: nat, j: nat, k: nat)
    requires pot.Length0 == pot.Length1 == pot.Length2 == n && i < n && j < n && k < n
    ensures var P := FieldOf(pot, n);
            Difference(axis, n, pot, i, j, k) == Neighbour(axis, n, P, i, j, k, 1) - Neighbour(axis, n, P, i, j, k, -1)
  {
    hide FieldOf;
    Around(n, i);
    Around(n, j);
    Around(n, k);
  }

  lemma Undivided(f: real, d: real, x: real)
    requires x != 0.0 && f == d / x
    ensures f * x == d
  {
  }

  /** The places after and before c on the circle, found by masking. */
  method Masked(lg: nat, c: nat) returns (next: nat, prev: nat)
    requires c < Power2(lg)
    ensures next == (c + 1) % Power2(lg) && prev == (c - 1) % Power2(lg)
  {
    hide Power2, BitAnd;
    var np := Power2(lg);
    MaskWraps(c + 1, lg, np);
    MaskWraps(c - 1, lg, np);
    next, prev := BitAnd(c + 1, np - 1), BitAnd(c - 1, np - 1);
  }

  /** The bodies of _forcex, _forcey and _forcez. */
  method ForceAt(axis: Axis, lg: nat, dx: real, pot: array3<real>, i: nat, j: nat, k: nat) returns (f: real)
    requires dx != 0.0 && pot.Length0 == pot.Length1 == pot.Length2 == Power2(lg)
    requires i < Power2(lg) && j < Power2(lg) && k < Power2(lg)
    ensures var F, n := FieldOf(pot, Power2(lg)), Power2(lg);
            f == (Neighbour(axis, n, F, i, j, k, 1) - Neighbour(axis, n, F, i, j, k, -1)) / (2.0 * dx)
  {
    hide Power2, FieldOf;
    match axis {
      case X =>
        var next, prev := Masked(lg, i);
        f := (pot[next, j, k] - pot[prev, j, k]) / (2.0 * dx);
      case Y =>
        var next, prev := Masked(lg, j);
        f := (pot[i, next, k] - pot[i, prev, k]) / (2.0 * dx);
      case Z =>
        var next, prev := Masked(lg, k);
        f := (pot[i, j, next] - pot[i, j, prev]) / (2.0 * dx);
    }
  }

  /** Entry (i, j, k) comes before (a, b, c) in the order of the loops. */
  predicate Before(i: int, j: int, k: int, a: int, b: int, c: int) {
    i < a || (i == a && (j < b || (j == b && k < c)))
  }

  ghost predicate ForceBefore(axis: Axis, n: nat, dx: real, pot: Field, f: array3<real>, a: int, b: int, c: int)
    requires n > 0 && dx != 0.0 && f.Length0 == f.Length1 == f.Length2 == n
    reads f
  {
    forall i, j, k | 0 <= i < n && 0 <= j < n && 0 <= k < n && Before(i, j, k, a, b, c) ::
      f[i, j, k] == (Neighbour(axis, n, pot, i, j, k, 1) - Neighbour(axis, n, pot, i, j, k, -1)) / (2.0 * dx)
  }

  /** _forcex, _forcey and _forcez. */
  method Force(axis: Axis, lg: nat, dx: real, pot: array3<real>, f: array3<real>)
    requires dx != 0.0 && pot.Length0 == pot.Length1 == pot.Length2 == Power2(lg)
    requires f != pot && f.Length0 == f.Length1 == f.Length2 == Power2(lg)
    modifies f
    ensures IsForce(axis, Power2(lg), dx, FieldOf(pot, Power2(lg)), FieldOf(f, Power2(lg)))
    ensures forall i, j, k | 0 <= i < Power2(lg) && 0 <= j < Power2(lg) && 0 <= k < Power2(lg) ::
              HalfDifference(axis, Power2(lg), dx, pot, f, i, j, k)
  {
    hide Power2, Neighbour, FieldOf, HalfDifference;
    var np := Power2(lg);
    ghost var P := FieldOf(pot, np);
    for i := 0 to np
      invariant ForceBefore(axis, np, dx, P, f, i, 0, 0)
    {
      for j := 0 to np
        invariant ForceBefore(axis, np, dx, P, f, i, j, 0)
      {
        ForceLine(axis, lg, dx, pot, f, i, j);
      }
    }
    assert IsForce(axis, np, dx, P, FieldOf(f, np));
    forall i, j, k | 0 <= i < np && 0 <= j < np && 0 <= k < np
      ensures HalfDifference(axis, np, dx, pot, f, i, j, k)
    {
      ForceOnEntries(axis, np, dx, pot, f, i, j, k);
    }
  }

  method ForceLine(axis: Axis, lg: nat, dx: real, pot: array3<real>, f: array3<real>, i: nat, j: nat)
    requires dx != 0.0 && pot.Length0 == pot.Length1 == pot.Length2 == Power2(lg)
    requires f != pot && f.Length0 == f.Length1 == f.Length2 == Power2(lg) && i < Power2(lg) && j < Power2(lg)
    requires ForceBefore(axis, Power2(lg), dx, FieldOf(pot, Power2(lg)), f, i, j, 0)
    modifies f
    ensures ForceBefore(axis, Power2(lg), dx, FieldOf(pot, Power2(lg)), f, i, j + 1, 0)
  {
    hide Power2, Neighbour, FieldOf;
    var np := Power2(lg);
    ghost var P := FieldOf(pot, np);
    for k := 0 to np
      invariant ForceBefore(axis, np, dx, P, f, i, j, k)
    {
      f[i, j, k] := ForceAt(axis, lg, dx, pot, i, j, k);
    }
  }

  // ----- conservation -----

  lemma {:induction false} SumFromOne(n: nat, f: Vec)
    ensures Sum(n, i => f(i + 1)) == Sum(n + 1, f) - f(0)
  {
    if n > 0 {
      SumFromOne(n - 1, f);
      SumCong(n - 1, i => f(i + 1), i => f(i + 1));
    }
  }

  /** The values one place on, and one place back, round the circle. */
  function Next(n: nat, f: Vec): Vec {
    i => if 0 <= i < n then f((i + 1) % n) else 0.0
  }

  function Prev(n: nat, f: Vec): Vec {
    i => if 0 <= i < n then f((i - 1) % n) else 0.0
  }

  /** Going round the circle once meets every place once. */
  lemma SumNext(n: nat, f: Vec)
    requires n > 0
    ensures Sum(n, Next(n, f)) == Sum(n, f)
  {
    var next: Vec := i => f(i + 1);
    SumFromOne(n - 1, f);
    forall i | 0 <= i < n - 1 ensures Next(n, f)(i) == next(i) {
      ModuloUnique(i + 1, n, 0, i + 1);
    }
    SumCong(n - 1, Next(n, f), next);
    ModuloUnique(n, n, 1, 0);
  }

  lemma SumPrev(n: nat, f: Vec)
    requires n > 0
    ensures Sum(n, Prev(n, f)) == Sum(n, f)
  {
    SumNext(n, Prev(n, f));
    forall i | 0 <= i < n ensures Next(n, Prev(n, f))(i) == f(i) {
      ForthAndBack(n, i);
    }
    SumCong(n, Next(n, Prev(n, f)), f);
  }

  lemma ForthAndBack(n: nat, i: int)
    requires 0 <= i < n
    ensures 0 <= (i + 1) % n < n && ((i + 1) % n - 1) % n == i
  {
    if i < n - 1 {
      ModuloUnique(i + 1, n, 0, i + 1);
      ModuloUnique(i, n, 0, i);
    } else {
      ModuloUnique(n, n, 1, 0);
      ModuloUnique(-1, n, -1, n - 1);
    }
  }

  /** The values of a field along a line of the axis. */
  function Line(axis: Axis, F: Field, a: int, b: int): Vec {
    match axis
    case X => (i: int) => F(i, a, b)
    case Y => (i: int) => F(a, i, b)
    case Z => (i: int) => F(a, b, i)
  }

  lemma DifferencesTotal(n: nat, p: Vec, diff: Vec)
    requires n > 0 && forall i | 0 <= i < n :: diff(i) == Next(n, p)(i) - Prev(n, p)(i)
    ensures Sum(n, diff) == 0.0
  {
    SumNext(n, p);
    SumPrev(n, p);
    hide Sum;
    SumAdd(n, diff, Prev(n, p), Next(n, p));
  }

  /** On the periodic grid the force sums to zero along every line of its axis. */
  lemma ForceTotal(axis: Axis, n: nat, dx: real, pot: Field, f: Field, a: int, b: int)
    requires n > 0 && dx != 0.0 && 0 <= a < n && 0 <= b < n && IsForce(axis, n, dx, pot, f)
    ensures Sum(n, Line(axis, f, a, b)) == 0.0
  {
    hide Sum, IsForce;
    var p, c := Line(axis, pot, a, b), 1.0 / (2.0 * dx);
    var diff: Vec := i => Next(n, p)(i) - Prev(n, p)(i);
    DifferencesTotal(n, p, diff);
    forall i | 0 <= i < n ensures Line(axis, f, a, b)(i) == c * diff(i) {
      ForceOnLine(axis, n, dx, pot, f, a, b, i);
    }
    hide Line, Next, Prev;
    SumScale(n, c, diff, Line(axis, f, a, b));
  }

  lemma ForceOnLine(axis: Axis, n: nat, dx: real, pot: Field, f: Field, a: int, b: int, i: int)
    requires n > 0 && dx != 0.0 && 0 <= a < n && 0 <= b < n && 0 <= i < n && IsForce(axis, n, dx, pot, f)
    ensures var p := Line(axis, pot, a, b);
            Line(axis, f, a, b)(i) == (1.0 / (2.0 * dx)) * (p((i + 1) % n) - p((i - 1) % n))
  {
    var p := Line(axis, pot, a, b);
    assert match axis
      case X => IsForceAt(axis, n, dx, pot, f, i, a, b)
      case Y => IsForceAt(axis, n, dx, pot, f, a, i, b)
      case Z => IsForceAt(axis, n, dx, pot, f, a, b, i);
    Reciprocal(p((i + 1) % n) - p((i - 1) % n), 2.0 * dx);
  }

  /** Away from the wrap, the force of a potential that rises evenly along the axis is its slope. */
  lemma ForceOfSlope(axis: Axis, n: nat, dx: real, pot: Field, f: Field, a: int, b: int, i: int, slope: real, base: real)
    requires n > 0 && dx != 0.0 && 0 <= a < n && 0 <= b < n && 0 < i < n - 1 && IsForce(axis, n, dx, pot, f)
    requires forall u | 0 <= u < n :: Line(axis, pot, a, b)(u) == base + u as real * slope
    ensures Line(axis, f, a, b)(i) * dx == slope
  {
    var p := Line(axis, pot, a, b);
    ForceOnLine(axis, n, dx, pot, f, a, b, i);
    Around(n, i);
    hide Line, IsForce;
    assert p(i + 1) == base + (i + 1) as real * slope && p(i - 1) == base + (i - 1) as real * slope;
    SlopeOf(Line(axis, f, a, b)(i), p(i + 1) - p(i - 1), dx, slope, i as real, base);
  }

  lemma SlopeOf(f: real, d: real, dx: real, slope: real, i: real, base: real)
    requires dx != 0.0 && f == (1.0 / (2.0 * dx)) * d
    requires d == (base + (i + 1.0) * slope) - (base + (i - 1.0) * slope)
    ensures f * dx == slope
  {
    assert d == 2.0 * slope;
    Reciprocal(d, 2.0 * dx);
    Undivided(f, d, 2.0 * dx);
  }

  lemma Reciprocal(x: real, d: real)
    requires d != 0.0
    ensures x / d == (1.0 / d) * x
  {
  }
}
