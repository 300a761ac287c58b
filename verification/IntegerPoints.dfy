// The search for an integer point of a scanned polyhedron: the bounds of one loop level,
// the recursion over the levels, and the test that calls it.

module IntegerPoints {
  import opened Arithmetic
  import opened Gcd

  /** A constraint row: kind (zero for an equality), the coefficients of indices 1..dim, and
      the constant, which multiplies the last entry of the context. */
  type Constraint = Row

  /** The constraints of one loop level. */
  type Level = seq<Constraint>

  ghost predicate IsLevel(level: Level, width: nat) {
    forall i | 0 <= i < |level| :: |level[i]| == width
  }

  // ----- meaning -----

  /** The linear form of a row at a context, without entry 0. */
  function Form(row: Constraint, ctx: seq<int>, n: nat): int
    requires n <= |row| && n <= |ctx|
  {
    if n <= 1 then 0 else Form(row, ctx, n - 1) + ctx[n - 1] * row[n - 1]
  }

  predicate Satisfied(row: Constraint, value: int)
    requires |row| > 0
  {
    if row[0] == 0 then value == 0 else value >= 0
  }

  ghost predicate Holds(level: Level, ctx: seq<int>)
    requires |ctx| > 0 && IsLevel(level, |ctx|)
  {
    forall i | 0 <= i < |level| :: Satisfied(level[i], Form(level[i], ctx, |ctx|))
  }

  /** Index pos is confined to an interval once the outer indices are fixed. */
  ghost predicate Bounded(level: Level, pos: nat, ctx: seq<int>)
    requires pos < |ctx| && IsLevel(level, |ctx|)
  {
    exists lo, hi :: Between(level, pos, ctx, lo, hi)
  }

  ghost predicate Between(level: Level, pos: nat, ctx: seq<int>, lo: int, hi: int)
    requires pos < |ctx| && IsLevel(level, |ctx|)
  {
    forall k :: HoldsAt(level, pos, ctx, k) ==> lo <= k <= hi
  }

  /** The level holds with index pos set to k. */
  ghost predicate HoldsAt(level: Level, pos: nat, ctx: seq<int>, k: int)
    requires pos < |ctx| && IsLevel(level, |ctx|)
  {
    Holds(level, ctx[pos := k])
  }

  lemma {:induction false} FormUpdate(row: Constraint, ctx: seq<int>, n: nat, pos: nat, k: int)
    requires n <= |row| && n <= |ctx| && 1 <= pos < |ctx| && ctx[pos] == 0
    ensures Form(row, ctx[pos := k], n) == Form(row, ctx, n) + if pos < n then k * row[pos] else 0
  {
    if n > 1 {
      FormUpdate(row, ctx, n - 1, pos, k);
    }
  }

  // ----- C division -----

  /** Quotient and remainder as C computes them, for divisors of either sign. */
  function Quotient(n: int, d: int): int
    requires d != 0
  {
    if d > 0 then TruncDiv(n, d) else -TruncDiv(n, -d)
  }

  function Remainder(n: int, d: int): int
    requires d != 0
  {
    n - d * Quotient(n, d)
  }

  lemma TruncDivBounds(n: int, d: int)
    requires d > 0
    ensures n >= 0 ==> 0 <= n - d * TruncDiv(n, d) < d
    ensures n < 0 ==> -d < n - d * TruncDiv(n, d) <= 0
  {
    if n < 0 {
      assert d * -((-n) / d) == -(d * ((-n) / d));
    }
  }

  /** d k >= n exactly from the rounded-up quotient on, for a positive d. */
  lemma LowerBound(n: int, d: int, k: int)
    requires d > 0
    ensures d * k >= n <==> k >= if n > 0 && Remainder(n, d) != 0 then Quotient(n, d) + 1 else Quotient(n, d)
  {
    var q := TruncDiv(n, d);
    TruncDivBounds(n, d);
    Monotone(d, k, q);
    Monotone(d, q, k);
    Monotone(d, k, q + 1);
  }

  /** d k >= n exactly up to the rounded-down quotient, for a negative d. */
  lemma UpperBound(n: int, d: int, k: int)
    requires d < 0
    ensures d * k >= n <==> k <= if n > 0 && Remainder(n, d) != 0 then Quotient(n, d) - 1 else Quotient(n, d)
  {
    var e := -d;
    LowerBound(n, e, -k);
    OppositeDivisor(n, e);
    assert d * k == e * -k;
  }

  lemma OppositeDivisor(n: int, e: int)
    requires e > 0
    ensures Quotient(n, -e) == -Quotient(n, e) && Remainder(n, -e) == Remainder(n, e)
  {
    assert -e * -Quotient(n, e) == e * Quotient(n, e);
  }

  lemma ExactBound(n: int, d: int, k: int)
    requires d != 0
    ensures d * k == n <==> Remainder(n, d) == 0 && k == Quotient(n, d)
  {
    if d * k == n {
      if d > 0 {
        ExactQuotient(n, d, k);
      } else {
        assert n == -d * -k;
        ExactQuotient(n, -d, -k);
      }
    }
  }

  // ----- lower_upper_bounds -----

  /** The interval found so far; an infinite side carries no value. */
  datatype Interval = Interval(lowInfinite: bool, highInfinite: bool, low: int, high: int) {
    predicate Contains(k: int) {
      (lowInfinite || low <= k) && (highInfinite || k <= high)
    }
  }

  const EMPTY := Interval(false, false, 1, 0)

  function RaiseLow(b: Interval, n: int): Interval {
    if b.lowInfinite || n > b.low then b.(lowInfinite := false, low := n) else b
  }

  function LowerHigh(b: Interval, n: int): Interval {
    if b.highInfinite || n < b.high then b.(highInfinite := false, high := n) else b
  }

  /** The inner product of context and row, from index 1 on. */
  method InnerProduct(row: Constraint, context: array<int>) returns (n: int)
    requires |row| == context.Length > 0
    ensures n == Form(row, context[..], context.Length)
  {
    n := 0;
    for c := 1 to context.Length
      invariant n == Form(row, context[..], c)
    {
      n := n + context[c] * row[c];
    }
  }

  lemma FormAt(row: Constraint, ctx: seq<int>, pos: nat, k: int, n: int, d: int)
    requires 1 <= pos < |ctx| == |row| && ctx[pos] == 0 && n == Form(row, ctx, |ctx|) && d == row[pos]
    ensures Form(row, ctx[pos := k], |ctx|) == if d == 0 then n else n + d * k
  {
    FormUpdate(row, ctx, |ctx|, pos, k);
    if d == 0 {
      assert k * d == 0;
    }
  }

  /** What one constraint with coefficient d and constant part n says of index k. */
  ghost predicate Accepts(kind: int, n: int, d: int, k: int) {
    var value := if d == 0 then n else n + d * k;
    if kind == 0 then value == 0 else value >= 0
  }

  /** One constraint narrows the interval; `empty` stands for the jump to the empty loop. */
  method Narrow(kind: int, n0: int, d: int, b: Interval) returns (empty: bool, r: Interval)
    ensures forall k :: !empty && r.Contains(k) <==> b.Contains(k) && Accepts(kind, n0, d, k)
  {
    empty, r := false, b;
    if d == 0 {
      empty := n0 < 0 || (kind == 0 && n0 != 0);
      return;
    }
    var n := -n0;
    forall k
      ensures d * k == n <==> Remainder(n, d) == 0 && k == Quotient(n, d)
    {
      ExactBound(n, d, k);
    }
    if kind == 0 {
      if Remainder(n, d) != 0 {
        empty := true;
        return;
      }
      var q := Quotient(n, d);
      r := LowerHigh(RaiseLow(r, q), q);
    }
    if d > 0 {
      forall k { LowerBound(n, d, k); }
      r := RaiseLow(r, if n > 0 && Remainder(n, d) != 0 then Quotient(n, d) + 1 else Quotient(n, d));
    }
    if d < 0 {
      forall k { UpperBound(n, d, k); }
      r := LowerHigh(r, if n > 0 && Remainder(n, d) != 0 then Quotient(n, d) - 1 else Quotient(n, d));
    }
  }

  ghost predicate HoldsUpTo(level: Level, ctx: seq<int>, n: nat)
    requires |ctx| > 0 && IsLevel(level, |ctx|) && n <= |level|
  {
    forall i | 0 <= i < n :: Satisfied(level[i], Form(level[i], ctx, |ctx|))
  }

  lemma HoldsUpToNext(level: Level, ctx: seq<int>, pos: nat, k: int, i: nat, n: int, d: int)
    requires 1 <= pos < |ctx| && IsLevel(level, |ctx|) && i < |level| && ctx[pos] == 0
    requires n == Form(level[i], ctx, |ctx|) && d == level[i][pos]
    ensures HoldsUpTo(level, ctx[pos := k], i + 1) <==>
            HoldsUpTo(level, ctx[pos := k], i) && Accepts(level[i][0], n, d, k)
  {
    FormAt(level[i], ctx, pos, k, n, d);
  }

  /** lower_upper_bounds: the interval holds exactly the values of index pos that satisfy the
      level, the entries of the context after pos being zero. */
  method LowerUpperBounds(pos: nat, level: Level, context: array<int>) returns (b: Interval)
    requires 1 <= pos < context.Length && IsLevel(level, context.Length) && context[pos] == 0
    ensures forall k :: b.Contains(k) <==> HoldsAt(level, pos, context[..], k)
  {
    ghost var ctx := context[..];
    b := Interval(true, true, 0, 0);
    for i := 0 to |level|
      invariant forall k :: b.Contains(k) <==> HoldsUpTo(level, ctx[pos := k], i)
    {
      var n := InnerProduct(level[i], context);
      var d := level[i][pos];
      var empty, r := Narrow(level[i][0], n, d, b);
      forall k { HoldsUpToNext(level, ctx, pos, k, i, n, d); }
      if empty {
        forall k
          ensures !HoldsAt(level, pos, ctx, k)
        {
          assert b.Contains(k) <==> HoldsUpTo(level, ctx[pos := k], i);
          HoldsUpToNext(level, ctx, pos, k, i, n, d);
          assert !HoldsUpTo(level, ctx[pos := k], i + 1);
        }
        return EMPTY;
      }
      b := r;
    }
    forall k
      ensures HoldsAt(level, pos, ctx, k) <==> HoldsUpTo(level, ctx[pos := k], |level|)
    {
    }
  }

  lemma BoundedIffFinite(level: Level, pos: nat, ctx: seq<int>, b: Interval)
    requires pos < |ctx| && IsLevel(level, |ctx|)
    requires forall k :: b.Contains(k) <==> HoldsAt(level, pos, ctx, k)
    ensures Bounded(level, pos, ctx) <==> !b.lowInfinite && !b.highInfinite
  {
    if Bounded(level, pos, ctx) {
      var lo, hi :| Between(level, pos, ctx, lo, hi);
      var down := if b.highInfinite || lo - 1 < b.high then lo - 1 else b.high;
      var up := if b.lowInfinite || hi + 1 > b.low then hi + 1 else b.low;
      assert b.Contains(down) <==> HoldsAt(level, pos, ctx, down);
      assert b.Contains(up) <==> HoldsAt(level, pos, ctx, up);
    }
    if !b.lowInfinite && !b.highInfinite {
      assert Between(level, pos, ctx, b.low, b.high);
    }
  }

  // ----- the recursion over the levels -----

  ghost predicate AreLevels(levels: seq<Level>, pos: nat, width: nat) {
    && |levels| > 0 && 1 <= pos && pos + |levels| < width
    && forall l | 0 <= l < |levels| :: IsLevel(levels[l], width)
  }

  /** The indices from pos on are still zero; the last entry is the constant. */
  ghost predicate ZeroFrom(ctx: seq<int>, pos: nat) {
    forall k | pos <= k < |ctx| - 1 :: ctx[k] == 0
  }

  /** p gives one value a level, each satisfying its level with the outer values in place. */
  ghost predicate IsPoint(levels: seq<Level>, pos: nat, ctx: seq<int>, p: seq<int>)
    requires AreLevels(levels, pos, |ctx|)
    decreases |levels|
  {
    && |p| == |levels|
    && HoldsAt(levels[0], pos, ctx, p[0])
    && (|levels| == 1 || IsPoint(levels[1..], pos + 1, ctx[pos := p[0]], p[1..]))
  }

  /** What the search looks for: a point all of whose levels are bounded. */
  ghost predicate Found(levels: seq<Level>, pos: nat, ctx: seq<int>)
    requires AreLevels(levels, pos, |ctx|)
    decreases |levels|, 1
  {
    Bounded(levels[0], pos, ctx) && exists k :: FoundFrom(levels, pos, ctx, k)
  }

  ghost predicate FoundFrom(levels: seq<Level>, pos: nat, ctx: seq<int>, k: int)
    requires AreLevels(levels, pos, |ctx|)
    decreases |levels|, 0
  {
    && HoldsAt(levels[0], pos, ctx, k)
    && (|levels| == 1 || Found(levels[1..], pos + 1, ctx[pos := k]))
  }

  /** The context with the values of p from pos on. */
  function Filled(ctx: seq<int>, pos: nat, p: seq<int>): seq<int>
    requires pos + |p| <= |ctx|
    decreases |p|
  {
    if p == [] then ctx else Filled(ctx[pos := p[0]], pos + 1, p[1..])
  }

  /** Each level is bounded at the point's own outer values. */
  ghost predicate BoundedAlong(levels: seq<Level>, pos: nat, ctx: seq<int>, p: seq<int>)
    requires AreLevels(levels, pos, |ctx|) && |p| == |levels|
    decreases |levels|
  {
    && Bounded(levels[0], pos, ctx)
    && (|levels| == 1 || BoundedAlong(levels[1..], pos + 1, ctx[pos := p[0]], p[1..]))
  }

  /** Lexicographic order on points of as many values. */
  predicate LexAtMost(p: seq<int>, q: seq<int>)
    requires |p| == |q|
  {
    p == [] || p[0] < q[0] || (p[0] == q[0] && LexAtMost(p[1..], q[1..]))
  }

  /** The first point in lexicographic order among those along which every level is bounded. */
  ghost predicate IsFirstPoint(levels: seq<Level>, pos: nat, ctx: seq<int>, p: seq<int>)
    requires AreLevels(levels, pos, |ctx|)
  {
    && IsPoint(levels, pos, ctx, p) && BoundedAlong(levels, pos, ctx, p)
    && forall q | IsPoint(levels, pos, ctx, q) && BoundedAlong(levels, pos, ctx, q) :: LexAtMost(p, q)
  }

  lemma {:induction false} BoundedPointIsFound(levels: seq<Level>, pos: nat, ctx: seq<int>, p: seq<int>)
    requires AreLevels(levels, pos, |ctx|) && IsPoint(levels, pos, ctx, p) && BoundedAlong(levels, pos, ctx, p)
    ensures Found(levels, pos, ctx) && FoundFrom(levels, pos, ctx, p[0])
    decreases |levels|
  {
    if |levels| > 1 {
      BoundedPointIsFound(levels[1..], pos + 1, ctx[pos := p[0]], p[1..]);
    }
    assert FoundFrom(levels, pos, ctx, p[0]);
  }

  /** The first value from which the search finds a point starts the first point. */
  lemma FirstFromFirst(levels: seq<Level>, pos: nat, ctx: seq<int>, k: int, rest: seq<int>)
    requires AreLevels(levels, pos, |ctx|) && Bounded(levels[0], pos, ctx) && HoldsAt(levels[0], pos, ctx, k)
    requires forall l | l < k :: !FoundFrom(levels, pos, ctx, l)
    requires if |levels| == 1 then rest == [] else IsFirstPoint(levels[1..], pos + 1, ctx[pos := k], rest)
    ensures IsFirstPoint(levels, pos, ctx, [k] + rest)
  {
    hide FoundFrom, Found;
    var p := [k] + rest;
    assert p[1..] == rest;
    forall q | IsPoint(levels, pos, ctx, q) && BoundedAlong(levels, pos, ctx, q)
      ensures LexAtMost(p, q)
    {
      BoundedPointIsFound(levels, pos, ctx, q);
      if q[0] == k && |levels| == 1 {
        assert q[1..] == [];
      }
    }
  }

  lemma {:induction false} LexTotal(p: seq<int>, q: seq<int>)
    requires |p| == |q| && LexAtMost(p, q) && LexAtMost(q, p)
    ensures p == q
  {
    if p != [] {
      LexTotal(p[1..], q[1..]);
      assert p == [p[0]] + p[1..] && q == [q[0]] + q[1..];
    }
  }

  lemma FirstPointUnique(levels: seq<Level>, pos: nat, ctx: seq<int>, p: seq<int>, q: seq<int>)
    requires AreLevels(levels, pos, |ctx|) && IsFirstPoint(levels, pos, ctx, p) && IsFirstPoint(levels, pos, ctx, q)
    ensures p == q
  {
    LexTotal(p, q);
  }

  /** exist_points. The ghost result is the first point when the answer is 1; the context then holds
      its entries but the last. Otherwise the context is back as it was. */
  method ExistPoints(pos: nat, levels: seq<Level>, context: array<int>) returns (res: int, ghost p: seq<int>)
    requires AreLevels(levels, pos, context.Length) && ZeroFrom(context[..], pos)
    modifies context
    ensures res == -1 <==> !Bounded(levels[0], pos, old(context[..]))
    ensures res == 1 <==> Found(levels, pos, old(context[..]))
    ensures res == -1 || res == 0 || res == 1
    ensures res == 1 ==> IsFirstPoint(levels, pos, old(context[..]), p)
    ensures context[..] == if res == 1 then Filled(old(context[..]), pos, p[..|p| - 1]) else old(context[..])
    decreases |levels|
  {
    ghost var ctx := context[..];
    p := [];
    var b := LowerUpperBounds(pos, levels[0], context);
    BoundedIffFinite(levels[0], pos, ctx, b);
    if b.lowInfinite || b.highInfinite {
      return -1, p;
    }
    context[pos] := 0;
    assert context[..] == ctx;
    if b.high < b.low {
      assert forall k :: !HoldsAt(levels[0], pos, ctx, k);
      return 0, p;
    }
    if |levels| == 1 {
      var count := b.high - b.low + 1;
      assert b.Contains(b.low) && FoundFrom(levels, pos, ctx, b.low);
      p := [b.low];
      FirstFromFirst(levels, pos, ctx, b.low, []);
      return if count > 0 then 1 else 0, p;
    }
    var k := b.low;
    while k <= b.high
      invariant context.Length == |ctx|
      invariant context[..] == ctx[pos := context[pos]]
      invariant k >= b.low && forall l | l < k :: !FoundFrom(levels, pos, ctx, l)
    {
      context[pos] := k;
      assert context[..] == ctx[pos := k];
      var inner;
      inner, p := ExistPoints(pos + 1, levels[1..], context);
      assert HoldsAt(levels[0], pos, ctx, k);
      if inner > 0 {
        assert FoundFrom(levels, pos, ctx, k);
        FirstFromFirst(levels, pos, ctx, k, p);
        p := [k] + p;
        assert p[1..][..|p| - 2] == p[..|p| - 1][1..];
        return 1, p;
      }
      k := k + 1;
    }
    context[pos] := 0;
    assert context[..] == ctx;
    return 0, p;
  }

  // ----- what the answer means -----

  /** Every level is bounded at every value the outer indices can take. */
  ghost predicate AllBounded(levels: seq<Level>, pos: nat, ctx: seq<int>)
    requires AreLevels(levels, pos, |ctx|)
    decreases |levels|
  {
    && Bounded(levels[0], pos, ctx)
    && (|levels| > 1 ==>
          forall k | HoldsAt(levels[0], pos, ctx, k) :: AllBounded(levels[1..], pos + 1, ctx[pos := k]))
  }

  lemma {:induction false} FoundGivesBoundedPoint(levels: seq<Level>, pos: nat, ctx: seq<int>) returns (p: seq<int>)
    requires AreLevels(levels, pos, |ctx|) && Found(levels, pos, ctx)
    ensures IsPoint(levels, pos, ctx, p) && BoundedAlong(levels, pos, ctx, p)
    decreases |levels|
  {
    var k :| FoundFrom(levels, pos, ctx, k);
    if |levels| == 1 {
      p := [k];
    } else {
      var rest := FoundGivesBoundedPoint(levels[1..], pos + 1, ctx[pos := k]);
      p := [k] + rest;
      assert p[1..] == rest;
    }
  }

  /** The search finds a point exactly when there is one along which every level is bounded. */
  lemma FoundIffBoundedPoint(levels: seq<Level>, pos: nat, ctx: seq<int>)
    requires AreLevels(levels, pos, |ctx|)
    ensures Found(levels, pos, ctx) <==> exists p :: IsPoint(levels, pos, ctx, p) && BoundedAlong(levels, pos, ctx, p)
  {
    if Found(levels, pos, ctx) {
      var p := FoundGivesBoundedPoint(levels, pos, ctx);
      assert exists q :: IsPoint(levels, pos, ctx, q) && BoundedAlong(levels, pos, ctx, q);
    }
    if exists q :: IsPoint(levels, pos, ctx, q) && BoundedAlong(levels, pos, ctx, q) {
      var p :| IsPoint(levels, pos, ctx, p) && BoundedAlong(levels, pos, ctx, p);
      BoundedPointIsFound(levels, pos, ctx, p);
    }
  }

  lemma {:induction false} AllBoundedAlong(levels: seq<Level>, pos: nat, ctx: seq<int>, p: seq<int>)
    requires AreLevels(levels, pos, |ctx|) && AllBounded(levels, pos, ctx) && IsPoint(levels, pos, ctx, p)
    ensures BoundedAlong(levels, pos, ctx, p)
    decreases |levels|
  {
    if |levels| > 1 {
      AllBoundedAlong(levels[1..], pos + 1, ctx[pos := p[0]], p[1..]);
    }
  }

  /** With bounded levels the search finds a point exactly when there is one. */
  lemma FoundIffPoint(levels: seq<Level>, pos: nat, ctx: seq<int>)
    requires AreLevels(levels, pos, |ctx|) && AllBounded(levels, pos, ctx)
    ensures Found(levels, pos, ctx) <==> exists p :: IsPoint(levels, pos, ctx, p)
  {
    if Found(levels, pos, ctx) {
      var p := FoundGivesBoundedPoint(levels, pos, ctx);
      assert exists q :: IsPoint(levels, pos, ctx, q);
    }
    if exists q :: IsPoint(levels, pos, ctx, q) {
      var p :| IsPoint(levels, pos, ctx, p);
      AllBoundedAlong(levels, pos, ctx, p);
      BoundedPointIsFound(levels, pos, ctx, p);
    }
  }

  // ----- when the answer is right -----

  /** The constraints of a level enclose its index: by an equality, or from both sides. */
  predicate Enclosed(level: Level, pos: nat)
    requires forall i | 0 <= i < |level| :: pos < |level[i]|
  {
    || (exists i :: 0 <= i < |level| && level[i][pos] != 0 && level[i][0] == 0)
    || ((exists i :: 0 <= i < |level| && level[i][pos] > 0) && exists i :: 0 <= i < |level| && level[i][pos] < 0)
  }

  ghost predicate AllEnclosed(levels: seq<Level>, pos: nat, width: nat)
    requires AreLevels(levels, pos, width)
  {
    forall l | 0 <= l < |levels| :: Enclosed(levels[l], pos + l)
  }

  lemma HoldsAtZeroed(level: Level, pos: nat, ctx: seq<int>, k: int)
    requires 1 <= pos < |ctx| && IsLevel(level, |ctx|)
    ensures HoldsAt(level, pos, ctx, k) <==> HoldsAt(level, pos, ctx[pos := 0], k)
  {
    assert ctx[pos := 0][pos := k] == ctx[pos := k];
  }

  /** What the level says of index k, one constraint at a time. */
  lemma HoldsIffAccepts(level: Level, pos: nat, ctx: seq<int>, k: int)
    requires 1 <= pos < |ctx| && IsLevel(level, |ctx|)
    ensures HoldsAt(level, pos, ctx, k) <==>
            forall i | 0 <= i < |level| ::
              Accepts(level[i][0], Form(level[i], ctx[pos := 0], |ctx|), level[i][pos], k)
  {
    var zeroed := ctx[pos := 0];
    HoldsAtZeroed(level, pos, ctx, k);
    forall i | 0 <= i < |level|
      ensures Satisfied(level[i], Form(level[i], zeroed[pos := k], |ctx|)) <==>
              Accepts(level[i][0], Form(level[i], zeroed, |ctx|), level[i][pos], k)
    {
      FormAt(level[i], zeroed, pos, k, Form(level[i], zeroed, |ctx|), level[i][pos]);
    }
  }

  /** A constraint that accepts k accepts all larger values, or none but k, or its coefficient
      is negative; and the other way round. */
  lemma AcceptsFurther(kind: int, n: int, d: int, k: int, x: int)
    requires Accepts(kind, n, d, k)
    ensures d == 0 || (kind != 0 && d > 0 && x >= k) || (kind != 0 && d < 0 && x <= k) ==> Accepts(kind, n, d, x)
    ensures d != 0 && kind == 0 && Accepts(kind, n, d, x) ==> x == k
  {
    if d > 0 {
      Monotone(d, k, x);
      Monotone(d, x, k);
    } else if d < 0 {
      Monotone(-d, k, x);
      Monotone(-d, x, k);
      assert -d * x == -(d * x) && -d * k == -(d * k);
    }
  }

  lemma AcceptsWithin(kind: int, n: int, d: int, x: int)
    requires Accepts(kind, n, d, x)
    ensures d > 0 ==> x >= 0 - Abs(n)
    ensures d < 0 ==> x <= Abs(n)
  {
    if d > 0 {
      Stretches(d, x);
    } else if d < 0 {
      Stretches(-d, x);
      assert -d * x == -(d * x);
    }
  }

  lemma Stretches(d: int, x: int)
    requires d > 0
    ensures if x >= 0 then d * x >= x else d * x <= x
  {
    if x > 0 {
      Monotone(x, d, 1);
    } else if x < 0 {
      Monotone(-x, d, 1);
      assert -x * d == -(d * x);
    }
  }

  lemma EqualityIsBounded(level: Level, pos: nat, ctx: seq<int>, k: int, i: nat)
    requires 1 <= pos < |ctx| && IsLevel(level, |ctx|) && HoldsAt(level, pos, ctx, k)
    requires i < |level| && level[i][pos] != 0 && level[i][0] == 0
    ensures Between(level, pos, ctx, k, k)
  {
    var n := Form(level[i], ctx[pos := 0], |ctx|);
    HoldsIffAccepts(level, pos, ctx, k);
    forall x | HoldsAt(level, pos, ctx, x) ensures x == k {
      HoldsIffAccepts(level, pos, ctx, x);
      AcceptsFurther(level[i][0], n, level[i][pos], k, x);
    }
  }

  lemma SignsAreBounded(level: Level, pos: nat, ctx: seq<int>, i: nat, j: nat) returns (lo: int, hi: int)
    requires 1 <= pos < |ctx| && IsLevel(level, |ctx|)
    requires i < |level| && j < |level| && level[i][pos] > 0 && level[j][pos] < 0
    ensures Between(level, pos, ctx, lo, hi)
  {
    var m, n := Form(level[i], ctx[pos := 0], |ctx|), Form(level[j], ctx[pos := 0], |ctx|);
    lo, hi := 0 - Abs(m), Abs(n);
    forall x | HoldsAt(level, pos, ctx, x) ensures lo <= x <= hi {
      HoldsIffAccepts(level, pos, ctx, x);
      hide HoldsAt;
      AcceptsWithin(level[i][0], m, level[i][pos], x);
      AcceptsWithin(level[j][0], n, level[j][pos], x);
    }
  }

  lemma EnclosedIsBounded(level: Level, pos: nat, ctx: seq<int>, k: int)
    requires 1 <= pos < |ctx| && IsLevel(level, |ctx|) && HoldsAt(level, pos, ctx, k) && Enclosed(level, pos)
    ensures Bounded(level, pos, ctx)
  {
    hide HoldsAt, Between;
    if i :| 0 <= i < |level| && level[i][pos] != 0 && level[i][0] == 0 {
      EqualityIsBounded(level, pos, ctx, k, i);
    } else {
      var i :| 0 <= i < |level| && level[i][pos] > 0;
      var j :| 0 <= j < |level| && level[j][pos] < 0;
      var lo, hi := SignsAreBounded(level, pos, ctx, i, j);
    }
  }

  lemma NotEnclosedIsUnbounded(level: Level, pos: nat, ctx: seq<int>, k: int)
    requires 1 <= pos < |ctx| && IsLevel(level, |ctx|) && HoldsAt(level, pos, ctx, k) && !Enclosed(level, pos)
    ensures !Bounded(level, pos, ctx)
  {
    HoldsIffAccepts(level, pos, ctx, k);
    var up := forall i | 0 <= i < |level| :: level[i][pos] >= 0;
    forall x | if up then x >= k else x <= k
      ensures HoldsAt(level, pos, ctx, x)
    {
      forall i | 0 <= i < |level|
        ensures Accepts(level[i][0], Form(level[i], ctx[pos := 0], |ctx|), level[i][pos], x)
      {
        AcceptsFurther(level[i][0], Form(level[i], ctx[pos := 0], |ctx|), level[i][pos], k, x);
      }
      HoldsIffAccepts(level, pos, ctx, x);
    }
    hide HoldsAt, Enclosed;
    forall lo, hi
      ensures !Between(level, pos, ctx, lo, hi)
    {
      var x := if up then (if k > hi then k else hi + 1) else (if k < lo then k else lo - 1);
      assert HoldsAt(level, pos, ctx, x);
    }
  }

  /** Along a point the levels are bounded exactly when their constraints enclose them. */
  lemma {:induction false} BoundedAlongIffEnclosed(levels: seq<Level>, pos: nat, ctx: seq<int>, p: seq<int>)
    requires AreLevels(levels, pos, |ctx|) && IsPoint(levels, pos, ctx, p)
    ensures BoundedAlong(levels, pos, ctx, p) <==> AllEnclosed(levels, pos, |ctx|)
    decreases |levels|
  {
    if Enclosed(levels[0], pos) {
      EnclosedIsBounded(levels[0], pos, ctx, p[0]);
    } else {
      NotEnclosedIsUnbounded(levels[0], pos, ctx, p[0]);
    }
    hide Enclosed, Bounded;
    if |levels| > 1 {
      BoundedAlongIffEnclosed(levels[1..], pos + 1, ctx[pos := p[0]], p[1..]);
      assert AllEnclosed(levels, pos, |ctx|) <==> Enclosed(levels[0], pos) && AllEnclosed(levels[1..], pos + 1, |ctx|) by {
        assert forall l | 1 <= l < |levels| :: levels[1..][l - 1] == levels[l];
        assert forall l | 0 <= l < |levels| - 1 :: levels[l + 1] == levels[1..][l];
      }
    }
  }

  /** The search finds a point exactly when there is one and every level is enclosed. */
  lemma FoundIffEnclosedPoint(levels: seq<Level>, pos: nat, ctx: seq<int>)
    requires AreLevels(levels, pos, |ctx|)
    ensures Found(levels, pos, ctx) <==>
            AllEnclosed(levels, pos, |ctx|) && exists p :: IsPoint(levels, pos, ctx, p)
  {
    FoundIffBoundedPoint(levels, pos, ctx);
    forall p | IsPoint(levels, pos, ctx, p)
      ensures BoundedAlong(levels, pos, ctx, p) <==> AllEnclosed(levels, pos, |ctx|)
    {
      BoundedAlongIffEnclosed(levels, pos, ctx, p);
    }
  }

  /** The answer is right exactly when there is no point or every level is enclosed. */
  lemma AnswerRightIff(levels: seq<Level>, pos: nat, ctx: seq<int>)
    requires AreLevels(levels, pos, |ctx|)
    ensures (Found(levels, pos, ctx) <==> exists p :: IsPoint(levels, pos, ctx, p)) <==>
            AllEnclosed(levels, pos, |ctx|) || !exists p :: IsPoint(levels, pos, ctx, p)
  {
    FoundIffEnclosedPoint(levels, pos, ctx);
  }

  /** An unbounded inner level hides its points: index 1 is zero, index 2 is any non-negative
      number, and nothing is found although (0, 0) is a point. */
  lemma UnboundedLevelHidesPoints(levels: seq<Level>, ctx: seq<int>)
    requires levels == [[[0, 1, 0, 0]], [[1, 0, 1, 0]]] && ctx == [0, 0, 0, 1]
    ensures AreLevels(levels, 1, |ctx|) && IsPoint(levels, 1, ctx, [0, 0]) && !Found(levels, 1, ctx)
  {
    var row1, row2 := levels[0][0], levels[1][0];
    assert Form(row1, ctx, 2) == 0;
    assert Form(row1, ctx, 4) == Form(row1, ctx, 3) == 0;
    forall k
      ensures HoldsAt(levels[0], 1, ctx, k) <==> k == 0
    {
      FormAt(row1, ctx, 1, k, 0, 1);
    }
    var inner := ctx[1 := 0];
    assert Form(row2, inner, 2) == 0;
    assert Form(row2, inner, 4) == Form(row2, inner, 3) == 0;
    forall k
      ensures HoldsAt(levels[1], 2, inner, k) <==> k >= 0
    {
      FormAt(row2, inner, 2, k, 0, 1);
    }
    BoundedIffFinite(levels[1], 2, inner, Interval(false, true, 0, 0));
    assert levels[1..] == [levels[1]];
    assert !Found(levels[1..], 2, inner);
    assert !FoundFrom(levels, 1, ctx, 0);
    assert forall k :: !FoundFrom(levels, 1, ctx, k);
    assert IsPoint(levels[1..], 2, inner, [0]);
    assert [0, 0][1..] == [0];
  }

  function Origin(dimension: nat): seq<int> {
    seq(dimension + 2, k => if k == dimension + 1 then 1 else 0)
  }

  /** Polyhedron_Not_Empty, given the scanned levels of a polyhedron of this dimension. */
  method PolyhedronNotEmpty(dimension: nat, levels: seq<Level>) returns (res: int)
    requires AreLevels(levels, 1, dimension + 2)
    ensures res == 1 <==> Found(levels, 1, Origin(dimension))
    ensures res == -1 <==> !Bounded(levels[0], 1, Origin(dimension))
    ensures res == -1 || res == 0 || res == 1
    ensures res == 1 <==>
            AllEnclosed(levels, 1, dimension + 2) && exists p :: IsPoint(levels, 1, Origin(dimension), p)
    ensures AllBounded(levels, 1, Origin(dimension)) ==>
              (res == 1 <==> exists p :: IsPoint(levels, 1, Origin(dimension), p))
  {
    var context := new int[dimension + 2];
    for k := 0 to dimension + 2
      invariant forall c | 0 <= c < k :: context[c] == 0
    {
      context[k] := 0;
    }
    context[dimension + 1] := 1;
    assert context[..] == Origin(dimension);
    ghost var p;
    res, p := ExistPoints(1, levels, context);
    FoundIffEnclosedPoint(levels, 1, Origin(dimension));
    if AllBounded(levels, 1, Origin(dimension)) {
      FoundIffPoint(levels, 1, Origin(dimension));
    }
  }
}
