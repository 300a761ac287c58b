// One half step of the Jacobi relaxation: the plain loop nest, the strip-mined launch, and the
// threads of a grid in any order all leave the same array.

module Jacobi {
  import opened KernelRun
  import opened Launch
  import opened Sums

  type Image = seq<seq<real>>

  ghost predicate Square(m: Image, n: nat) {
    |m| == n && forall i | 0 <= i < n :: |m[i]| == n
  }

  /** The mean of the four neighbours. */
  function Mean(space: Image, n: nat, i: int, j: int): real
    requires Square(space, n) && 1 <= i < n - 1 && 1 <= j < n - 1
  {
    0.25 * (space[i - 1][j] + space[i + 1][j] + space[i][j - 1] + space[i][j + 1])
  }

  predicate Inside(n: nat, i: int, j: int) {
    1 <= i < n - 1 && 1 <= j < n - 1
  }

  /** The image in which the points of `done` hold the means and the others what they held. */
  ghost predicate Relaxed(space: Image, was: Image, now: Image, n: nat, done: iset<Point>)
    requires Square(space, n) && Square(was, n)
  {
    && Square(now, n)
    && forall i, j | 0 <= i < n && 0 <= j < n ::
         now[i][j] == if (i, j) in done && Inside(n, i, j) then Mean(space, n, i, j) else was[i][j]
  }

  lemma RelaxedSquare(space: Image, was: Image, now: Image, n: nat, done: iset<Point>)
    requires Square(space, n) && Square(was, n) && Relaxed(space, was, now, n, done)
    ensures Square(now, n)
  {
  }

  lemma RelaxedOne(space: Image, was: Image, before: Image, now: Image, n: nat, i: nat, j: nat, done: iset<Point>)
    requires Square(space, n) && Square(was, n) && Square(now, n) && Inside(n, i, j)
    requires Relaxed(space, was, before, n, done)
    requires now[i][j] == Mean(space, n, i, j)
    requires forall k, l | 0 <= k < n && 0 <= l < n && (k, l) != (i, j) :: now[k][l] == before[k][l]
    ensures Relaxed(space, was, now, n, done + iset{(i, j)})
  {
    hide Mean;
    forall k, l | 0 <= k < n && 0 <= l < n
      ensures now[k][l] == if (k, l) in done + iset{(i, j)} && Inside(n, k, l) then Mean(space, n, k, l) else was[k][l]
    {
      assert (k, l) in done + iset{(i, j)} <==> (k, l) in done || (k, l) == (i, j);
    }
  }

  /** Gives one inner point the mean of its neighbours. */
  method Relax(space: array2<real>, save: array2<real>, n: nat, i: nat, j: nat, ghost was: Image, ghost done: iset<Point>)
    requires space != save && Square(Rows(space), n) && Square(was, n) && Inside(n, i, j)
    requires Relaxed(Rows(space), was, Rows(save), n, done)
    modifies save
    ensures Relaxed(Rows(space), was, Rows(save), n, done + iset{(i, j)})
  {
    hide Relaxed;
    ghost var before := Rows(save);
    RelaxedSquare(Rows(space), was, before, n, done);
    assert |Rows(space)[0]| == n && |before[0]| == n;
    save[i, j] := 0.25 * (space[i - 1, j] + space[i + 1, j] + space[i, j - 1] + space[i, j + 1]);
    RelaxedOne(Rows(space), was, before, Rows(save), n, i, j, done);
  }

  /** The points that come before (i, j) in row-major order. */
  ghost function Until(i: int, j: int): iset<Point> {
    iset p: Point | p.0 < i || (p.0 == i && p.1 < j)
  }

  /** Only which points inside have been done matters. */
  lemma SameDone(space: Image, was: Image, now: Image, n: nat, done: iset<Point>, done': iset<Point>)
    requires Square(space, n) && Square(was, n) && Relaxed(space, was, now, n, done)
    requires forall i, j | Inside(n, i, j) :: (i, j) in done <==> (i, j) in done'
    ensures Relaxed(space, was, now, n, done')
  {
  }

  /** Relaxes the inner points of row i from left to right. */
  method RelaxRow(space: array2<real>, save: array2<real>, n: nat, i: nat, ghost was: Image)
    requires space != save && Square(Rows(space), n) && Square(was, n) && 1 <= i < n - 1
    requires Relaxed(Rows(space), was, Rows(save), n, Until(i, 1))
    modifies save
    ensures Relaxed(Rows(space), was, Rows(save), n, Until(i + 1, 1))
  {
    hide Relaxed, Square, Mean;
    var j := 1;
    while j < n - 1
      invariant 1 <= j <= n - 1
      invariant Relaxed(Rows(space), was, Rows(save), n, Until(i, j))
    {
      Relax(space, save, n, i, j, was, Until(i, j));
      SameDone(Rows(space), was, Rows(save), n, Until(i, j) + iset{(i, j)}, Until(i, j + 1));
      j := j + 1;
    }
    SameDone(Rows(space), was, Rows(save), n, Until(i, j), Until(i + 1, 1));
  }

  ghost predicate IsRelaxed(space: Image, was: Image, now: Image, n: nat)
    requires Square(space, n) && Square(was, n)
  {
    && Square(now, n)
    && forall i, j | 0 <= i < n && 0 <= j < n ::
         now[i][j] == if Inside(n, i, j) then Mean(space, n, i, j) else was[i][j]
  }

  lemma AllDone(space: Image, was: Image, now: Image, n: nat, done: iset<Point>)
    requires Square(space, n) && Square(was, n) && Relaxed(space, was, now, n, done)
    requires forall i, j | Inside(n, i, j) :: (i, j) in done
    ensures IsRelaxed(space, was, now, n)
  {
  }

  // ----- on the entries of the arrays -----

  /** Four times the entry is the sum of its neighbours' in the other array. */
  ghost predicate IsMeanAt(space: array2<real>, save: array2<real>, i: int, j: int)
    requires 1 <= i < space.Length0 - 1 && 1 <= j < space.Length1 - 1 && i < save.Length0 && j < save.Length1
    reads space, save
  {
    4.0 * save[i, j] == space[i - 1, j] + space[i + 1, j] + space[i, j - 1] + space[i, j + 1]
  }

  /** Between these rows every entry away from the border is the mean of its neighbours, and
      every other entry is as it was. */
  ghost predicate MeansBetween(space: array2<real>, save: array2<real>, was: Image, n: nat, from: int, to: int)
    requires space.Length0 == space.Length1 == save.Length0 == save.Length1 == n && Square(was, n)
    reads space, save
  {
    forall i, j | 0 <= i < n && 0 <= j < n ::
      if 1 <= i < n - 1 && 1 <= j < n - 1 && from <= i < to then IsMeanAt(space, save, i, j)
      else save[i, j] == was[i][j]
  }

  lemma SquareLengths(a: array2<real>, n: nat)
    requires n > 0 && Square(Rows(a), n)
    ensures a.Length0 == a.Length1 == n
  {
    assert |Rows(a)[0]| == n;
  }

  lemma RelaxedIsMeans(space: array2<real>, save: array2<real>, was: Image, n: nat)
    requires n > 0 && Square(Rows(space), n) && Square(was, n) && IsRelaxed(Rows(space), was, Rows(save), n)
    ensures space.Length0 == space.Length1 == save.Length0 == save.Length1 == n
    ensures MeansBetween(space, save, was, n, 1, n - 1)
  {
    SquareLengths(space, n);
    SquareLengths(save, n);
    forall i, j | 0 <= i < n && 0 <= j < n
      ensures if 1 <= i < n - 1 && 1 <= j < n - 1 then IsMeanAt(space, save, i, j) else save[i, j] == was[i][j]
    {
      assert Rows(save)[i][j] == if Inside(n, i, j) then Mean(Rows(space), n, i, j) else was[i][j];
    }
  }

  /** The same for the rows that one strip adds to those done before. */
  lemma StripIsMeans(space: array2<real>, save: array2<real>, was: Image, before: Image, n: nat, from: int, to: int)
    requires n > 0 && Square(Rows(space), n) && Square(was, n) && 1 <= from <= to
    requires Relaxed(Rows(space), was, before, n, Until(from, 1))
    requires Relaxed(Rows(space), was, Rows(save), n, Until(to, 1))
    ensures space.Length0 == space.Length1 == save.Length0 == save.Length1 == n && Square(before, n)
    ensures MeansBetween(space, save, before, n, from, to)
  {
    SquareLengths(space, n);
    SquareLengths(save, n);
    forall i, j | 0 <= i < n && 0 <= j < n
      ensures if 1 <= i < n - 1 && 1 <= j < n - 1 && from <= i < to then IsMeanAt(space, save, i, j)
              else save[i, j] == before[i][j]
    {
      assert Rows(save)[i][j] ==
             if (i, j) in Until(to, 1) && Inside(n, i, j) then Mean(Rows(space), n, i, j) else was[i][j];
      assert before[i][j] ==
             if (i, j) in Until(from, 1) && Inside(n, i, j) then Mean(Rows(space), n, i, j) else was[i][j];
    }
  }

  lemma NoneDone(space: Image, was: Image, n: nat)
    requires Square(space, n) && Square(was, n)
    ensures Relaxed(space, was, was, n, Until(1, 1))
  {
  }

  /** The loop nest of the sequential program. */
  method PlainKernel1(space: array2<real>, save: array2<real>, n: nat)
    requires space != save && Square(Rows(space), n) && Square(Rows(save), n)
    modifies save
    ensures IsRelaxed(Rows(space), old(Rows(save)), Rows(save), n)
    ensures n > 0 ==>
              && space.Length0 == space.Length1 == save.Length0 == save.Length1 == n
              && MeansBetween(space, save, old(Rows(save)), n, 1, n - 1)
  {
    ghost var was := Rows(save);
    NoneDone(Rows(space), was, n);
    hide Relaxed, Square, MeansBetween;
    var i := 1;
    while i < n - 1
      invariant 1 <= i && (i <= n - 1 || i == 1)
      invariant Relaxed(Rows(space), was, Rows(save), n, Until(i, 1))
    {
      RelaxRow(space, save, n, i, was);
      i := i + 1;
    }
    AllDone(Rows(space), was, Rows(save), n, Until(i, 1));
    if n > 0 {
      RelaxedIsMeans(space, save, was, n);
    }
  }

  /** kernel1 of the strip-mined program: at most ten rows from row i on. */
  method Kernel1(space: array2<real>, save: array2<real>, n: nat, i: nat, ghost was: Image)
    requires space != save && Square(Rows(space), n) && Square(was, n) && 1 <= i < n - 1
    requires Relaxed(Rows(space), was, Rows(save), n, Until(i, 1))
    modifies save
    ensures Relaxed(Rows(space), was, Rows(save), n, Until(if i + 10 < n - 1 then i + 10 else n - 1, 1))
    ensures space.Length0 == space.Length1 == save.Length0 == save.Length1 == n && Square(old(Rows(save)), n)
    ensures MeansBetween(space, save, old(Rows(save)), n, i, if i + 10 < n - 1 then i + 10 else n - 1)
  {
    ghost var before := Rows(save);
    hide Relaxed, Square, MeansBetween;
    var last := if i + 9 < n - 2 then i + 9 else n - 2;
    var r := i;
    while r <= last
      invariant i <= r <= last + 1
      invariant Relaxed(Rows(space), was, Rows(save), n, Until(r, 1))
    {
      RelaxRow(space, save, n, r, was);
      r := r + 1;
    }
    StripIsMeans(space, save, was, before, n, i, r);
  }

  /** launch_kernel1 of the strip-mined program: one strip of ten rows after the other. */
  method LaunchKernel1(space: array2<real>, save: array2<real>, n: nat)
    requires space != save && Square(Rows(space), n) && Square(Rows(save), n)
    modifies save
    ensures IsRelaxed(Rows(space), old(Rows(save)), Rows(save), n)
    ensures n > 0 ==>
              && space.Length0 == space.Length1 == save.Length0 == save.Length1 == n
              && MeansBetween(space, save, old(Rows(save)), n, 1, n - 1)
  {
    ghost var was := Rows(save);
    NoneDone(Rows(space), was, n);
    hide Relaxed, Square, MeansBetween;
    var i := 1;
    while i <= n - 2
      invariant 1 <= i
      invariant Relaxed(Rows(space), was, Rows(save), n, Until(if i <= n - 2 then i else n - 1, 1))
    {
      Kernel1(space, save, n, i, was);
      i := i + 10;
    }
    AllDone(Rows(space), was, Rows(save), n, Until(n - 1, 1));
    if n > 0 {
      RelaxedIsMeans(space, save, was, n);
    }
  }

  ghost function Visited(g: Grid, order: seq<Thread>, k: nat): iset<Point>
    requires k <= |order|
  {
    iset p: Point | IsVisited(g, order, k, p)
  }

  ghost predicate IsVisited(g: Grid, order: seq<Thread>, k: nat, p: Point)
    requires k <= |order|
  {
    exists m :: 0 <= m < k && Vp(g, order[m]) == p
  }

  lemma NoneVisited(g: Grid, order: seq<Thread>, n: nat)
    ensures forall i, j | Inside(n, i, j) :: (i, j) in Until(1, 1) <==> (i, j) in Visited(g, order, 0)
  {
  }

  lemma VisitedNext(g: Grid, order: seq<Thread>, k: nat)
    requires k < |order|
    ensures Visited(g, order, k + 1) == Visited(g, order, k) + iset{Vp(g, order[k])}
  {
    forall p: Point
      ensures IsVisited(g, order, k + 1, p) <==> IsVisited(g, order, k, p) || p == Vp(g, order[k])
    {
      if p == Vp(g, order[k]) {
        assert IsVisited(g, order, k + 1, p);
      }
    }
  }

  lemma AllVisited(g: Grid, order: seq<Thread>, n: nat)
    requires Covers(n, g.w, g.gx) && Covers(n, g.h, g.gy) && forall t :: t in order <==> OnGrid(g, t)
    ensures forall i, j | Inside(n, i, j) :: (i, j) in Visited(g, order, |order|)
  {
    hide OnGrid, Vp;
    forall i, j | Inside(n, i, j)
      ensures (i, j) in Visited(g, order, |order|)
    {
      CoveringBlock(n, g.w, g.gx);
      CoveringBlock(n, g.h, g.gy);
      var t := ThreadAt(g, i, j);
      OneThreadPerPoint(g, n, n, i, j, t);
      var m :| 0 <= m < |order| && order[m] == t;
      assert Vp(g, order[m]) == (i, j);
    }
  }

  /** One thread of the kernel: the guard, then the point if it is inside. */
  method GuardedRelax(space: array2<real>, save: array2<real>, n: nat, i: int, j: int, ghost was: Image, ghost done: iset<Point>)
    requires space != save && Square(Rows(space), n) && Square(was, n)
    requires Relaxed(Rows(space), was, Rows(save), n, done)
    modifies save
    ensures Relaxed(Rows(space), was, Rows(save), n, done + iset{(i, j)})
  {
    hide Relaxed, Square, Mean;
    if 1 <= i && i < n - 1 && 1 <= j && j < n - 1 {
      Relax(space, save, n, i, j, was, done);
    } else {
      SameDone(Rows(space), was, Rows(save), n, done, done + iset{(i, j)});
    }
  }

  /** The guarded kernel over the threads of a grid, in the order in which they happen to run. */
  method GridKernel1(g: Grid, order: seq<Thread>, space: array2<real>, save: array2<real>, n: nat)
    requires space != save && Square(Rows(space), n) && Square(Rows(save), n)
    requires Covers(n, g.w, g.gx) && Covers(n, g.h, g.gy) && forall t :: t in order <==> OnGrid(g, t)
    modifies save
    ensures IsRelaxed(Rows(space), old(Rows(save)), Rows(save), n)
    ensures n > 0 ==>
              && space.Length0 == space.Length1 == save.Length0 == save.Length1 == n
              && MeansBetween(space, save, old(Rows(save)), n, 1, n - 1)
  {
    ghost var was := Rows(save);
    NoneDone(Rows(space), was, n);
    hide Relaxed, Square, Mean, Covers, OnGrid, IsRelaxed, Visited, MeansBetween;
    NoneVisited(g, order, n);
    SameDone(Rows(space), was, Rows(save), n, Until(1, 1), Visited(g, order, 0));
    for k := 0 to |order|
      invariant Relaxed(Rows(space), was, Rows(save), n, Visited(g, order, k))
    {
      var (i, j) := Vp(g, order[k]);
      VisitedNext(g, order, k);
      GuardedRelax(space, save, n, i, j, was, Visited(g, order, k));
    }
    AllVisited(g, order, n);
    AllDone(Rows(space), was, Rows(save), n, Visited(g, order, |order|));
    if n > 0 {
      RelaxedIsMeans(space, save, was, n);
    }
  }

  /** What the three leave is one and the same array. */
  lemma RelaxedUnique(space: Image, was: Image, now: Image, now': Image, n: nat)
    requires Square(space, n) && Square(was, n) && IsRelaxed(space, was, now, n) && IsRelaxed(space, was, now', n)
    ensures now == now'
  {
    forall i | 0 <= i < n
      ensures now[i] == now'[i]
    {
      assert forall j | 0 <= j < n :: now[i][j] == now'[i][j];
    }
  }

  /** The guard that jacobi.cu has. */
  predicate WrittenGuard(n: nat, p: Point) {
    1 <= p.0 <= n - 1 && 1 <= p.1 <= n - 1
  }

  /** It keeps every thread of a covering grid to points with four neighbours in the array only
      when the array is too small to have a second row. */
  lemma WrittenGuardIsInside(g: Grid, n: nat)
    requires Covers(n, g.w, g.gx) && Covers(n, g.h, g.gy)
    ensures n <= 1 <==> forall t | OnGrid(g, t) && WrittenGuard(n, Vp(g, t)) :: Inside(n, Vp(g, t).0, Vp(g, t).1)
  {
    if n >= 2 {
      var t := ThreadAt(g, n - 1, n - 1);
      OneThreadPerPoint(g, n, n, n - 1, n - 1, t);
      assert OnGrid(g, t) && WrittenGuard(n, Vp(g, t));
    }
  }
}
