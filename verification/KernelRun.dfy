// Running a kernel over the threads of a grid. A thread computes its point from its block and
// its place in the block; the kernel does its work when the point passes the guard.

module KernelRun {
  import opened Arithmetic
  import opened Launch

  datatype Grid = Grid(gx: nat, gy: nat, w: nat, h: nat)

  datatype Thread = Thread(blockX: nat, blockY: nat, x: nat, y: nat)

  type Point = (int, int)

  predicate OnGrid(g: Grid, t: Thread) {
    t.blockX < g.gx && t.blockY < g.gy && t.x < g.w && t.y < g.h
  }

  /** The coordinates P4A_vp_0 and P4A_vp_1 of a thread. */
  function Vp(g: Grid, t: Thread): Point {
    (t.blockX * g.w + t.x, t.blockY * g.h + t.y)
  }

  function ThreadAt(g: Grid, i: nat, j: nat): Thread
    requires g.w > 0 && g.h > 0
  {
    Thread(i / g.w, j / g.h, i % g.w, j % g.h)
  }

  lemma OneBlockPerCoordinate(g: nat, w: nat, n: nat, i: nat, b: nat, x: nat)
    requires Covers(n, w, g) && i < n
    ensures i / w < g && i % w < w && i / w * w + i % w == i
    ensures x < w && b * w + x == i ==> b == i / w && x == i % w
  {
    Quotient(i, w);
    if i / w >= g {
      Below(g, i / w, w);
    }
    if x < w && b * w + x == i {
      QuotientUnique(i, w, b, i / w);
    }
  }

  /** Each point of the iteration space is reached by exactly one thread of a covering grid. */
  lemma OneThreadPerPoint(g: Grid, nx: nat, ny: nat, i: nat, j: nat, t: Thread)
    requires Covers(nx, g.w, g.gx) && Covers(ny, g.h, g.gy) && i < nx && j < ny
    ensures OnGrid(g, t) && Vp(g, t) == (i, j) <==> t == ThreadAt(g, i, j)
  {
    OneBlockPerCoordinate(g.gx, g.w, nx, i, t.blockX, t.x);
    OneBlockPerCoordinate(g.gy, g.h, ny, j, t.blockY, t.y);
  }

  // ----- kernels that write distinct cells and read other arrays -----

  /** At a point that passes the guard the kernel writes one cell; what it writes comes from
      arrays that no thread writes, so it depends on the point only. */
  datatype Kernel<!C, V> = Kernel(guard: Point -> bool, cell: Point -> C, value: Point -> V)

  ghost predicate Distinct<C(!new), V(!new)>(k: Kernel<C, V>) {
    forall p: Point, q: Point | k.guard(p) && k.guard(q) && k.cell(p) == k.cell(q) :: p == q
  }

  function Visit<C, V>(k: Kernel<C, V>, p: Point, s: map<C, V>): map<C, V> {
    if k.guard(p) then s[k.cell(p) := k.value(p)] else s
  }

  /** Visits the points in order. */
  function Execute<C, V>(k: Kernel<C, V>, ps: seq<Point>, s: map<C, V>): map<C, V> {
    if ps == [] then s else Visit(k, ps[|ps| - 1], Execute(k, ps[..|ps| - 1], s))
  }

  lemma {:induction false} ExecuteWrites<C(!new), V(!new)>(k: Kernel<C, V>, ps: seq<Point>, s: map<C, V>, p: Point)
    requires Distinct(k) && p in ps && k.guard(p)
    ensures k.cell(p) in Execute(k, ps, s) && Execute(k, ps, s)[k.cell(p)] == k.value(p)
  {
    var n := |ps| - 1;
    if ps[n] != p {
      assert p in ps[..n];
      ExecuteWrites(k, ps[..n], s, p);
    }
  }

  lemma {:induction false} ExecuteKeeps<C(!new), V(!new)>(k: Kernel<C, V>, ps: seq<Point>, s: map<C, V>, c: C)
    requires forall p | p in ps && k.guard(p) :: k.cell(p) != c
    ensures c in Execute(k, ps, s) <==> c in s
    ensures c in s ==> Execute(k, ps, s)[c] == s[c]
  {
    if ps != [] {
      assert forall p | p in ps[..|ps| - 1] :: p in ps;
      ExecuteKeeps(k, ps[..|ps| - 1], s, c);
    }
  }

  /** The order does not matter, nor how often a point is visited, nor which points fail the
      guard. */
  lemma AnyOrder<C(!new), V(!new)>(k: Kernel<C, V>, ps: seq<Point>, qs: seq<Point>, s: map<C, V>)
    requires Distinct(k) && forall p | k.guard(p) :: p in ps <==> p in qs
    ensures Execute(k, ps, s) == Execute(k, qs, s)
  {
    hide Execute, Distinct;
    forall c: C
      ensures c in Execute(k, ps, s) <==> c in Execute(k, qs, s)
      ensures c in Execute(k, ps, s) ==> Execute(k, ps, s)[c] == Execute(k, qs, s)[c]
    {
      if exists p :: p in ps && k.guard(p) && k.cell(p) == c {
        var p :| p in ps && k.guard(p) && k.cell(p) == c;
        ExecuteWrites(k, ps, s, p);
        ExecuteWrites(k, qs, s, p);
      } else {
        ExecuteKeeps(k, ps, s, c);
        ExecuteKeeps(k, qs, s, c);
      }
    }
  }

  // ----- the sequential loop nest -----

  /** The points of the inner loop at a given i. */
  function InnerLoop(i: nat, m: nat): seq<Point> {
    seq(m, (j: nat) => (i, j))
  }

  /** The points of both loops, row by row. */
  function Nest(n: nat, m: nat): seq<Point> {
    if n == 0 then [] else Nest(n - 1, m) + InnerLoop(n - 1, m)
  }

  lemma {:induction false} NestPoints(n: nat, m: nat, p: Point)
    ensures p in Nest(n, m) <==> 0 <= p.0 < n && 0 <= p.1 < m
  {
    if n > 0 {
      NestPoints(n - 1, m, p);
      if p.0 == n - 1 && 0 <= p.1 < m {
        assert InnerLoop(n - 1, m)[p.1] == p;
      }
    }
  }

  function PointsOf(g: Grid, order: seq<Thread>): seq<Point> {
    seq(|order|, (i: nat) requires i < |order| => Vp(g, order[i]))
  }

  lemma CoveringBlock(n: nat, b: nat, g: nat)
    requires Covers(n, b, g)
    ensures b > 0
  {
  }

  /** Running the threads of a covering grid, in whatever order, leaves what the sequential
      loop nest leaves. */
  lemma GridRunIsNest<C(!new), V(!new)>(k: Kernel<C, V>, g: Grid, order: seq<Thread>, nx: nat, ny: nat, s: map<C, V>)
    requires Distinct(k) && (forall p: Point | k.guard(p) :: 0 <= p.0 < nx && 0 <= p.1 < ny)
    requires Covers(nx, g.w, g.gx) && Covers(ny, g.h, g.gy)
    requires forall t :: t in order <==> OnGrid(g, t)
    ensures Execute(k, PointsOf(g, order), s) == Execute(k, Nest(nx, ny), s)
  {
    hide Execute, Covers, Vp;
    forall p: Point | k.guard(p)
      ensures p in PointsOf(g, order) <==> p in Nest(nx, ny)
    {
      NestPoints(nx, ny, p);
      CoveringBlock(nx, g.w, g.gx);
      CoveringBlock(ny, g.h, g.gy);
      var t := ThreadAt(g, p.0, p.1);
      OneThreadPerPoint(g, nx, ny, p.0, p.1, t);
      var n :| 0 <= n < |order| && order[n] == t;
      assert PointsOf(g, order)[n] == p;
    }
    AnyOrder(k, PointsOf(g, order), Nest(nx, ny), s);
  }

}
