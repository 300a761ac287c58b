// The exact condition under which the source's strides copy the right box.

module BoxContiguous {
  import opened Arithmetic
  import opened Boxes
  import opened BoxCopy
  import opened BoxRight
  import opened BoxWritten

  /** The lines of the box follow each other in the host array, and the copy reaches all. */
  ghost predicate Contiguous(outer: seq<Dim>)
    requires Nonempty(outer) && Volume(outer, 1) > 0
  {
    && Reach(outer) == Volume(outer, 1)
    && forall q: nat | q < Volume(outer, 1) :: Addr(outer, 1, q) == Addr(outer, 1, 0) + q
  }

  /** No dimension with more than one row in the box lies outside one with more than one
      place in the host array. */
  predicate RowsFollow(outer: seq<Dim>) {
    outer == [] || ((outer[0].block <= 1 || Flat(outer[1..])) && RowsFollow(outer[1..]))
  }

  predicate Flat(outer: seq<Dim>) {
    outer == [] || (outer[0].size <= 1 && Flat(outer[1..]))
  }

  // ----- contiguous is row by row -----

  lemma {:induction false} FlatIsOneLine(outer: seq<Dim>)
    requires Nonempty(outer) && InRange(outer)
    ensures Extent(outer, 1) > 0 && (Flat(outer) <==> Extent(outer, 1) == 1)
    ensures Flat(outer) ==> Volume(outer, 1) == 1
  {
    if outer != [] {
      FlatIsOneLine(outer[1..]);
      SumWithinProduct(outer[0].size, Extent(outer[1..], 1));
    }
  }

  lemma FollowingOuter(outer: seq<Dim>)
    requires outer != [] && Nonempty(outer) && InRange(outer) && Volume(outer, 1) > 0 && Volume(outer[1..], 1) > 0
    requires outer[0].block <= 1 || Flat(outer[1..])
    ensures Contiguous(outer[1..]) ==> Contiguous(outer)
  {
    hide Addr, Volume, Extent, Flat, Reach;
    if Contiguous(outer[1..]) {
      FollowingReach(outer);
      forall q: nat | q < Volume(outer, 1)
        ensures Addr(outer, 1, q) == Addr(outer, 1, 0) + q
      {
        FollowingAt(outer, q);
      }
    }
  }

  lemma FollowingReach(outer: seq<Dim>)
    requires outer != [] && Nonempty(outer) && InRange(outer) && Volume(outer[1..], 1) > 0
    requires outer[0].block <= 1 || Flat(outer[1..])
    requires Reach(outer[1..]) == Volume(outer[1..], 1)
    ensures Reach(outer) == Volume(outer, 1)
  {
    hide Extent, Flat;
    FlatIsOneLine(outer[1..]);
    var b, v := outer[0].block, Volume(outer[1..], 1);
    assert Reach(outer) == b + Reach(outer[1..]) - 1 && Volume(outer, 1) == b * v;
    hide Volume, Reach, Nonempty, InRange;
    assert b == 1 || v == 1;
  }

  lemma FollowingAt(outer: seq<Dim>, q: nat)
    requires outer != [] && Nonempty(outer) && InRange(outer) && q < Volume(outer, 1) && Volume(outer[1..], 1) > 0
    requires outer[0].block <= 1 || Flat(outer[1..])
    requires Contiguous(outer[1..])
    ensures Addr(outer, 1, q) == Addr(outer, 1, 0) + q
  {
    hide Addr, Volume, Extent;
    var rest := outer[1..];
    FirstLine(outer);
    FlatIsOneLine(rest);
    var i, r := AddrByRow(outer, 1, q);
    assert Addr(rest, 1, r) == Addr(rest, 1, 0) + r;
    hide *;
    RowAndRest(i, Extent(rest, 1), Volume(rest, 1), r);
  }

  lemma RowAndRest(i: nat, x: nat, v: nat, r: nat)
    ensures i == 0 || (x == 1 && v == 1) ==> i * x + r == i * v + r
    ensures v == 1 && r < v ==> r == 0
  {
  }

  lemma TightProduct(b: nat, v: nat, r: nat)
    requires b > 0 && 0 < r <= v && b * v == b + r - 1
    ensures r == v && (b == 1 || v == 1)
  {
    if b > 1 {
      SumWithinProduct(b - 1, v);
      assert b * v == (b - 1) * v + v;
    }
  }

  lemma SecondRow(outer: seq<Dim>)
    requires outer != [] && Nonempty(outer) && Volume(outer[1..], 1) == 1 && outer[0].block > 1
    ensures Volume(outer, 1) > 1 && Addr(outer, 1, 1) == Addr(outer, 1, 0) + Extent(outer[1..], 1)
  {
    hide Addr, Extent;
    FirstLine(outer);
    assert Volume(outer, 1) == outer[0].block * 1;
    AddrAt(outer, 1, 1, 0);
    hide Volume;
    Distribute(outer[0].offset, 1, Extent(outer[1..], 1));
  }

  lemma AddrInFirstRow(outer: seq<Dim>, r: nat)
    requires outer != [] && Nonempty(outer) && Volume(outer, 1) > 0 && r < Volume(outer[1..], 1)
    requires Contiguous(outer)
    ensures Addr(outer[1..], 1, r) == Addr(outer[1..], 1, 0) + r
  {
    hide Addr, Extent, Volume, Reach;
    FirstLine(outer);
    AddrAt(outer, 1, 0, r);
  }

  lemma ContiguousOuter(outer: seq<Dim>)
    requires outer != [] && Nonempty(outer) && InRange(outer) && Volume(outer, 1) > 0 && Volume(outer[1..], 1) > 0
    requires Contiguous(outer)
    ensures Contiguous(outer[1..]) && (outer[0].block <= 1 || Flat(outer[1..]))
  {
    var d, rest := outer[0], outer[1..];
    var v := Volume(rest, 1);
    FirstLine(outer);
    NonemptyVolume(rest);
    FlatIsOneLine(rest);
    TightProduct(d.block, v, Reach(rest));
    hide Addr, Extent, Volume, Reach;
    forall r: nat | r < v
      ensures Addr(rest, 1, r) == Addr(rest, 1, 0) + r
    {
      AddrInFirstRow(outer, r);
    }
    if d.block > 1 {
      SecondRow(outer);
    }
  }

  lemma {:induction false} ContiguousIffRowsFollow(outer: seq<Dim>)
    requires Nonempty(outer) && InRange(outer)
    ensures Volume(outer, 1) > 0 && (Contiguous(outer) <==> RowsFollow(outer))
  {
    NonemptyVolume(outer);
    if outer == [] {
      assert forall q: nat | q < 1 :: Addr(outer, 1, q) == q;
    } else {
      ContiguousIffRowsFollow(outer[1..]);
      FirstLine(outer);
      hide Contiguous, Volume, Extent, Addr;
      if Contiguous(outer) {
        ContiguousOuter(outer);
      } else if RowsFollow(outer) {
        FollowingOuter(outer);
      }
    }
  }

  // ----- right is contiguous -----

  lemma WrittenFits(outer: seq<Dim>, f: Dim, e: nat)
    requires Nonempty(outer) && InRange(outer + [f]) && (outer != [] ==> f.size != f.block)
    ensures Fits(Moves(Written, outer + [f], e, 0, 0), Extent(outer + [f], e), Volume(outer + [f], e))
  {
    hide Moves, Linked, AtLines, Addr, Extent, Volume;
    assert InRange(outer) by {
      assert forall k | 0 <= k < |outer| :: outer[k] == (outer + [f])[k];
    }
    assert f == (outer + [f])[|outer|];
    ReachWithin(outer);
    NonemptyVolume(outer);
    forall h: nat, a: nat | Linked(Moves(Written, outer + [f], e, 0, 0), h, a)
      ensures h < Extent(outer + [f], e) && a < Volume(outer + [f], e)
    {
      WrittenLinks(outer, f, e, 0, 0, h, a);
      var q: nat :| q < Reach(outer) && OnReachedLine(outer, f, e, h, a, q);
      LinesWithin(outer, f, e, h, a, Addr(outer, 1, 0) + q, q);
    }
    FitsByLinks(Moves(Written, outer + [f], e, 0, 0), Extent(outer + [f], e), Volume(outer + [f], e));
  }

  lemma LinesWithin(outer: seq<Dim>, f: Dim, e: nat, h: nat, a: nat, p: nat, q: nat)
    requires AtLines(f, e, h, a, p, q) && p < Extent(outer, 1) && q < Volume(outer, 1) && f.offset + f.block <= f.size
    ensures h < Extent(outer + [f], e) && a < Volume(outer + [f], e)
  {
    hide Extent, Volume;
    LineSizes(outer, f, e);
    Below(f.offset + f.block, f.size, e);
    Distribute(f.offset, f.block, e);
    var x: nat := a - q * (f.block * e);
    AtRow(Volume(outer, 1), f.block * e, q, x);
    AtRow(Extent(outer, 1), f.size * e, p, f.offset * e + x);
  }

  /** Even where it copies the wrong rows, the source's copy stays inside both memories. */
  lemma {:induction false} WrittenStaysInside(box: seq<Dim>, e: nat)
    requires |box| >= 1 && Nonempty(box) && InRange(box)
    ensures Fits(Moves(Written, box, e, 0, 0), Extent(box, e), Volume(box, e))
    decreases |box|
  {
    var n := |box| - 1;
    if n > 0 && box[n].size == box[n].block {
      MergeKeepsMap(box, e);
      MergedNonempty(box);
      WrittenStaysInside(MergeLast(box), e);
    } else {
      assert box == box[..n] + [box[n]];
      WrittenFits(box[..n], box[n], e);
    }
  }

  lemma ContiguousIsRight(outer: seq<Dim>, f: Dim, e: nat)
    requires InRange(outer + [f]) && f.block > 0 && e > 0 && (outer != [] ==> f.size != f.block)
    requires Nonempty(outer) && Volume(outer, 1) > 0 && Contiguous(outer)
    ensures RightTo(Written, outer + [f], e) && RightFrom(Written, outer + [f], e)
  {
    Below(1, f.block, e);
    hide Moves, Linked, Addr, Extent, Volume, AtLines, InRange, Contiguous, OnReached, Partners, RightTo, RightFrom;
    forall h: nat, a: nat
      ensures Linked(Moves(Written, outer + [f], e, 0, 0), h, a) <==> Partners(outer + [f], e, h, a)
    {
      WrittenLinks(outer, f, e, 0, 0, h, a);
      PartnersAreOnLines(outer, f, e, h, a);
      ContiguousLines(outer, f, e, h, a);
    }
    LinksGiveRight(Written, outer + [f], e);
  }

  lemma ContiguousLine(outer: seq<Dim>, f: Dim, e: nat, h: nat, a: nat, q: nat)
    requires Nonempty(outer) && Volume(outer, 1) > 0 && Contiguous(outer)
    ensures q < Reach(outer) && OnReachedLine(outer, f, e, h, a, q) <==> OnBoxLine(outer, f, e, h, a, q)
  {
    hide AtLines, Volume, Reach;
    assert q < Volume(outer, 1) ==> Addr(outer, 1, q) == Addr(outer, 1, 0) + q;
  }

  lemma ContiguousLines(outer: seq<Dim>, f: Dim, e: nat, h: nat, a: nat)
    requires Nonempty(outer) && Volume(outer, 1) > 0 && Contiguous(outer)
    ensures OnReached(outer, f, e, h, a) <==> exists q: nat :: OnBoxLine(outer, f, e, h, a, q)
  {
    forall q: nat
      ensures q < Reach(outer) && OnReachedLine(outer, f, e, h, a, q) <==> OnBoxLine(outer, f, e, h, a, q)
    {
      ContiguousLine(outer, f, e, h, a, q);
    }
    hide OnReachedLine, OnBoxLine, Contiguous, Volume, Reach;
  }

  // ----- a copy that is always right reaches every line of the box -----

  /** The first byte of a line. */
  function HostLine(f: Dim, e: nat, p: nat): nat {
    p * (f.size * e) + f.offset * e
  }

  lemma SameLine(f: Dim, e: nat, h: nat, a: nat, p: nat, q: nat, k: nat)
    requires f.block * e > 0 && f.offset + f.block <= f.size && AtLines(f, e, h, a, p, q)
    ensures a == k * (f.block * e) ==> q == k && h == HostLine(f, e, p)
    ensures h == HostLine(f, e, k) ==> p == k && a == q * (f.block * e)
  {
    var w, s := f.block * e, f.size * e;
    Below(f.offset + f.block, f.size, e);
    Distribute(f.offset, f.block, e);
    SamePlace(w, q, a - q * w, k, 0);
    SamePlace(s, p, h - p * s, k, f.offset * e);
  }

  lemma SamePlace(w: nat, q: nat, x: nat, k: nat, y: nat)
    requires x < w && y < w
    ensures q * w + x == k * w + y ==> q == k
  {
    assert (q + 1) * w == q * w + w && (k + 1) * w == k * w + w;
    if q < k {
      Below(q + 1, k, w);
    } else if k < q {
      Below(k + 1, q, w);
    }
  }

  lemma OuterOf(outer: seq<Dim>, f: Dim)
    requires Nonempty(outer + [f]) && InRange(outer + [f])
    ensures Nonempty(outer) && InRange(outer) && f.block > 0 && f.offset + f.block <= f.size
  {
    assert forall k | 0 <= k < |outer| :: outer[k] == (outer + [f])[k];
    assert f == (outer + [f])[|outer|];
  }

  /** What the copy moves to the first byte of an accelerator line, and from the first byte of
      a host line. */
  lemma LinkedToLine(outer: seq<Dim>, f: Dim, e: nat, h: nat, q: nat)
    requires Nonempty(outer + [f]) && InRange(outer + [f]) && e > 0 && (outer != [] ==> f.size != f.block)
    requires Linked(Moves(Written, outer + [f], e, 0, 0), h, OnAccel(f, e, q))
    ensures Nonempty(outer) && Volume(outer, 1) > 0
    ensures q < Reach(outer) && h == HostLine(f, e, Addr(outer, 1, 0) + q)
  {
    OuterOf(outer, f);
    NonemptyVolume(outer);
    hide Addr, Volume, Moves, Linked, AtLines, HostLine, InRange, Nonempty;
    WrittenLinks(outer, f, e, 0, 0, h, OnAccel(f, e, q));
    var k: nat :| k < Reach(outer) && OnReachedLine(outer, f, e, h, OnAccel(f, e, q), k);
    Below(1, f.block, e);
    SameLine(f, e, h, OnAccel(f, e, q), Addr(outer, 1, 0) + k, k, q);
  }

  lemma LinkedFromLine(outer: seq<Dim>, f: Dim, e: nat, p: nat, a: nat)
    requires Nonempty(outer + [f]) && InRange(outer + [f]) && e > 0 && (outer != [] ==> f.size != f.block)
    requires Linked(Moves(Written, outer + [f], e, 0, 0), HostLine(f, e, p), a)
    ensures Nonempty(outer) && Volume(outer, 1) > 0
    ensures 0 <= p - Addr(outer, 1, 0) < Reach(outer) && a == OnAccel(f, e, p - Addr(outer, 1, 0))
  {
    OuterOf(outer, f);
    NonemptyVolume(outer);
    hide Addr, Volume, Moves, Linked, AtLines, HostLine, InRange, Nonempty;
    var h := HostLine(f, e, p);
    WrittenLinks(outer, f, e, 0, 0, h, a);
    var k: nat :| k < Reach(outer) && OnReachedLine(outer, f, e, h, a, k);
    Below(1, f.block, e);
    SameLine(f, e, h, a, Addr(outer, 1, 0) + k, k, p);
  }

  /** Memories in which no two bytes are equal, and no byte is zero. */
  function Numbered(n: nat): (s: seq<int>)
    ensures |s| == n && forall k | 0 <= k < n :: s[k] == k + 1
  {
    seq(n, k => k + 1)
  }

  function Zeros(n: nat): (s: seq<int>)
    ensures |s| == n && forall k | 0 <= k < n :: s[k] == 0
  {
    seq(n, _ => 0)
  }

  /** The copy moves the first byte of line q of the box to where it belongs. */
  ghost predicate LineRight(outer: seq<Dim>, f: Dim, e: nat, q: nat)
    requires q < Volume(outer, 1)
  {
    Linked(Moves(Written, outer + [f], e, 0, 0), HostLine(f, e, Addr(outer, 1, q)), OnAccel(f, e, q))
  }

  /** The reference at the first byte of line q. */
  lemma BoxAtLine(outer: seq<Dim>, f: Dim, e: nat, q: nat)
    requires InRange(outer + [f]) && f.block * e > 0 && q < Volume(outer, 1)
    ensures var box, a, h := outer + [f], OnAccel(f, e, q), HostLine(f, e, Addr(outer, 1, q));
            var x, v := Extent(box, e), Volume(box, e);
            && a < v && h < x
            && BoxTo(box, e, Numbered(x), Zeros(v))[a] == h + 1
            && BoxFrom(box, e, Zeros(x), Numbered(v))[h] == a + 1
  {
    AddrOfLine(outer, f, e, q, 0);
    hide Volume, Extent, InRange;
    PosOfAddr(outer + [f], e, OnAccel(f, e, q));
  }

  lemma RightToReaches(outer: seq<Dim>, f: Dim, e: nat, q: nat)
    requires Nonempty(outer + [f]) && InRange(outer + [f]) && e > 0 && (outer != [] ==> f.size != f.block)
    requires RightTo(Written, outer + [f], e) && q < Volume(outer, 1)
    ensures LineRight(outer, f, e, q)
  {
    var box := outer + [f];
    var moves, host, accel := Moves(Written, box, e, 0, 0), Numbered(Extent(box, e)), Zeros(Volume(box, e));
    OuterOf(outer, f);
    Below(1, f.block, e);
    BoxAtLine(outer, f, e, q);
    assert Sized(box, e, host, accel);
    assert GivesTo(moves, box, e, host, accel);
    hide Moves, Volume, Extent, HostLine, Fits, InRange, MoveTo, BoxTo, LineRight, RightTo, OnAccel;
    ToReaches(outer, f, e, q, host, accel);
  }

  /** Byte a arrives as the number of byte h. */
  ghost predicate Arrives(moves: seq<Move>, host: seq<int>, accel: seq<int>, h: nat, a: nat) {
    && a < |accel| && Fits(moves, |host|, |accel|) && host == Numbered(|host|) && accel == Zeros(|accel|)
    && MoveTo(host, accel, moves)[a] == h + 1
  }

  ghost predicate Returns(moves: seq<Move>, host: seq<int>, accel: seq<int>, h: nat, a: nat) {
    && h < |host| && Fits(moves, |host|, |accel|) && host == Zeros(|host|) && accel == Numbered(|accel|)
    && MoveFrom(host, accel, moves)[h] == a + 1
  }

  lemma ToReaches(outer: seq<Dim>, f: Dim, e: nat, q: nat, host: seq<int>, accel: seq<int>)
    requires Nonempty(outer + [f]) && InRange(outer + [f]) && e > 0 && (outer != [] ==> f.size != f.block)
    requires q < Volume(outer, 1)
    requires Arrives(Moves(Written, outer + [f], e, 0, 0), host, accel, HostLine(f, e, Addr(outer, 1, q)), OnAccel(f, e, q))
    ensures LineRight(outer, f, e, q)
  {
    hide Moves, Linked, Volume, HostLine, InRange, Nonempty, Addr, Extent, Reach, Arrives, OnAccel;
    var moves, a := Moves(Written, outer + [f], e, 0, 0), OnAccel(f, e, q);
    var g := HostLine(f, e, Addr(outer, 1, 0) + q);
    forall k: nat | Linked(moves, k, a)
      ensures k == g
    {
      LinkedToLine(outer, f, e, k, q);
    }
    NumberArrived(host, accel, moves, g, a, HostLine(f, e, Addr(outer, 1, q)));
  }

  /** A byte that arrives with its number was moved from the byte with that number. */
  lemma NumberArrived(host: seq<int>, accel: seq<int>, moves: seq<Move>, g: nat, a: nat, h: nat)
    requires Arrives(moves, host, accel, h, a)
    requires forall k: nat | Linked(moves, k, a) :: k == g
    ensures Linked(moves, h, a)
  {
    hide MoveTo, Fits, Linked;
    MoveToLinked(host, accel, moves, g, a);
  }

  lemma NumberReturned(host: seq<int>, accel: seq<int>, moves: seq<Move>, h: nat, b: nat, a: nat)
    requires Returns(moves, host, accel, h, a)
    requires forall k: nat | Linked(moves, h, k) :: k == b
    ensures Linked(moves, h, a)
  {
    hide MoveFrom, Fits, Linked;
    MoveFromLinked(host, accel, moves, h, b);
  }

  lemma RightFromReaches(outer: seq<Dim>, f: Dim, e: nat, q: nat)
    requires Nonempty(outer + [f]) && InRange(outer + [f]) && e > 0 && (outer != [] ==> f.size != f.block)
    requires RightFrom(Written, outer + [f], e) && q < Volume(outer, 1)
    ensures LineRight(outer, f, e, q)
  {
    var box := outer + [f];
    var moves, host, accel := Moves(Written, box, e, 0, 0), Zeros(Extent(box, e)), Numbered(Volume(box, e));
    OuterOf(outer, f);
    Below(1, f.block, e);
    BoxAtLine(outer, f, e, q);
    assert Sized(box, e, host, accel);
    assert GivesFrom(moves, box, e, host, accel);
    hide Moves, Volume, Extent, HostLine, Fits, InRange, MoveFrom, BoxFrom, LineRight, RightFrom, OnAccel;
    FromReaches(outer, f, e, q, host, accel);
  }

  lemma FromReaches(outer: seq<Dim>, f: Dim, e: nat, q: nat, host: seq<int>, accel: seq<int>)
    requires Nonempty(outer + [f]) && InRange(outer + [f]) && e > 0 && (outer != [] ==> f.size != f.block)
    requires q < Volume(outer, 1)
    requires Returns(Moves(Written, outer + [f], e, 0, 0), host, accel, HostLine(f, e, Addr(outer, 1, q)), OnAccel(f, e, q))
    ensures LineRight(outer, f, e, q)
  {
    hide Moves, Linked, Volume, HostLine, InRange, Nonempty, Addr, Extent, Reach, Returns, OnAccel;
    OuterOf(outer, f);
    var moves, p := Moves(Written, outer + [f], e, 0, 0), Addr(outer, 1, q);
    var first := Addr(outer, 1, 0);
    var b := if p >= first then OnAccel(f, e, p - first) else 0;
    forall c: nat | Linked(moves, HostLine(f, e, p), c)
      ensures c == b
    {
      LinkedFromLine(outer, f, e, p, c);
    }
    NumberReturned(host, accel, moves, HostLine(f, e, p), b, OnAccel(f, e, q));
  }

  lemma RightLine(outer: seq<Dim>, f: Dim, e: nat, q: nat)
    requires Nonempty(outer + [f]) && InRange(outer + [f]) && e > 0 && (outer != [] ==> f.size != f.block)
    requires Nonempty(outer) && q < Volume(outer, 1) && LineRight(outer, f, e, q)
    ensures q < Reach(outer) && Addr(outer, 1, q) == Addr(outer, 1, 0) + q
  {
    OuterOf(outer, f);
    hide Moves, Linked, Addr, Volume, HostLine, InRange, Nonempty;
    LinkedToLine(outer, f, e, HostLine(f, e, Addr(outer, 1, q)), q);
    SameHostLine(f, e, Addr(outer, 1, q), Addr(outer, 1, 0) + q);
  }

  lemma RightIsContiguous(outer: seq<Dim>, f: Dim, e: nat)
    requires Nonempty(outer + [f]) && InRange(outer + [f]) && e > 0 && (outer != [] ==> f.size != f.block)
    requires Nonempty(outer) && Volume(outer, 1) > 0
    requires RightTo(Written, outer + [f], e) || RightFrom(Written, outer + [f], e)
    ensures Contiguous(outer)
  {
    NonemptyVolume(outer);
    hide Moves, Addr, Volume, InRange, Nonempty, LineRight, RightTo, RightFrom;
    forall q: nat | q < Volume(outer, 1)
      ensures q < Reach(outer) && Addr(outer, 1, q) == Addr(outer, 1, 0) + q
    {
      if RightTo(Written, outer + [f], e) {
        RightToReaches(outer, f, e, q);
      } else {
        RightFromReaches(outer, f, e, q);
      }
      RightLine(outer, f, e, q);
    }
    var last := Volume(outer, 1) - 1;
    assert Addr(outer, 1, last) == Addr(outer, 1, 0) + last;
  }

  lemma SameHostLine(f: Dim, e: nat, p: nat, q: nat)
    requires f.size > 0 && e > 0 && HostLine(f, e, p) == HostLine(f, e, q)
    ensures p == q
  {
    Below(1, f.size, e);
    SamePlace(f.size * e, p, 0, q, 0);
  }

  /** The condition a caller can check: after merging the last dimensions that are copied
      whole, no dimension with several rows in the box lies outside one that is not flat. */
  predicate RowsReached(box: seq<Dim>)
    requires |box| >= 1
    decreases |box|
  {
    var n := |box| - 1;
    n == 0 || (if box[n].size == box[n].block then RowsReached(MergeLast(box)) else RowsFollow(box[..n]))
  }

  /** The source's copies, in either direction, are right exactly under that condition. */
  lemma {:induction false} WrittenRightIff(box: seq<Dim>, e: nat)
    requires |box| >= 1 && Nonempty(box) && InRange(box) && e > 0
    ensures RightTo(Written, box, e) <==> RowsReached(box)
    ensures RightFrom(Written, box, e) <==> RowsReached(box)
    decreases |box|
  {
    var n := |box| - 1;
    if n > 0 && box[n].size == box[n].block {
      MergedRight(box, e);
      MergedNonempty(box);
      WrittenRightIff(MergeLast(box), e);
    } else {
      assert box == box[..n] + [box[n]];
      WrittenStridedIff(box[..n], box[n], e);
      if n == 0 {
        assert RowsFollow(box[..n]);
      }
    }
  }

  lemma WrittenStridedIff(outer: seq<Dim>, f: Dim, e: nat)
    requires Nonempty(outer + [f]) && InRange(outer + [f]) && e > 0 && (outer != [] ==> f.size != f.block)
    ensures RightTo(Written, outer + [f], e) <==> RowsFollow(outer)
    ensures RightFrom(Written, outer + [f], e) <==> RowsFollow(outer)
  {
    OuterOf(outer, f);
    ContiguousIffRowsFollow(outer);
    hide RightTo, RightFrom, Contiguous, Volume, RowsFollow, InRange, Nonempty;
    if Contiguous(outer) {
      ContiguousIsRight(outer, f, e);
    } else if RightTo(Written, outer + [f], e) || RightFrom(Written, outer + [f], e) {
      RightIsContiguous(outer, f, e);
    }
  }

  lemma MergedNonempty(box: seq<Dim>)
    requires |box| >= 2 && Nonempty(box) && InRange(box) && box[|box| - 1].size == box[|box| - 1].block
    ensures Nonempty(MergeLast(box))
  {
    Below(1, box[|box| - 2].block, box[|box| - 1].size);
  }

  /** The box and the merged box have the same reference. */
  lemma MergedReference(box: seq<Dim>, e: nat, host: seq<int>, accel: seq<int>)
    requires |box| >= 2 && InRange(box) && box[|box| - 1].size == box[|box| - 1].block
    ensures InRange(MergeLast(box)) && (Sized(box, e, host, accel) <==> Sized(MergeLast(box), e, host, accel))
    ensures Sized(box, e, host, accel) ==>
              && BoxTo(box, e, host, accel) == BoxTo(MergeLast(box), e, host, accel)
              && BoxFrom(box, e, host, accel) == BoxFrom(MergeLast(box), e, host, accel)
  {
    var moves := Moves(Corrected, box, e, 0, 0);
    assert moves == Moves(Corrected, MergeLast(box), e, 0, 0);
    hide Moves, Extent, Volume, Addr, BoxTo, BoxFrom, MoveTo, MoveFrom, MergeLast, InRange, Fits;
    MergeKeepsMap(box, e);
    CorrectedIsRight(box, e);
    CorrectedIsRight(MergeLast(box), e);
    if Sized(box, e, host, accel) {
      assert GivesTo(moves, box, e, host, accel) && GivesTo(moves, MergeLast(box), e, host, accel);
      assert GivesFrom(moves, box, e, host, accel) && GivesFrom(moves, MergeLast(box), e, host, accel);
    }
  }

  lemma MergedRight(box: seq<Dim>, e: nat)
    requires |box| >= 2 && InRange(box) && box[|box| - 1].size == box[|box| - 1].block
    ensures InRange(MergeLast(box))
    ensures RightTo(Written, box, e) <==> RightTo(Written, MergeLast(box), e)
    ensures RightFrom(Written, box, e) <==> RightFrom(Written, MergeLast(box), e)
  {
    var moves, merged := Moves(Written, box, e, 0, 0), MergeLast(box);
    assert moves == Moves(Written, merged, e, 0, 0);
    assert InRange(merged) by { MergeKeepsMap(box, e); }
    hide Moves, BoxTo, BoxFrom, MoveTo, MoveFrom, MergeLast, InRange, Fits, Sized;
    forall host: seq<int>, accel: seq<int>
      ensures Sized(box, e, host, accel) <==> Sized(merged, e, host, accel)
      ensures Sized(box, e, host, accel) ==>
                && (GivesTo(moves, box, e, host, accel) <==> GivesTo(moves, merged, e, host, accel))
                && (GivesFrom(moves, box, e, host, accel) <==> GivesFrom(moves, merged, e, host, accel))
    {
      MergedReference(box, e, host, accel);
    }
    hide GivesTo, GivesFrom;
  }

  // ----- two, three and four dimensions -----

  /** The two-dimensional copies are right for every box. */
  lemma Written2d(d1: Dim, d2: Dim, e: nat)
    requires Nonempty([d1, d2]) && InRange([d1, d2]) && e > 0
    ensures RightTo(Written, [d1, d2], e) && RightFrom(Written, [d1, d2], e)
  {
    WrittenRightIff([d1, d2], e);
    assert [d1, d2][..1] == [d1];
    assert RowsFollow([d1]);
  }

  /** A three-dimensional copy whose last dimension is not whole is right exactly when it has
      one row or rows of one place. */
  lemma Written3d(d1: Dim, d2: Dim, d3: Dim, e: nat)
    requires Nonempty([d1, d2, d3]) && InRange([d1, d2, d3]) && e > 0
    ensures RightTo(Written, [d1, d2, d3], e) <==> d3.size == d3.block || d1.block <= 1 || d2.size == 1
    ensures RightFrom(Written, [d1, d2, d3], e) <==> d3.size == d3.block || d1.block <= 1 || d2.size == 1
  {
    WrittenRightIff([d1, d2, d3], e);
    hide RightTo, RightFrom;
    TwoDimsReached(MergeLast([d1, d2, d3]));
    assert [d1, d2, d3][..2] == [d1, d2];
    TwoOuterFollow(d1, d2);
  }

  lemma TwoDimsReached(box: seq<Dim>)
    requires |box| == 2
    ensures RowsReached(box)
  {
    assert box[..1] == [box[0]];
    assert RowsFollow([box[0]]);
  }

  lemma FlatOne(d: Dim)
    ensures Flat([d]) <==> d.size <= 1
  {
    assert [d][1..] == [];
    assert Flat([]);
  }

  lemma TwoOuterFollow(d1: Dim, d2: Dim)
    requires InRange([d1, d2]) && Nonempty([d1, d2])
    ensures RowsFollow([d1, d2]) <==> d1.block <= 1 || d2.size == 1
  {
    assert d2 == [d1, d2][1];
    assert [d1, d2][1..] == [d2] && [d2][1..] == [];
    assert RowsFollow([d2]);
    FlatOne(d2);
  }

  /** The same for four dimensions; when the last is whole, the copy is the three-dimensional
      one that has it merged into the one before. */
  lemma Written4d(d1: Dim, d2: Dim, d3: Dim, d4: Dim, e: nat)
    requires Nonempty([d1, d2, d3, d4]) && InRange([d1, d2, d3, d4]) && e > 0
    ensures RightTo(Written, [d1, d2, d3, d4], e) <==>
              if d4.size == d4.block then d3.size == d3.block || d1.block <= 1 || d2.size == 1
              else (d1.block <= 1 || (d2.size == 1 && d3.size == 1)) && (d2.block <= 1 || d3.size == 1)
    ensures RightFrom(Written, [d1, d2, d3, d4], e) <==> RightTo(Written, [d1, d2, d3, d4], e)
  {
    var box := [d1, d2, d3, d4];
    assert d1 == box[0] && d2 == box[1] && d3 == box[2] && d4 == box[3];
    WrittenRightIff(box, e);
    hide RightTo, RightFrom;
    if d4.size == d4.block {
      var d := Dim(d3.size * d4.size, d3.block * d4.size, d3.offset * d4.size + d4.offset);
      assert MergeLast(box) == [d1, d2, d];
      assert [d1, d2, d][..2] == [d1, d2];
      SamePlace(d4.size, d3.size, 0, d3.block, 0);
      TwoDimsReached(MergeLast([d1, d2, d]));
      TwoOuterFollow(d1, d2);
    } else {
      assert box[..3] == [d1, d2, d3] && [d1, d2, d3][1..] == [d2, d3];
      assert [d2, d3][1..] == [d3];
      FlatOne(d3);
      assert Flat([d2, d3]) <==> d2.size <= 1 && d3.size <= 1;
      assert [d2, d3] == box[1..3];
      TwoOuterFollow(d2, d3);
    }
  }

  /** The smallest kind of box that the source gets wrong. */
  lemma WrittenFails()
    ensures var box := [Dim(2, 2, 0), Dim(2, 1, 0), Dim(2, 1, 0)];
            !RightTo(Written, box, 1) && !RightFrom(Written, box, 1) && RightTo(Corrected, box, 1)
  {
    Written3d(Dim(2, 2, 0), Dim(2, 1, 0), Dim(2, 1, 0), 1);
    CorrectedIsRight([Dim(2, 2, 0), Dim(2, 1, 0), Dim(2, 1, 0)], 1);
  }
}
