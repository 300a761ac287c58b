// What the source's strides copy when the last dimension is not copied whole. A line is the
// part of the box in the last dimension; the dimensions outside count lines. Row i of the
// copy starts i lines on, wherever row i of the box is.

module BoxWritten {
  import opened Arithmetic
  import opened Boxes
  import opened BoxCopy
  import opened BoxRight

  /** Byte h is on host line p and byte a on accelerator line q, at the same place. */
  ghost predicate AtLines(f: Dim, e: nat, h: nat, a: nat, p: nat, q: nat) {
    var x := a - q * (f.block * e);
    0 <= x < f.block * e && h == p * (f.size * e) + f.offset * e + x
  }

  /** The bytes of i lines of the host array, and of the box. */
  function OnHost(f: Dim, e: nat, i: nat): nat {
    i * (f.size * e)
  }

  function OnAccel(f: Dim, e: nat, i: nat): nat {
    i * (f.block * e)
  }

  /** The bytes before the first row of the box. */
  function Skipped(outer: seq<Dim>, f: Dim, e: nat): nat
    requires outer != []
  {
    outer[0].offset * Extent(outer[1..] + [f], e)
  }

  // ----- the box, line by line -----

  /** The box map keeps lines together: outside the last dimension it maps whole lines. */
  lemma {:induction false} AddrOfLine(outer: seq<Dim>, f: Dim, e: nat, q: nat, x: nat)
    requires q < Volume(outer, 1) && x < f.block * e
    ensures Extent(outer + [f], e) == Extent(outer, 1) * (f.size * e)
    ensures Volume(outer + [f], e) == Volume(outer, 1) * (f.block * e)
    ensures q * (f.block * e) + x < Volume(outer + [f], e)
    ensures Addr(outer + [f], e, q * (f.block * e) + x) == Addr(outer, 1, q) * (f.size * e) + f.offset * e + x
  {
    hide Addr, Extent, Volume;
    var w := f.block * e;
    LineSizes(outer, f, e);
    AtRow(Volume(outer, 1), w, q, x);
    if outer == [] {
      OnlyLine(f, e, q, x);
    } else {
      var i, r := AddrByRow(outer, 1, q);
      AddrOfLine(outer[1..], f, e, r, x);
      NextLine(outer, f, e, q, x, i, r, q * w + x, r * w + x);
    }
  }

  /** Byte k of the box is byte x of line q, which is line r of row i; l is that byte in the row. */
  lemma NextLine(outer: seq<Dim>, f: Dim, e: nat, q: nat, x: nat, i: nat, r: nat, k: nat, l: nat)
    requires outer != [] && q < Volume(outer, 1) && x < f.block * e
    requires k == q * (f.block * e) + x && l == r * (f.block * e) + x
    requires i < outer[0].block && r < Volume(outer[1..], 1) && q == i * Volume(outer[1..], 1) + r
    requires Addr(outer, 1, q) ==
             outer[0].offset * Extent(outer[1..], 1) + i * Extent(outer[1..], 1) + Addr(outer[1..], 1, r)
    requires l < Volume(outer[1..] + [f], e)
    requires Addr(outer[1..] + [f], e, l) == Addr(outer[1..], 1, r) * (f.size * e) + f.offset * e + x
    ensures k < Volume(outer + [f], e) && Addr(outer + [f], e, k) == Addr(outer, 1, q) * (f.size * e) + f.offset * e + x
  {
    hide Addr, Extent, Volume;
    var d, rest := outer[0], outer[1..];
    var w, s := f.block * e, f.size * e;
    var v, y := Volume(rest, 1), Extent(rest, 1);
    assert (outer + [f])[1..] == rest + [f] && (outer + [f])[0] == d;
    LineSizes(rest, f, e);
    AddrAt(outer + [f], e, i, l);
    LineOf(i, v, r, w, x);
    LineAt(d.offset, i, y, Addr(rest, 1, r), s, f.offset * e + x);
  }

  lemma OnlyLine(f: Dim, e: nat, q: nat, x: nat)
    requires q < Volume([], 1) && x < f.block * e
    ensures q == 0 && Addr([], 1, q) == 0 && q * (f.block * e) + x < Volume([] + [f], e)
    ensures Addr([] + [f], e, q * (f.block * e) + x) == f.offset * e + x
  {
    assert [] + [f] == [f];
    OneDim(f, e);
  }

  lemma LineOf(i: nat, v: nat, r: nat, w: nat, x: nat)
    ensures (i * v + r) * w + x == i * (v * w) + (r * w + x)
  {
    Regroup(i, v, r, w);
  }

  lemma LineAt(o: nat, i: nat, y: nat, r: nat, s: nat, x: nat)
    ensures (o + i) * (y * s) + (r * s + x) == (o * y + i * y + r) * s + x
  {
    Regroup(o + i, y, r, s);
    Distribute(o, i, y);
  }

  lemma Regroup(i: nat, v: nat, r: nat, w: nat)
    ensures (i * v + r) * w == i * (v * w) + r * w
  {
    Associate(i, v, w);
  }

  lemma {:induction false} LineSizes(outer: seq<Dim>, f: Dim, e: nat)
    ensures Extent(outer + [f], e) == Extent(outer, 1) * (f.size * e)
    ensures Volume(outer + [f], e) == Volume(outer, 1) * (f.block * e)
  {
    if outer == [] {
      assert [] + [f] == [f];
      OneDim(f, e);
    } else {
      assert (outer + [f])[1..] == outer[1..] + [f];
      LineSizes(outer[1..], f, e);
      Associate(outer[0].size, Extent(outer[1..], 1), f.size * e);
      Associate(outer[0].block, Volume(outer[1..], 1), f.block * e);
    }
  }

  ghost predicate OnBoxLine(outer: seq<Dim>, f: Dim, e: nat, h: nat, a: nat, q: nat) {
    q < Volume(outer, 1) && AtLines(f, e, h, a, Addr(outer, 1, q), q)
  }

  lemma PartnersAreOnLines(outer: seq<Dim>, f: Dim, e: nat, h: nat, a: nat)
    requires f.block * e > 0
    ensures Partners(outer + [f], e, h, a) <==> exists q: nat :: OnBoxLine(outer, f, e, h, a, q)
  {
    hide Addr, Extent, Volume, Row, Column;
    LineSizes(outer, f, e);
    var w := f.block * e;
    if Partners(outer + [f], e, h, a) {
      var q := Row(Volume(outer, 1), w, a);
      RowColumn(Volume(outer, 1), w, a);
      AddrOfLine(outer, f, e, q, Column(Volume(outer, 1), w, a));
      assert OnBoxLine(outer, f, e, h, a, q);
    }
    if q: nat :| OnBoxLine(outer, f, e, h, a, q) {
      AddrOfLine(outer, f, e, q, a - q * w);
    }
  }

  // ----- what the written strides reach -----

  /** The number of lines that the written copy goes through. */
  function Reach(outer: seq<Dim>): (n: nat)
    requires forall k | 0 <= k < |outer| :: outer[k].block > 0
    ensures n > 0
  {
    if outer == [] then 1 else outer[0].block + Reach(outer[1..]) - 1
  }

  /** From the first line of the box, the lines follow each other on both sides. */
  ghost predicate OnReached(outer: seq<Dim>, f: Dim, e: nat, h: int, a: int)
    requires Nonempty(outer) && Volume(outer, 1) > 0
  {
    h >= 0 && a >= 0 && exists q: nat :: q < Reach(outer) && OnReachedLine(outer, f, e, h, a, q)
  }

  ghost predicate OnReachedLine(outer: seq<Dim>, f: Dim, e: nat, h: nat, a: nat, q: nat)
    requires Volume(outer, 1) > 0
  {
    AtLines(f, e, h, a, Addr(outer, 1, 0) + q, q)
  }

  lemma SumWithinProduct(b: nat, v: nat)
    requires b > 0 && v > 0
    ensures b + v - 1 <= b * v
  {
    Below(1, v, b - 1);
    assert b * v == (b - 1) * v + v;
  }

  lemma {:induction false} NonemptyVolume(outer: seq<Dim>)
    requires Nonempty(outer)
    ensures Reach(outer) <= Volume(outer, 1)
  {
    if outer != [] {
      NonemptyVolume(outer[1..]);
      SumWithinProduct(outer[0].block, Volume(outer[1..], 1));
    }
  }

  lemma {:induction false} FirstLine(outer: seq<Dim>)
    requires outer != [] && Nonempty(outer)
    ensures Volume(outer, 1) > 0 && Volume(outer[1..], 1) > 0
    ensures Addr(outer, 1, 0) == outer[0].offset * Extent(outer[1..], 1) + Addr(outer[1..], 1, 0)
  {
    NonemptyVolume(outer);
    NonemptyVolume(outer[1..]);
    AddrAt(outer, 1, 0, 0);
  }

  lemma {:induction false} ReachWithin(outer: seq<Dim>)
    requires Nonempty(outer) && InRange(outer)
    ensures Volume(outer, 1) > 0 && Addr(outer, 1, 0) + Reach(outer) <= Extent(outer, 1)
  {
    NonemptyVolume(outer);
    if outer != [] {
      var d, x := outer[0], Extent(outer[1..], 1);
      FirstLine(outer);
      ReachWithin(outer[1..]);
      assert Extent(outer, 1) == d.size * x && Reach(outer) == d.block + Reach(outer[1..]) - 1;
      hide Addr, Reach, Extent, Volume;
      SumWithinProduct(d.block, x);
      Below(d.offset + d.block, d.size, x);
      Distribute(d.offset, d.block, x);
    }
  }

  lemma AtLinesShift(f: Dim, e: nat, h: nat, a: nat, p: nat, q: nat, j: nat, i: nat)
    ensures AtLines(f, e, h, a, p, q) <==> AtLines(f, e, h + OnHost(f, e, j), a + OnAccel(f, e, i), p + j, q + i)
  {
    Distribute(p, j, f.size * e);
    Distribute(q, i, f.block * e);
  }

  /** The bytes of row i of the copy. */
  ghost predicate OnReachedRow(outer: seq<Dim>, f: Dim, e: nat, h: int, a: int, i: nat)
    requires outer != [] && Nonempty(outer[1..]) && Volume(outer[1..], 1) > 0
  {
    OnReached(outer[1..], f, e, h - Skipped(outer, f, e) - OnHost(f, e, i), a - OnAccel(f, e, i))
  }

  /** A line of a row, among the lines of the whole copy. */
  lemma LineOfRow(outer: seq<Dim>, f: Dim, e: nat, h: nat, a: nat, i: nat, q: nat)
    requires outer != [] && Nonempty(outer) && Volume(outer, 1) > 0 && Volume(outer[1..], 1) > 0
    ensures OnReachedLine(outer[1..], f, e, h, a, q) <==>
            OnReachedLine(outer, f, e, h + Skipped(outer, f, e) + OnHost(f, e, i), a + OnAccel(f, e, i), q + i)
  {
    hide Addr, Extent, Volume, AtLines, OnHost, OnAccel, Skipped;
    var j := SkippedLines(outer, f, e, i);
    AtLinesShift(f, e, h, a, Addr(outer[1..], 1, 0) + q, q, j + i, i);
    assert Addr(outer[1..], 1, 0) + q + (j + i) == Addr(outer, 1, 0) + (q + i);
  }

  /** The copy starts a whole number of lines on. */
  lemma SkippedLines(outer: seq<Dim>, f: Dim, e: nat, i: nat) returns (j: nat)
    requires outer != [] && Nonempty(outer)
    ensures Volume(outer, 1) > 0 && Volume(outer[1..], 1) > 0 && Addr(outer, 1, 0) == j + Addr(outer[1..], 1, 0)
    ensures Skipped(outer, f, e) + OnHost(f, e, i) == OnHost(f, e, j + i)
  {
    j := outer[0].offset * Extent(outer[1..], 1);
    FirstLine(outer);
    LineSizes(outer[1..], f, e);
    hide Addr, Extent, Volume;
    Associate(outer[0].offset, Extent(outer[1..], 1), f.size * e);
    Distribute(j, i, f.size * e);
  }

  lemma RowIsReached(outer: seq<Dim>, f: Dim, e: nat, h: int, a: int, i: nat)
    requires outer != [] && Nonempty(outer) && Volume(outer, 1) > 0 && Volume(outer[1..], 1) > 0
    requires i < outer[0].block && OnReachedRow(outer, f, e, h, a, i)
    ensures OnReached(outer, f, e, h, a)
  {
    assert Reach(outer) == outer[0].block + Reach(outer[1..]) - 1;
    hide Addr, Extent, Volume, OnHost, OnAccel, Skipped, Reach, OnReachedLine;
    var hr, ar := h - Skipped(outer, f, e) - OnHost(f, e, i), a - OnAccel(f, e, i);
    var q: nat :| q < Reach(outer[1..]) && OnReachedLine(outer[1..], f, e, hr, ar, q);
    LineOfRow(outer, f, e, hr, ar, i, q);
  }

  lemma ReachedIsRow(outer: seq<Dim>, f: Dim, e: nat, h: int, a: int) returns (i: nat)
    requires outer != [] && Nonempty(outer) && Volume(outer, 1) > 0 && Volume(outer[1..], 1) > 0
    requires OnReached(outer, f, e, h, a)
    ensures i < outer[0].block && OnReachedRow(outer, f, e, h, a, i)
  {
    assert Reach(outer) == outer[0].block + Reach(outer[1..]) - 1;
    hide Addr, Extent, Volume, OnHost, OnAccel, Skipped, Reach, OnReachedLine;
    var q: nat :| q < Reach(outer) && OnReachedLine(outer, f, e, h, a, q);
    i := if q < outer[0].block then q else outer[0].block - 1;
    LineInRow(outer, f, e, h, a, i, q);
    var hr, ar := h - Skipped(outer, f, e) - OnHost(f, e, i), a - OnAccel(f, e, i);
    LineOfRow(outer, f, e, hr, ar, i, q - i);
    assert OnReachedLine(outer[1..], f, e, hr, ar, q - i);
  }

  lemma LineInRow(outer: seq<Dim>, f: Dim, e: nat, h: nat, a: nat, i: nat, q: nat)
    requires outer != [] && Nonempty(outer) && Volume(outer, 1) > 0 && i <= q
    requires OnReachedLine(outer, f, e, h, a, q)
    ensures h >= Skipped(outer, f, e) + OnHost(f, e, i) && a >= OnAccel(f, e, i)
  {
    hide Addr, Extent, Volume, Skipped;
    var j := SkippedLines(outer, f, e, i);
    Below(j + i, Addr(outer, 1, 0) + q, f.size * e);
    Below(i, q, f.block * e);
  }

  ghost predicate OnReachedRows(outer: seq<Dim>, f: Dim, e: nat, h: int, a: int, n: nat)
    requires outer != [] && Nonempty(outer[1..]) && Volume(outer[1..], 1) > 0
  {
    exists i: nat :: i < n && OnReachedRow(outer, f, e, h, a, i)
  }

  lemma RowsAreReached(outer: seq<Dim>, f: Dim, e: nat, h: int, a: int)
    requires outer != [] && Nonempty(outer) && Volume(outer, 1) > 0 && Volume(outer[1..], 1) > 0
    ensures OnReachedRows(outer, f, e, h, a, outer[0].block) <==> OnReached(outer, f, e, h, a)
  {
    hide Addr, Extent, Volume, OnReached, OnReachedRow;
    if OnReachedRows(outer, f, e, h, a, outer[0].block) {
      var i: nat :| i < outer[0].block && OnReachedRow(outer, f, e, h, a, i);
      RowIsReached(outer, f, e, h, a, i);
    } else if OnReached(outer, f, e, h, a) {
      var i := ReachedIsRow(outer, f, e, h, a);
    }
  }

  lemma OneMoreReached(outer: seq<Dim>, f: Dim, e: nat, h: int, a: int, n: nat)
    requires outer != [] && Nonempty(outer[1..]) && Volume(outer[1..], 1) > 0
    ensures OnReachedRows(outer, f, e, h, a, n + 1) <==>
            OnReachedRows(outer, f, e, h, a, n) || OnReachedRow(outer, f, e, h, a, n)
  {
    hide OnReachedRow;
    if OnReachedRows(outer, f, e, h, a, n) {
      var i: nat :| i < n && OnReachedRow(outer, f, e, h, a, i);
      assert i < n + 1 && OnReachedRow(outer, f, e, h, a, i);
    }
  }

  lemma {:induction false} WrittenLinks(outer: seq<Dim>, f: Dim, e: nat, h0: nat, a0: nat, h: nat, a: nat)
    requires Nonempty(outer) && Volume(outer, 1) > 0 && (outer != [] ==> f.size != f.block)
    ensures Linked(Moves(Written, outer + [f], e, h0, a0), h, a) <==> OnReached(outer, f, e, h - h0, a - a0)
    decreases |outer|, 1, 0
  {
    if outer == [] {
      WrittenLine(f, e, h0, a0, h, a);
    } else {
      WrittenByRows(outer, f, e, h0, a0);
      FirstLine(outer);
      hide Addr, Extent, Volume, OnReached, OnReachedRow, OnReachedRows, Linked, Moves, RowMoves, Skipped;
      WrittenRows(outer, f, e, h0, a0, h, a, outer[0].block);
      RowsAreReached(outer, f, e, h - h0, a - a0);
    }
  }

  lemma WrittenLine(f: Dim, e: nat, h0: nat, a0: nat, h: nat, a: nat)
    ensures Linked(Moves(Written, [] + [f], e, h0, a0), h, a) <==> OnReached([], f, e, h - h0, a - a0)
  {
    assert [] + [f] == [f];
    var m := Move(h0 + f.offset * e, a0, f.block * e);
    assert Moves(Written, [f], e, h0, a0) == [m] && [m][..0] == [];
    assert Linked([m], h, a) <==> Connects(m, h, a);
    assert Reach([]) == 1 && Addr([], 1, 0) == 0;
    if Linked(Moves(Written, [f], e, h0, a0), h, a) {
      assert OnReachedLine([], f, e, h - h0, a - a0, 0);
    }
  }

  lemma WrittenByRows(outer: seq<Dim>, f: Dim, e: nat, h0: nat, a0: nat)
    requires outer != [] && f.size != f.block
    ensures Moves(Written, outer + [f], e, h0, a0) ==
            RowMoves(Written, outer + [f], e, h0 + Skipped(outer, f, e), a0, outer[0].block)
  {
    var box := outer + [f];
    assert box[1..] == outer[1..] + [f] && box[0] == outer[0] && box[|box| - 1] == f;
    hide Extent, RowMoves;
  }

  lemma WrittenRow(outer: seq<Dim>, f: Dim, e: nat, h: nat, a: nat, i: nat)
    requires outer != []
    ensures RowMoves(Written, outer + [f], e, h, a, i + 1) ==
            RowMoves(Written, outer + [f], e, h, a, i)
            + Moves(Written, outer[1..] + [f], e, h + OnHost(f, e, i), a + OnAccel(f, e, i))
  {
    var box := outer + [f];
    assert box[1..] == outer[1..] + [f] && box[|box| - 1] == f;
    hide Extent, Moves;
  }

  lemma {:induction false} WrittenRows(outer: seq<Dim>, f: Dim, e: nat, h0: nat, a0: nat, h: nat, a: nat, n: nat)
    requires outer != [] && Nonempty(outer) && Volume(outer[1..], 1) > 0 && f.size != f.block
    ensures Linked(RowMoves(Written, outer + [f], e, h0 + Skipped(outer, f, e), a0, n), h, a) <==>
            OnReachedRows(outer, f, e, h - h0, a - a0, n)
    decreases |outer|, 0, n
  {
    hide Addr, Extent, Volume, OnReached, OnReachedRow, Moves, OnHost, OnAccel, Skipped;
    if n > 0 {
      var i := n - 1;
      hide RowMoves, OnReachedRows, Linked;
      WrittenRows(outer, f, e, h0, a0, h, a, i);
      WrittenLinks(outer[1..], f, e, h0 + Skipped(outer, f, e) + OnHost(f, e, i), a0 + OnAccel(f, e, i), h, a);
      OneMoreWritten(outer, f, e, h0, a0, h, a, i);
      OneMoreReached(outer, f, e, h - h0, a - a0, i);
    }
  }

  /** One more row of the copy reaches what is on that row. */
  lemma OneMoreWritten(outer: seq<Dim>, f: Dim, e: nat, h0: nat, a0: nat, h: nat, a: nat, i: nat)
    requires outer != [] && Nonempty(outer) && Volume(outer[1..], 1) > 0
    requires var hr, ar := h0 + Skipped(outer, f, e) + OnHost(f, e, i), a0 + OnAccel(f, e, i);
             Linked(Moves(Written, outer[1..] + [f], e, hr, ar), h, a) <==> OnReached(outer[1..], f, e, h - hr, a - ar)
    ensures var base := h0 + Skipped(outer, f, e);
            Linked(RowMoves(Written, outer + [f], e, base, a0, i + 1), h, a) <==>
            Linked(RowMoves(Written, outer + [f], e, base, a0, i), h, a) || OnReachedRow(outer, f, e, h - h0, a - a0, i)
  {
    hide Addr, Extent, Volume, OnReached, Moves, OnHost, OnAccel, Skipped, RowMoves, Linked;
    var base := h0 + Skipped(outer, f, e);
    WrittenRow(outer, f, e, base, a0, i);
    LinkedConcat(RowMoves(Written, outer + [f], e, base, a0, i),
                 Moves(Written, outer[1..] + [f], e, base + OnHost(f, e, i), a0 + OnAccel(f, e, i)), h, a);
  }
}
