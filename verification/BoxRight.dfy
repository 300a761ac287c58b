// When the copies move the box: always with the corrected strides, and with the source's
// strides exactly when the rows they reach happen to be those of the box.

module BoxRight {
  import opened Arithmetic
  import opened Boxes
  import opened BoxCopy

  // ----- the bytes that moves connect -----

  predicate Connects(m: Move, h: nat, a: nat) {
    m.h <= h < m.h + m.n && h - m.h == a - m.a
  }

  ghost predicate Linked(moves: seq<Move>, h: nat, a: nat) {
    moves != [] && (Linked(moves[..|moves| - 1], h, a) || Connects(moves[|moves| - 1], h, a))
  }

  lemma LinkedNext(ms: seq<Move>, m: Move)
    ensures forall h: nat, a: nat :: Linked(ms + [m], h, a) <==> Linked(ms, h, a) || Connects(m, h, a)
  {
    assert (ms + [m])[..|ms|] == ms;
  }

  lemma {:induction false} LinkedConcat(ms: seq<Move>, ns: seq<Move>, h: nat, a: nat)
    ensures Linked(ms + ns, h, a) <==> Linked(ms, h, a) || Linked(ns, h, a)
    decreases |ns|
  {
    if ns == [] {
      assert ms + ns == ms;
    } else {
      var k := |ns| - 1;
      assert (ms + ns)[..|ms| + k] == ms + ns[..k];
      LinkedConcat(ms, ns[..k], h, a);
    }
  }

  lemma {:induction false} MemberLinks(moves: seq<Move>, m: Move, h: nat, a: nat)
    requires m in moves && Connects(m, h, a)
    ensures Linked(moves, h, a)
  {
    var k := |moves| - 1;
    if !Connects(moves[k], h, a) {
      assert m in moves[..k];
      MemberLinks(moves[..k], m, h, a);
    }
  }

  /** Moves fit as soon as every byte they connect does. */
  lemma FitsByLinks(moves: seq<Move>, host: nat, accel: nat)
    requires forall h: nat, a: nat | Linked(moves, h, a) :: h < host && a < accel
    ensures Fits(moves, host, accel)
  {
    forall m | m in moves && m.n > 0
      ensures m.h + m.n <= host && m.a + m.n <= accel
    {
      MemberLinks(moves, m, m.h + m.n - 1, m.a + m.n - 1);
    }
  }

  /** When every byte written has one source, it ends with that byte's value, and every byte
      that is not written keeps its own. */
  lemma {:induction false} MoveToLinked(host: seq<int>, accel: seq<int>, moves: seq<Move>, h: nat, a: nat)
    requires Fits(moves, |host|, |accel|) && a < |accel|
    requires forall g: nat | Linked(moves, g, a) :: g == h
    ensures Linked(moves, h, a) ==> h < |host| && MoveTo(host, accel, moves)[a] == host[h]
    ensures !Linked(moves, h, a) ==> MoveTo(host, accel, moves)[a] == accel[a]
  {
    hide Fits;
    if moves != [] {
      var k := |moves| - 1;
      var m := moves[k];
      assert moves == moves[..k] + [m];
      LinkedNext(moves[..k], m);
      MoveToNext(host, accel, moves[..k], m);
      hide MoveTo, Linked;
      forall g: nat | Linked(moves[..k], g, a) ensures g == h {
        assert Linked(moves, g, a);
      }
      MoveToLinked(host, accel, moves[..k], h, a);
      if m.a <= a < m.a + m.n {
        var g := m.h + (a - m.a);
        assert Connects(m, g, a) && Linked(moves, g, a);
      }
    }
  }

  lemma {:induction false} MoveFromLinked(host: seq<int>, accel: seq<int>, moves: seq<Move>, h: nat, a: nat)
    requires Fits(moves, |host|, |accel|) && h < |host|
    requires forall b: nat | Linked(moves, h, b) :: b == a
    ensures Linked(moves, h, a) ==> a < |accel| && MoveFrom(host, accel, moves)[h] == accel[a]
    ensures !Linked(moves, h, a) ==> MoveFrom(host, accel, moves)[h] == host[h]
  {
    hide Fits;
    if moves != [] {
      var k := |moves| - 1;
      var m := moves[k];
      assert moves == moves[..k] + [m];
      LinkedNext(moves[..k], m);
      MoveFromNext(host, accel, moves[..k], m);
      hide MoveFrom, Linked;
      forall b: nat | Linked(moves[..k], h, b) ensures b == a {
        assert Linked(moves, h, b);
      }
      MoveFromLinked(host, accel, moves[..k], h, a);
      if m.h <= h < m.h + m.n {
        var b := m.a + (h - m.h);
        assert Connects(m, h, b) && Linked(moves, h, b);
      }
    }
  }

  // ----- the reference -----

  /** The accelerator's memory with the box of the host array at its start. */
  function BoxTo(box: seq<Dim>, e: nat, host: seq<int>, accel: seq<int>): (r: seq<int>)
    requires InRange(box) && |host| == Extent(box, e) && Volume(box, e) <= |accel|
    ensures |r| == |accel|
  {
    seq(|accel|, a requires 0 <= a < |accel| =>
      if a < Volume(box, e) then PosOfAddr(box, e, a); host[Addr(box, e, a)] else accel[a])
  }

  /** The host array with its box replaced by what the accelerator's memory starts with. */
  function BoxFrom(box: seq<Dim>, e: nat, host: seq<int>, accel: seq<int>): (r: seq<int>)
    requires InRange(box) && |host| == Extent(box, e) && Volume(box, e) <= |accel|
    ensures |r| == |host|
  {
    seq(|host|, h requires 0 <= h < |host| => if InBox(box, e, h) then accel[Pos(box, e, h)] else host[h])
  }

  /** Copying a box out and back restores the host array; copying it back and out again gives
      the box that was copied back. */
  lemma ThereAndBack(box: seq<Dim>, e: nat, host: seq<int>, accel: seq<int>)
    requires InRange(box) && |host| == Extent(box, e) && Volume(box, e) <= |accel|
    ensures BoxFrom(box, e, host, BoxTo(box, e, host, accel)) == host
    ensures BoxTo(box, e, BoxFrom(box, e, host, accel), accel) == accel
  {
    forall h: nat | h < |host| && InBox(box, e, h)
      ensures BoxFrom(box, e, host, BoxTo(box, e, host, accel))[h] == host[h]
    {
      AddrOfPos(box, e, h);
    }
    forall a: nat | a < Volume(box, e)
      ensures BoxTo(box, e, BoxFrom(box, e, host, accel), accel)[a] == accel[a]
    {
      PosOfAddr(box, e, a);
    }
  }

  // ----- the corrected strides -----

  ghost predicate Partners(box: seq<Dim>, e: nat, h: nat, a: nat) {
    a < Volume(box, e) && h == Addr(box, e, a)
  }

  lemma {:induction false} CorrectedLinks(box: seq<Dim>, e: nat, h0: nat, a0: nat, h: nat, a: nat)
    requires |box| >= 1 && InRange(box)
    ensures Linked(Moves(Corrected, box, e, h0, a0), h, a) <==>
            h >= h0 && a >= a0 && Partners(box, e, h - h0, a - a0)
    decreases |box|, 1, 0
  {
    hide Row, Column, Volume, Extent, Addr;
    var d := box[|box| - 1];
    if |box| == 1 {
      OneDim(d, e);
      assert box == [d];
      assert Moves(Corrected, box, e, h0, a0)[..0] == [];
    } else if d.size == d.block {
      MergeKeepsMap(box, e);
      CorrectedLinks(MergeLast(box), e, h0, a0, h, a);
    } else {
      CorrectedRows(box, e, h0, a0, h, a, box[0].block);
      RowsArePartners(box, e, h0, a0, h, a);
    }
  }

  /** The bytes h and a are partners in one of the first n rows. */
  ghost predicate InRows(box: seq<Dim>, e: nat, h0: nat, a0: nat, h: nat, a: nat, n: nat)
    requires |box| >= 2
  {
    exists i: nat :: i < n && InRow(box, e, h0, a0, h, a, i)
  }

  ghost predicate InRow(box: seq<Dim>, e: nat, h0: nat, a0: nat, h: nat, a: nat, i: nat)
    requires |box| >= 2
  {
    var hr, ar := h0 + i * Extent(box[1..], e), a0 + i * Volume(box[1..], e);
    h >= hr && a >= ar && Partners(box[1..], e, h - hr, a - ar)
  }

  lemma {:induction false} CorrectedRows(box: seq<Dim>, e: nat, h0: nat, a0: nat, h: nat, a: nat, n: nat)
    requires |box| >= 2 && InRange(box)
    ensures var base := h0 + box[0].offset * Extent(box[1..], e);
            Linked(RowMoves(Corrected, box, e, base, a0, n), h, a) <==> InRows(box, e, base, a0, h, a, n)
    decreases |box|, 0, n
  {
    hide Row, Column, Volume, Extent, Addr, Partners, Moves;
    var base := h0 + box[0].offset * Extent(box[1..], e);
    if n > 0 {
      CorrectedRows(box, e, h0, a0, h, a, n - 1);
      var hr, ar := base + (n - 1) * Extent(box[1..], e), a0 + (n - 1) * Volume(box[1..], e);
      LinkedConcat(RowMoves(Corrected, box, e, base, a0, n - 1), Moves(Corrected, box[1..], e, hr, ar), h, a);
      CorrectedLinks(box[1..], e, hr, ar, h, a);
      OneMoreRow(box, e, base, a0, h, a, n - 1);
    }
  }

  lemma OneMoreRow(box: seq<Dim>, e: nat, h0: nat, a0: nat, h: nat, a: nat, n: nat)
    requires |box| >= 2
    ensures InRows(box, e, h0, a0, h, a, n + 1) <==> InRows(box, e, h0, a0, h, a, n) || InRow(box, e, h0, a0, h, a, n)
  {
    hide InRow;
    if InRows(box, e, h0, a0, h, a, n) {
      var i: nat :| i < n && InRow(box, e, h0, a0, h, a, i);
      assert i < n + 1 && InRow(box, e, h0, a0, h, a, i);
    }
  }

  lemma RowIsPartner(box: seq<Dim>, e: nat, h0: nat, a0: nat, h: nat, a: nat, i: nat)
    requires |box| >= 2 && i < box[0].block
    requires InRow(box, e, h0 + box[0].offset * Extent(box[1..], e), a0, h, a, i)
    ensures h >= h0 && a >= a0 && Partners(box, e, h - h0, a - a0)
  {
    hide Row, Column, Volume, Extent, Addr;
    var x, v := Extent(box[1..], e), Volume(box[1..], e);
    AddrAt(box, e, i, a - (a0 + i * v));
    Distribute(box[0].offset, i, x);
  }

  lemma AddrByRow(box: seq<Dim>, e: nat, a: nat) returns (i: nat, r: nat)
    requires box != [] && a < Volume(box, e)
    ensures i < box[0].block && r < Volume(box[1..], e) && a == i * Volume(box[1..], e) + r
    ensures Addr(box, e, a) == box[0].offset * Extent(box[1..], e) + i * Extent(box[1..], e) + Addr(box[1..], e, r)
  {
    var x, v := Extent(box[1..], e), Volume(box[1..], e);
    i, r := Row(box[0].block, v, a), Column(box[0].block, v, a);
    RowColumn(box[0].block, v, a);
    hide Row, Column;
    assert (box[0].offset + i) * x == box[0].offset * x + i * x;
  }

  lemma PartnerInRow(box: seq<Dim>, e: nat, h0: nat, a0: nat, h: nat, a: nat) returns (i: nat)
    requires |box| >= 2 && h >= h0 && a >= a0 && Partners(box, e, h - h0, a - a0)
    ensures i < box[0].block && InRow(box, e, h0 + box[0].offset * Extent(box[1..], e), a0, h, a, i)
  {
    hide Addr, Extent, Volume;
    var r: nat;
    i, r := AddrByRow(box, e, a - a0);
  }

  lemma RowsArePartners(box: seq<Dim>, e: nat, h0: nat, a0: nat, h: nat, a: nat)
    requires |box| >= 2
    ensures InRows(box, e, h0 + box[0].offset * Extent(box[1..], e), a0, h, a, box[0].block) <==>
            h >= h0 && a >= a0 && Partners(box, e, h - h0, a - a0)
  {
    hide InRow, Extent, Volume, Partners;
    var base := h0 + box[0].offset * Extent(box[1..], e);
    if InRows(box, e, base, a0, h, a, box[0].block) {
      var i: nat :| i < box[0].block && InRow(box, e, base, a0, h, a, i);
      RowIsPartner(box, e, h0, a0, h, a, i);
    } else if h >= h0 && a >= a0 && Partners(box, e, h - h0, a - a0) {
      var i := PartnerInRow(box, e, h0, a0, h, a);
    }
  }

  /** Memories that hold the host array, and at least the box. */
  ghost predicate Sized(box: seq<Dim>, e: nat, host: seq<int>, accel: seq<int>) {
    |host| == Extent(box, e) && |accel| >= Volume(box, e)
  }

  /** The moves touch nothing outside the memories and give the reference's result. */
  ghost predicate GivesTo(moves: seq<Move>, box: seq<Dim>, e: nat, host: seq<int>, accel: seq<int>)
    requires InRange(box) && Sized(box, e, host, accel)
  {
    Fits(moves, |host|, |accel|) && MoveTo(host, accel, moves) == BoxTo(box, e, host, accel)
  }

  ghost predicate GivesFrom(moves: seq<Move>, box: seq<Dim>, e: nat, host: seq<int>, accel: seq<int>)
    requires InRange(box) && Sized(box, e, host, accel)
  {
    Fits(moves, |host|, |accel|) && MoveFrom(host, accel, moves) == BoxFrom(box, e, host, accel)
  }

  /** Moves that connect exactly the partners of the box copy the box. */
  lemma LinksGiveBox(box: seq<Dim>, e: nat, host: seq<int>, accel: seq<int>, moves: seq<Move>)
    requires InRange(box) && Sized(box, e, host, accel)
    requires forall h: nat, a: nat :: Linked(moves, h, a) <==> Partners(box, e, h, a)
    ensures GivesTo(moves, box, e, host, accel) && GivesFrom(moves, box, e, host, accel)
  {
    hide Moves, MoveTo, MoveFrom, Fits, Linked, Volume, Extent, Addr, InBox, Pos, InRange;
    forall h: nat, a: nat | Linked(moves, h, a)
      ensures h < |host| && a < |accel|
    {
      PosOfAddr(box, e, a);
    }
    FitsByLinks(moves, |host|, |accel|);
    forall a: nat | a < |accel|
      ensures MoveTo(host, accel, moves)[a] == BoxTo(box, e, host, accel)[a]
    {
      MoveToLinked(host, accel, moves, if a < Volume(box, e) then Addr(box, e, a) else 0, a);
    }
    forall h: nat | h < |host|
      ensures MoveFrom(host, accel, moves)[h] == BoxFrom(box, e, host, accel)[h]
    {
      forall a: nat | Linked(moves, h, a) ensures InBox(box, e, h) && a == Pos(box, e, h) {
        PosOfAddr(box, e, a);
      }
      if InBox(box, e, h) {
        AddrOfPos(box, e, h);
        MoveFromLinked(host, accel, moves, h, Pos(box, e, h));
      } else {
        MoveFromLinked(host, accel, moves, h, 0);
      }
    }
  }

  /** The copy is right on every content of both memories. */
  ghost predicate RightTo(s: Strides, box: seq<Dim>, e: nat)
    requires |box| >= 1 && InRange(box)
  {
    forall host: seq<int>, accel: seq<int> | Sized(box, e, host, accel) ::
      GivesTo(Moves(s, box, e, 0, 0), box, e, host, accel)
  }

  ghost predicate RightFrom(s: Strides, box: seq<Dim>, e: nat)
    requires |box| >= 1 && InRange(box)
  {
    forall host: seq<int>, accel: seq<int> | Sized(box, e, host, accel) ::
      GivesFrom(Moves(s, box, e, 0, 0), box, e, host, accel)
  }

  lemma LinksGiveRight(s: Strides, box: seq<Dim>, e: nat)
    requires |box| >= 1 && InRange(box)
    requires forall h: nat, a: nat :: Linked(Moves(s, box, e, 0, 0), h, a) <==> Partners(box, e, h, a)
    ensures RightTo(s, box, e) && RightFrom(s, box, e)
  {
    hide Moves, Linked, Partners, InRange, Sized, GivesTo, GivesFrom;
    forall host: seq<int>, accel: seq<int> | Sized(box, e, host, accel)
      ensures GivesTo(Moves(s, box, e, 0, 0), box, e, host, accel)
      ensures GivesFrom(Moves(s, box, e, 0, 0), box, e, host, accel)
    {
      LinksGiveBox(box, e, host, accel, Moves(s, box, e, 0, 0));
    }
  }

  /** With the corrected strides every copy, merged or row by row, is the box map. */
  lemma CorrectedIsRight(box: seq<Dim>, e: nat)
    requires |box| >= 1 && InRange(box)
    ensures RightTo(Corrected, box, e) && RightFrom(Corrected, box, e)
  {
    hide Moves, Linked, Partners, RightTo, RightFrom, InRange;
    forall h: nat, a: nat
      ensures Linked(Moves(Corrected, box, e, 0, 0), h, a) <==> Partners(box, e, h, a)
    {
      CorrectedLinks(box, e, 0, 0, h, a);
    }
    LinksGiveRight(Corrected, box, e);
  }
}
