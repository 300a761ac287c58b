// The boxes that the accelerator copies move: a compact box on the accelerator, the same box
// in row-major order inside a larger host array.

module Boxes {
  import opened Arithmetic

  /** One dimension of the host array, and the part of it in the box. */
  datatype Dim = Dim(size: nat, block: nat, offset: nat)

  ghost predicate InRange(box: seq<Dim>) {
    forall k | 0 <= k < |box| :: box[k].offset + box[k].block <= box[k].size
  }

  ghost predicate Nonempty(box: seq<Dim>) {
    forall k | 0 <= k < |box| :: box[k].block > 0
  }

  /** Bytes of the host array and of the box, with elements of e bytes. */
  function Extent(box: seq<Dim>, e: nat): nat {
    if box == [] then e else box[0].size * Extent(box[1..], e)
  }

  function Volume(box: seq<Dim>, e: nat): nat {
    if box == [] then e else box[0].block * Volume(box[1..], e)
  }

  // ----- rows and columns -----

  /** Position a among b rows of v: its row, and its place in the row. */
  function Row(b: nat, v: nat, a: nat): (i: nat)
    requires a < b * v
    ensures i < b
  {
    Divided(b, v, a);
    a / v
  }

  function Column(b: nat, v: nat, a: nat): (r: nat)
    requires a < b * v
    ensures r < v
  {
    Divided(b, v, a);
    a % v
  }

  lemma Divided(b: nat, v: nat, a: nat)
    requires a < b * v
    ensures v > 0 && a / v < b && a == (a / v) * v + a % v
  {
    if v == 0 {
      assert false;
    }
    if a / v >= b {
      Below(b, a / v, v);
    }
  }

  lemma RowColumn(b: nat, v: nat, a: nat)
    requires a < b * v
    ensures a == Row(b, v, a) * v + Column(b, v, a)
  {
    Divided(b, v, a);
  }

  /** Row and column are the only decomposition. */
  lemma AtRow(b: nat, v: nat, i: nat, r: nat)
    requires i < b && r < v
    ensures i * v + r < b * v && Row(b, v, i * v + r) == i && Column(b, v, i * v + r) == r
  {
    hide Row, Column;
    Below(i + 1, b, v);
    assert (i + 1) * v == i * v + v;
    var a := i * v + r;
    var q := Row(b, v, a);
    RowColumn(b, v, a);
    assert (q + 1) * v == q * v + v;
    if q < i {
      Below(q + 1, i, v);
    } else if i < q {
      Below(i + 1, q, v);
    }
  }

  // ----- the map and its inverse -----

  /** Where byte a of the box lies in the host array. */
  function Addr(box: seq<Dim>, e: nat, a: nat): nat
    requires a < Volume(box, e)
  {
    if box == [] then a
    else
      var v := Volume(box[1..], e);
      (box[0].offset + Row(box[0].block, v, a)) * Extent(box[1..], e) + Addr(box[1..], e, Column(box[0].block, v, a))
  }

  /** Whether byte h of the host array lies in the box, and which byte of the box it is. */
  predicate InBox(box: seq<Dim>, e: nat, h: nat)
    requires h < Extent(box, e)
  {
    if box == [] then true
    else
      var x := Extent(box[1..], e);
      && box[0].offset <= Row(box[0].size, x, h) < box[0].offset + box[0].block
      && InBox(box[1..], e, Column(box[0].size, x, h))
  }

  function Pos(box: seq<Dim>, e: nat, h: nat): (a: nat)
    requires h < Extent(box, e) && InBox(box, e, h)
    ensures a < Volume(box, e)
  {
    if box == [] then h
    else
      var x, v := Extent(box[1..], e), Volume(box[1..], e);
      var i, r := Row(box[0].size, x, h) - box[0].offset, Pos(box[1..], e, Column(box[0].size, x, h));
      AtRow(box[0].block, v, i, r);
      i * v + r
  }

  lemma AddrAt(box: seq<Dim>, e: nat, i: nat, r: nat)
    requires box != [] && i < box[0].block && r < Volume(box[1..], e)
    ensures i * Volume(box[1..], e) + r < Volume(box, e)
    ensures Addr(box, e, i * Volume(box[1..], e) + r) == (box[0].offset + i) * Extent(box[1..], e) + Addr(box[1..], e, r)
  {
    hide Row, Column;
    AtRow(box[0].block, Volume(box[1..], e), i, r);
  }

  /** Every byte of the box has a place in the host array, and Pos finds it again. */
  lemma {:induction false} PosOfAddr(box: seq<Dim>, e: nat, a: nat)
    requires InRange(box) && a < Volume(box, e)
    ensures Addr(box, e, a) < Extent(box, e)
    ensures InBox(box, e, Addr(box, e, a)) && Pos(box, e, Addr(box, e, a)) == a
  {
    hide Row, Column;
    if box != [] {
      var v, x := Volume(box[1..], e), Extent(box[1..], e);
      var i, r := Row(box[0].block, v, a), Column(box[0].block, v, a);
      RowColumn(box[0].block, v, a);
      PosOfAddr(box[1..], e, r);
      AtRow(box[0].size, x, box[0].offset + i, Addr(box[1..], e, r));
    }
  }

  lemma {:induction false} AddrOfPos(box: seq<Dim>, e: nat, h: nat)
    requires h < Extent(box, e) && InBox(box, e, h)
    ensures Addr(box, e, Pos(box, e, h)) == h
  {
    hide Row, Column;
    if box != [] {
      var x := Extent(box[1..], e);
      RowColumn(box[0].size, x, h);
      AddrOfPos(box[1..], e, Column(box[0].size, x, h));
      AddrAt(box, e, Row(box[0].size, x, h) - box[0].offset, Pos(box[1..], e, Column(box[0].size, x, h)));
    }
  }

  // ----- merging a last dimension that is copied whole -----

  function MergeLast(box: seq<Dim>): seq<Dim>
    requires |box| >= 2
  {
    var n := |box| - 2;
    var d, f := box[n], box[n + 1];
    box[..n] + [Dim(d.size * f.size, d.block * f.size, d.offset * f.size + f.offset)]
  }

  lemma OneDim(d: Dim, e: nat)
    ensures Extent([d], e) == d.size * e && Volume([d], e) == d.block * e
    ensures forall a: nat | a < Volume([d], e) :: Addr([d], e, a) == d.offset * e + a
  {
    assert [d][1..] == [];
    assert Extent([], e) == Volume([], e) == e;
    forall a: nat | a < Volume([d], e)
      ensures Addr([d], e, a) == d.offset * e + a
    {
      RowColumn(d.block, e, a);
      var i := Row(d.block, e, a);
      assert (d.offset + i) * e == d.offset * e + i * e;
      hide Row, Column;
    }
  }

  lemma MergeTwo(d: Dim, f: Dim, e: nat)
    requires f.size == f.block && f.offset == 0
    ensures MergeLast([d, f]) == [Dim(d.size * f.size, d.block * f.size, d.offset * f.size)]
    ensures Extent(MergeLast([d, f]), e) == Extent([d, f], e) && Volume(MergeLast([d, f]), e) == Volume([d, f], e)
    ensures forall a: nat | a < Volume([d, f], e) :: Addr(MergeLast([d, f]), e, a) == Addr([d, f], e, a)
  {
    var v := f.size * e;
    var m := Dim(d.size * f.size, d.block * f.size, d.offset * f.size);
    assert [d, f][..0] == [] && [] + [m] == [m] && [d, f][1..] == [f];
    assert MergeLast([d, f]) == [m];
    OneDim(f, e);
    OneDim(m, e);
    Associate(d.size, f.size, e);
    Associate(d.block, f.size, e);
    Associate(d.offset, f.size, e);
    forall a: nat | a < Volume([d, f], e)
      ensures Addr([m], e, a) == Addr([d, f], e, a)
    {
      RowColumn(d.block, v, a);
      var i := Row(d.block, v, a);
      assert (d.offset + i) * v == d.offset * v + i * v;
      hide Row, Column;
    }
  }

  lemma MergedInRange(d: Dim, f: Dim)
    requires d.offset + d.block <= d.size && f.offset == 0
    ensures d.offset * f.size + f.offset + d.block * f.size <= d.size * f.size
  {
    Below(d.offset + d.block, d.size, f.size);
    assert (d.offset + d.block) * f.size == d.offset * f.size + d.block * f.size;
  }

  /** Merging changes neither the host array, nor the box, nor the map between them. */
  lemma {:induction false} MergeKeepsMap(box: seq<Dim>, e: nat)
    requires |box| >= 2 && InRange(box) && box[|box| - 1].size == box[|box| - 1].block
    ensures InRange(MergeLast(box))
    ensures Extent(MergeLast(box), e) == Extent(box, e) && Volume(MergeLast(box), e) == Volume(box, e)
    ensures forall a: nat | a < Volume(box, e) :: Addr(MergeLast(box), e, a) == Addr(box, e, a)
  {
    hide Row, Column;
    var d, f := box[|box| - 2], box[|box| - 1];
    MergedInRange(d, f);
    if |box| == 2 {
      assert box == [d, f];
      MergeTwo(d, f, e);
    } else {
      assert MergeLast(box)[0] == box[0] && MergeLast(box)[1..] == MergeLast(box[1..]);
      MergeKeepsMap(box[1..], e);
    }
  }
}
