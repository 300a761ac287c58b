// The copy stubs: nested loops over the bytes of a box, with the index formulas written out.

module BoxStubs {
  import opened Arithmetic
  import opened Boxes
  import opened BoxRight

  /** The byte moved to accel[i*e*d2_block_size + j] in the loops of the two-dimensional stubs. */
  lemma StubIndex2d(d1: Dim, d2: Dim, e: nat, i: nat, j: nat)
    requires InRange([d1, d2]) && i < d1.block && j < d2.block * e
    ensures i * (d2.block * e) + j < Volume([d1, d2], e)
    ensures Addr([d1, d2], e, i * (d2.block * e) + j) == d2.offset * e + (i + d1.offset) * (d2.size * e) + j
    ensures Addr([d1, d2], e, i * (d2.block * e) + j) < Extent([d1, d2], e)
  {
    assert [d1, d2][1..] == [d2];
    OneDim(d2, e);
    AddrAt([d1, d2], e, i, j);
    PosOfAddr([d1, d2], e, i * (d2.block * e) + j);
  }

  /** Bytes below n have been copied, the others not yet. */
  ghost predicate CopiedBelow(box: seq<Dim>, e: nat, host: seq<int>, was: seq<int>, now: seq<int>, n: nat)
    requires InRange(box) && Sized(box, e, host, was) && n <= Volume(box, e)
  {
    |now| == |was| && forall a: nat | a < |was| :: now[a] == (if a < n then BoxTo(box, e, host, was)[a] else was[a])
  }

  method StubRowTo(d1: Dim, d2: Dim, e: nat, host: array<int>, accel: array<int>, i: nat, ghost was: seq<int>)
    requires InRange([d1, d2]) && host != accel && Sized([d1, d2], e, host[..], was) && i < d1.block
    requires i * (d2.block * e) + d2.block * e <= Volume([d1, d2], e)
    requires CopiedBelow([d1, d2], e, host[..], was, accel[..], i * (d2.block * e))
    modifies accel
    ensures CopiedBelow([d1, d2], e, host[..], was, accel[..], i * (d2.block * e) + d2.block * e)
  {
    hide Addr, Volume, Extent;
    for j := 0 to d2.block * e
      invariant CopiedBelow([d1, d2], e, host[..], was, accel[..], i * (d2.block * e) + j)
    {
      StubIndex2d(d1, d2, e, i, j);
      accel[i * (d2.block * e) + j] := host[d2.offset * e + (i + d1.offset) * (d2.size * e) + j];
    }
  }

  /** The stub of P4A_copy_to_accel_2d. */
  method StubTo2d(d1: Dim, d2: Dim, e: nat, host: array<int>, accel: array<int>)
    requires InRange([d1, d2]) && host != accel && Sized([d1, d2], e, host[..], accel[..])
    modifies accel
    ensures accel[..] == BoxTo([d1, d2], e, host[..], old(accel[..]))
  {
    ghost var was := accel[..];
    assert Volume([d1, d2], e) == d1.block * (d2.block * e) by {
      assert [d1, d2][1..] == [d2];
      OneDim(d2, e);
    }
    hide Addr, Volume, Extent;
    for i := 0 to d1.block
      invariant i * (d2.block * e) <= Volume([d1, d2], e)
      invariant CopiedBelow([d1, d2], e, host[..], was, accel[..], i * (d2.block * e))
    {
      Below(i + 1, d1.block, d2.block * e);
      assert (i + 1) * (d2.block * e) == i * (d2.block * e) + d2.block * e;
      StubRowTo(d1, d2, e, host, accel, i, was);
    }
  }

  /** Host bytes that the first n bytes of the box belong to have been replaced. */
  ghost predicate ReturnedBelow(box: seq<Dim>, e: nat, was: seq<int>, accel: seq<int>, now: seq<int>, n: nat)
    requires InRange(box) && Sized(box, e, was, accel) && n <= Volume(box, e)
  {
    && |now| == |was|
    && forall h: nat | h < |was| ::
         now[h] == (if InBox(box, e, h) && Pos(box, e, h) < n then BoxFrom(box, e, was, accel)[h] else was[h])
  }

  lemma ReturnedNext(box: seq<Dim>, e: nat, was: seq<int>, accel: seq<int>, now: seq<int>, n: nat)
    requires InRange(box) && Sized(box, e, was, accel) && n < Volume(box, e)
    requires ReturnedBelow(box, e, was, accel, now, n)
    ensures Addr(box, e, n) < |was| && ReturnedBelow(box, e, was, accel, now[Addr(box, e, n) := accel[n]], n + 1)
  {
    PosOfAddr(box, e, n);
    hide Volume, Extent, InRange, InBox, Pos, Addr;
    forall h: nat | h < |was| && InBox(box, e, h)
      ensures Pos(box, e, h) == n <==> h == Addr(box, e, n)
    {
      AddrOfPos(box, e, h);
    }
  }

  method StubRowFrom(d1: Dim, d2: Dim, e: nat, host: array<int>, accel: array<int>, i: nat, ghost was: seq<int>)
    requires InRange([d1, d2]) && host != accel && Sized([d1, d2], e, was, accel[..]) && i < d1.block
    requires i * (d2.block * e) + d2.block * e <= Volume([d1, d2], e)
    requires ReturnedBelow([d1, d2], e, was, accel[..], host[..], i * (d2.block * e))
    modifies host
    ensures ReturnedBelow([d1, d2], e, was, accel[..], host[..], i * (d2.block * e) + d2.block * e)
  {
    var row, width := i * (d2.block * e), d2.block * e;
    hide Addr, Volume, Extent, InRange, InBox, Pos, BoxFrom, ReturnedBelow;
    assert host.Length == |was| by { ReturnedLength([d1, d2], e, was, accel[..], host[..], row); }
    for j := 0 to width
      invariant ReturnedBelow([d1, d2], e, was, accel[..], host[..], row + j)
    {
      StubIndex2d(d1, d2, e, i, j);
      ReturnedNext([d1, d2], e, was, accel[..], host[..], row + j);
      ghost var next := host[..][Addr([d1, d2], e, row + j) := accel[row + j]];
      host[d2.offset * e + (i + d1.offset) * (d2.size * e) + j] := accel[row + j];
      assert host[..] == next;
    }
  }

  lemma ReturnedLength(box: seq<Dim>, e: nat, was: seq<int>, accel: seq<int>, now: seq<int>, n: nat)
    requires InRange(box) && Sized(box, e, was, accel) && n <= Volume(box, e)
    requires ReturnedBelow(box, e, was, accel, now, n)
    ensures |now| == |was|
    ensures n == Volume(box, e) ==> now == BoxFrom(box, e, was, accel)
  {
  }

  lemma ReturnedNone(box: seq<Dim>, e: nat, was: seq<int>, accel: seq<int>)
    requires InRange(box) && Sized(box, e, was, accel)
    ensures ReturnedBelow(box, e, was, accel, was, 0)
  {
  }

  /** The stub of P4A_copy_from_accel_2d. */
  method StubFrom2d(d1: Dim, d2: Dim, e: nat, host: array<int>, accel: array<int>)
    requires InRange([d1, d2]) && host != accel && Sized([d1, d2], e, host[..], accel[..])
    modifies host
    ensures host[..] == BoxFrom([d1, d2], e, old(host[..]), accel[..])
  {
    ghost var was := host[..];
    assert Volume([d1, d2], e) == d1.block * (d2.block * e) by {
      assert [d1, d2][1..] == [d2];
      OneDim(d2, e);
    }
    hide Addr, Volume, Extent, InRange, BoxFrom, ReturnedBelow;
    ReturnedNone([d1, d2], e, was, accel[..]);
    for i := 0 to d1.block
      invariant i * (d2.block * e) <= Volume([d1, d2], e)
      invariant ReturnedBelow([d1, d2], e, was, accel[..], host[..], i * (d2.block * e))
    {
      Below(i + 1, d1.block, d2.block * e);
      assert (i + 1) * (d2.block * e) == i * (d2.block * e) + d2.block * e;
      StubRowFrom(d1, d2, e, host, accel, i, was);
    }
    ReturnedLength([d1, d2], e, was, accel[..], host[..], Volume([d1, d2], e));
  }

  /** The index that the four-dimensional stubs compute in an array whose inner dimensions have
      b, c and d elements. */
  function Index4d(i: nat, j: nat, k: nat, l: nat, b: nat, c: nat, d: nat): nat {
    i * b * c * d + j * c * d + k * d + l
  }

  /** Place r of row i, with v places to a row. */
  function PlaceInRow(i: nat, v: nat, r: nat): nat {
    i * v + r
  }

  lemma Index4dNested(i: nat, j: nat, k: nat, l: nat, b: nat, c: nat, d: nat)
    ensures Index4d(i, j, k, l, b, c, d) == PlaceInRow(i, b * (c * d), PlaceInRow(j, c * d, PlaceInRow(k, d, l)))
  {
    FourFactors(i, b, c, d);
    Associate(j, c, d);
  }

  lemma StubAddr(d1: Dim, d2: Dim, d3: Dim, d4: Dim, i: nat, j: nat, k: nat, l: nat)
    requires i < d1.block && j < d2.block && k < d3.block && l < Volume([d4], 1)
    ensures var v3, v2, v1 := Volume([d4], 1), Volume([d3, d4], 1), Volume([d2, d3, d4], 1);
            var x3, x2, x1 := Extent([d4], 1), Extent([d3, d4], 1), Extent([d2, d3, d4], 1);
            var a := PlaceInRow(i, v1, PlaceInRow(j, v2, PlaceInRow(k, v3, l)));
            && a < Volume([d1, d2, d3, d4], 1)
            && Addr([d1, d2, d3, d4], 1, a) ==
               PlaceInRow(d1.offset + i, x1, PlaceInRow(d2.offset + j, x2, PlaceInRow(d3.offset + k, x3, Addr([d4], 1, l))))
  {
    hide Addr, Volume, Extent;
    assert [d1, d2, d3, d4][1..] == [d2, d3, d4] && [d2, d3, d4][1..] == [d3, d4] && [d3, d4][1..] == [d4];
    var r3 := PlaceInRow(k, Volume([d4], 1), l);
    AddrAt([d3, d4], 1, k, l);
    var r2 := PlaceInRow(j, Volume([d3, d4], 1), r3);
    AddrAt([d2, d3, d4], 1, j, r3);
    AddrAt([d1, d2, d3, d4], 1, i, r2);
  }

  /** The stubs' indices are the box map, on elements of one byte. */
  lemma StubIndex4d(d1: Dim, d2: Dim, d3: Dim, d4: Dim, i: nat, j: nat, k: nat, l: nat)
    requires InRange([d1, d2, d3, d4]) && i < d1.block && j < d2.block && k < d3.block && l < d4.block
    ensures var box, a := [d1, d2, d3, d4], Index4d(i, j, k, l, d2.block, d3.block, d4.block);
            && a < Volume(box, 1)
            && Addr(box, 1, a) ==
               Index4d(d1.offset + i, d2.offset + j, d3.offset + k, d4.offset + l, d2.size, d3.size, d4.size)
  {
    hide Addr, Volume, Extent, Index4d, InRange, PlaceInRow;
    StubSizes(d2, d3, d4);
    StubAddr(d1, d2, d3, d4, i, j, k, l);
    Index4dNested(i, j, k, l, d2.block, d3.block, d4.block);
    Index4dNested(d1.offset + i, d2.offset + j, d3.offset + k, d4.offset + l, d2.size, d3.size, d4.size);
  }

  lemma StubSizes(d2: Dim, d3: Dim, d4: Dim)
    ensures Volume([d4], 1) == d4.block && Extent([d4], 1) == d4.size
    ensures forall l: nat | l < d4.block :: Addr([d4], 1, l) == d4.offset + l
    ensures Volume([d3, d4], 1) == d3.block * d4.block && Extent([d3, d4], 1) == d3.size * d4.size
    ensures Volume([d2, d3, d4], 1) == d2.block * (d3.block * d4.block)
    ensures Extent([d2, d3, d4], 1) == d2.size * (d3.size * d4.size)
  {
    assert [d2, d3, d4][1..] == [d3, d4] && [d3, d4][1..] == [d4];
    OneDim(d4, 1);
  }

  lemma FourFactors(i: nat, b: nat, c: nat, d: nat)
    ensures i * (b * (c * d)) == i * b * c * d
  {
    Associate(b, c, d);
    Associate(i, b * c, d);
    Associate(i, b, c);
  }
}
