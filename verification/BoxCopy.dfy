// The accelerator copies. An n-dimensional copy merges its last dimension into the one before
// when it is copied whole; otherwise it copies row by row, each row a copy with one dimension
// less. In the end it only issues one-dimensional copies: its moves.

module BoxCopy {
  import opened Arithmetic
  import opened Boxes
  import opened Bytes

  /** How far the rows of a copy advance: Written is the source's choice, the size of a line of
      the last dimension; Corrected is the size of all the dimensions inside. */
  datatype Strides = Written | Corrected

  function HostStride(s: Strides, box: seq<Dim>, e: nat): nat
    requires |box| >= 2
  {
    if s.Written? then box[|box| - 1].size * e else Extent(box[1..], e)
  }

  function AccelStride(s: Strides, box: seq<Dim>, e: nat): nat
    requires |box| >= 2
  {
    if s.Written? then box[|box| - 1].block * e else Volume(box[1..], e)
  }

  /** One one-dimensional copy of n bytes between host byte h and accelerator byte a. */
  datatype Move = Move(h: nat, a: nat, n: nat)

  /** The one-dimensional copies of a copy with the host array at h and the box at a. */
  function Moves(s: Strides, box: seq<Dim>, e: nat, h: nat, a: nat): seq<Move>
    requires |box| >= 1
    decreases |box|, 1, 0
  {
    var d := box[|box| - 1];
    if |box| == 1 then [Move(h + d.offset * e, a, d.block * e)]
    else if d.size == d.block then Moves(s, MergeLast(box), e, h, a)
    else RowMoves(s, box, e, h + box[0].offset * Extent(box[1..], e), a, box[0].block)
  }

  /** The moves of the first i rows, the first at host byte h and accelerator byte a. */
  function RowMoves(s: Strides, box: seq<Dim>, e: nat, h: nat, a: nat, i: nat): seq<Move>
    requires |box| >= 2
    decreases |box|, 0, i
  {
    if i == 0 then []
    else
      RowMoves(s, box, e, h, a, i - 1)
      + Moves(s, box[1..], e, h + (i - 1) * HostStride(s, box, e), a + (i - 1) * AccelStride(s, box, e))
  }

  /** Where row i starts. */
  function RowStart(h: nat, i: nat, stride: nat): nat {
    h + i * stride
  }

  lemma NextStart(h: nat, i: nat, stride: nat)
    ensures RowStart(h, 0, stride) == h && RowStart(h, i + 1, stride) == RowStart(h, i, stride) + stride
  {
    Distribute(i, 1, stride);
  }

  // ----- performing moves -----

  /** Every byte moved lies in the host array and in the accelerator's memory. */
  ghost predicate Fits(moves: seq<Move>, host: nat, accel: nat) {
    forall m | m in moves && m.n > 0 :: m.h + m.n <= host && m.a + m.n <= accel
  }

  function MoveTo(host: seq<int>, accel: seq<int>, moves: seq<Move>): (r: seq<int>)
    requires Fits(moves, |host|, |accel|)
    ensures |r| == |accel|
  {
    if moves == [] then accel
    else
      var k := |moves| - 1;
      var m := moves[k];
      Spliced(MoveTo(host, accel, moves[..k]), m.a, host, m.h, m.n)
  }

  function MoveFrom(host: seq<int>, accel: seq<int>, moves: seq<Move>): (r: seq<int>)
    requires Fits(moves, |host|, |accel|)
    ensures |r| == |host|
  {
    if moves == [] then host
    else
      var k := |moves| - 1;
      var m := moves[k];
      Spliced(MoveFrom(host, accel, moves[..k]), m.h, accel, m.a, m.n)
  }

  lemma FitsConcat(ms: seq<Move>, ns: seq<Move>, host: nat, accel: nat)
    requires Fits(ms + ns, host, accel)
    ensures Fits(ms, host, accel) && Fits(ns, host, accel)
  {
    assert forall m | m in ms :: m in ms + ns;
    assert forall m | m in ns :: m in ms + ns;
  }

  lemma MoveToNext(host: seq<int>, accel: seq<int>, ms: seq<Move>, m: Move)
    requires Fits(ms + [m], |host|, |accel|)
    ensures Fits(ms, |host|, |accel|) && (m.n > 0 ==> m.h + m.n <= |host| && m.a + m.n <= |accel|)
    ensures MoveTo(host, accel, ms + [m]) == Spliced(MoveTo(host, accel, ms), m.a, host, m.h, m.n)
  {
    assert (ms + [m])[..|ms|] == ms && (ms + [m])[|ms|] == m;
    assert m in ms + [m] && forall l | l in ms :: l in ms + [m];
  }

  lemma {:induction false} MoveToConcat(host: seq<int>, accel: seq<int>, ms: seq<Move>, ns: seq<Move>)
    requires Fits(ms + ns, |host|, |accel|)
    ensures Fits(ms, |host|, |accel|) && Fits(ns, |host|, |accel|)
    ensures MoveTo(host, accel, ms + ns) == MoveTo(host, MoveTo(host, accel, ms), ns)
    decreases |ns|
  {
    hide MoveTo, Fits, Spliced;
    FitsConcat(ms, ns, |host|, |accel|);
    if ns == [] {
      assert ms + ns == ms;
      MoveToNone(host, MoveTo(host, accel, ms));
    } else {
      var k := |ns| - 1;
      assert ns == ns[..k] + [ns[k]] && ms + ns == (ms + ns[..k]) + [ns[k]];
      MoveToNext(host, accel, ms + ns[..k], ns[k]);
      MoveToConcat(host, accel, ms, ns[..k]);
      MoveToNext(host, MoveTo(host, accel, ms), ns[..k], ns[k]);
    }
  }

  lemma MoveFromNext(host: seq<int>, accel: seq<int>, ms: seq<Move>, m: Move)
    requires Fits(ms + [m], |host|, |accel|)
    ensures Fits(ms, |host|, |accel|) && (m.n > 0 ==> m.h + m.n <= |host| && m.a + m.n <= |accel|)
    ensures MoveFrom(host, accel, ms + [m]) == Spliced(MoveFrom(host, accel, ms), m.h, accel, m.a, m.n)
  {
    assert (ms + [m])[..|ms|] == ms && (ms + [m])[|ms|] == m;
    assert m in ms + [m] && forall l | l in ms :: l in ms + [m];
  }

  lemma {:induction false} MoveFromConcat(host: seq<int>, accel: seq<int>, ms: seq<Move>, ns: seq<Move>)
    requires Fits(ms + ns, |host|, |accel|)
    ensures Fits(ms, |host|, |accel|) && Fits(ns, |host|, |accel|)
    ensures MoveFrom(host, accel, ms + ns) == MoveFrom(MoveFrom(host, accel, ms), accel, ns)
    decreases |ns|
  {
    hide MoveFrom, Fits, Spliced;
    FitsConcat(ms, ns, |host|, |accel|);
    if ns == [] {
      assert ms + ns == ms;
      MoveFromNone(MoveFrom(host, accel, ms), accel);
    } else {
      var k := |ns| - 1;
      assert ns == ns[..k] + [ns[k]] && ms + ns == (ms + ns[..k]) + [ns[k]];
      MoveFromNext(host, accel, ms + ns[..k], ns[k]);
      MoveFromConcat(host, accel, ms, ns[..k]);
      MoveFromNext(MoveFrom(host, accel, ms), accel, ns[..k], ns[k]);
    }
  }

  lemma {:induction false} RowMovesPrefix(s: Strides, box: seq<Dim>, e: nat, h: nat, a: nat, i: nat, n: nat)
    requires |box| >= 2 && i <= n
    ensures RowMoves(s, box, e, h, a, i) <= RowMoves(s, box, e, h, a, n)
    decreases n
  {
    if i < n {
      RowMovesPrefix(s, box, e, h, a, i, n - 1);
    }
  }

  lemma FitsPrefix(ms: seq<Move>, ns: seq<Move>, host: nat, accel: nat)
    requires ms <= ns && Fits(ns, host, accel)
    ensures Fits(ms, host, accel)
  {
    assert forall m | m in ms :: m in ns;
  }

  lemma MoveToNone(host: seq<int>, accel: seq<int>)
    ensures Fits([], |host|, |accel|) && MoveTo(host, accel, []) == accel
  {
  }

  lemma MoveFromNone(host: seq<int>, accel: seq<int>)
    ensures Fits([], |host|, |accel|) && MoveFrom(host, accel, []) == host
  {
  }

  // ----- the copies -----

  /** P4A_copy_to_accel_1d to 4d, for any number of dimensions. */
  method CopyToAccel(s: Strides, box: seq<Dim>, e: nat, host: array<int>, h: nat, accel: array<int>, a: nat)
    requires |box| >= 1 && host != accel && Fits(Moves(s, box, e, h, a), host.Length, accel.Length)
    modifies accel
    ensures accel[..] == MoveTo(host[..], old(accel[..]), Moves(s, box, e, h, a))
    decreases |box|
  {
    var d := box[|box| - 1];
    if |box| == 1 {
      assert Moves(s, box, e, h, a)[..0] == [];
      assert Moves(s, box, e, h, a)[0] in Moves(s, box, e, h, a);
      MoveBytes(host, h + d.offset * e, accel, a, d.block * e);
    } else if d.size == d.block {
      CopyToAccel(s, MergeLast(box), e, host, h, accel, a);
    } else {
      var hostRow := h + box[0].offset * Extent(box[1..], e);
      CopyRowsToAccel(s, box, e, host, hostRow, accel, a);
    }
  }

  lemma NextRowTo(s: Strides, box: seq<Dim>, e: nat, host: seq<int>, h: nat, accel: seq<int>, a: nat, i: nat)
    requires |box| >= 2 && i < box[0].block && Fits(RowMoves(s, box, e, h, a, box[0].block), |host|, |accel|)
    ensures Fits(RowMoves(s, box, e, h, a, i), |host|, |accel|) && Fits(RowMoves(s, box, e, h, a, i + 1), |host|, |accel|)
    ensures var row := Moves(s, box[1..], e, RowStart(h, i, HostStride(s, box, e)), RowStart(a, i, AccelStride(s, box, e)));
            && Fits(row, |host|, |accel|)
            && MoveTo(host, accel, RowMoves(s, box, e, h, a, i + 1)) == MoveTo(host, MoveTo(host, accel, RowMoves(s, box, e, h, a, i)), row)
  {
    hide Moves, MoveTo, HostStride, AccelStride;
    RowMovesPrefix(s, box, e, h, a, i + 1, box[0].block);
    FitsPrefix(RowMoves(s, box, e, h, a, i + 1), RowMoves(s, box, e, h, a, box[0].block), |host|, |accel|);
    MoveToConcat(host, accel, RowMoves(s, box, e, h, a, i),
               Moves(s, box[1..], e, h + i * HostStride(s, box, e), a + i * AccelStride(s, box, e)));
  }

  method CopyRowsToAccel(s: Strides, box: seq<Dim>, e: nat, host: array<int>, h: nat, accel: array<int>, a: nat)
    requires |box| >= 2 && host != accel && Fits(RowMoves(s, box, e, h, a, box[0].block), host.Length, accel.Length)
    modifies accel
    ensures accel[..] == MoveTo(host[..], old(accel[..]), RowMoves(s, box, e, h, a, box[0].block))
    decreases |box|, 0
  {
    ghost var was, moves := accel[..], RowMoves(s, box, e, h, a, box[0].block);
    assert RowMoves(s, box, e, h, a, 0) == [];
    hide Moves, RowMoves, MoveTo, HostStride, AccelStride, Fits, RowStart;
    MoveToNone(host[..], was);
    var hostRow, accelRow := h, a;
    var hostStride, accelStride := HostStride(s, box, e), AccelStride(s, box, e);
    NextStart(h, 0, hostStride);
    NextStart(a, 0, accelStride);
    for i := 0 to box[0].block
      invariant hostRow == RowStart(h, i, hostStride) && accelRow == RowStart(a, i, accelStride)
      invariant Fits(RowMoves(s, box, e, h, a, i), host.Length, accel.Length)
      invariant accel[..] == MoveTo(host[..], was, RowMoves(s, box, e, h, a, i))
    {
      NextRowTo(s, box, e, host[..], h, was, a, i);
      CopyToAccel(s, box[1..], e, host, hostRow, accel, accelRow);
      NextStart(h, i, hostStride);
      NextStart(a, i, accelStride);
      hostRow := hostRow + hostStride;
      accelRow := accelRow + accelStride;
    }
  }

  /** P4A_copy_from_accel_1d to 4d, for any number of dimensions. */
  method CopyFromAccel(s: Strides, box: seq<Dim>, e: nat, host: array<int>, h: nat, accel: array<int>, a: nat)
    requires |box| >= 1 && host != accel && Fits(Moves(s, box, e, h, a), host.Length, accel.Length)
    modifies host
    ensures host[..] == MoveFrom(old(host[..]), accel[..], Moves(s, box, e, h, a))
    decreases |box|
  {
    var d := box[|box| - 1];
    if |box| == 1 {
      assert Moves(s, box, e, h, a)[..0] == [];
      assert Moves(s, box, e, h, a)[0] in Moves(s, box, e, h, a);
      MoveBytes(accel, a, host, h + d.offset * e, d.block * e);
    } else if d.size == d.block {
      CopyFromAccel(s, MergeLast(box), e, host, h, accel, a);
    } else {
      var hostRow := h + box[0].offset * Extent(box[1..], e);
      CopyRowsFromAccel(s, box, e, host, hostRow, accel, a);
    }
  }

  lemma NextRowFrom(s: Strides, box: seq<Dim>, e: nat, host: seq<int>, h: nat, accel: seq<int>, a: nat, i: nat)
    requires |box| >= 2 && i < box[0].block && Fits(RowMoves(s, box, e, h, a, box[0].block), |host|, |accel|)
    ensures Fits(RowMoves(s, box, e, h, a, i), |host|, |accel|) && Fits(RowMoves(s, box, e, h, a, i + 1), |host|, |accel|)
    ensures var row := Moves(s, box[1..], e, RowStart(h, i, HostStride(s, box, e)), RowStart(a, i, AccelStride(s, box, e)));
            && Fits(row, |host|, |accel|)
            && MoveFrom(host, accel, RowMoves(s, box, e, h, a, i + 1)) == MoveFrom(MoveFrom(host, accel, RowMoves(s, box, e, h, a, i)), accel, row)
  {
    hide Moves, MoveFrom, HostStride, AccelStride;
    RowMovesPrefix(s, box, e, h, a, i + 1, box[0].block);
    FitsPrefix(RowMoves(s, box, e, h, a, i + 1), RowMoves(s, box, e, h, a, box[0].block), |host|, |accel|);
    MoveFromConcat(host, accel, RowMoves(s, box, e, h, a, i),
               Moves(s, box[1..], e, h + i * HostStride(s, box, e), a + i * AccelStride(s, box, e)));
  }

  method CopyRowsFromAccel(s: Strides, box: seq<Dim>, e: nat, host: array<int>, h: nat, accel: array<int>, a: nat)
    requires |box| >= 2 && host != accel && Fits(RowMoves(s, box, e, h, a, box[0].block), host.Length, accel.Length)
    modifies host
    ensures host[..] == MoveFrom(old(host[..]), accel[..], RowMoves(s, box, e, h, a, box[0].block))
    decreases |box|, 0
  {
    ghost var was, moves := host[..], RowMoves(s, box, e, h, a, box[0].block);
    assert RowMoves(s, box, e, h, a, 0) == [];
    hide Moves, RowMoves, MoveFrom, HostStride, AccelStride, Fits, RowStart;
    MoveFromNone(was, accel[..]);
    var hostRow, accelRow := h, a;
    var hostStride, accelStride := HostStride(s, box, e), AccelStride(s, box, e);
    NextStart(h, 0, hostStride);
    NextStart(a, 0, accelStride);
    for i := 0 to box[0].block
      invariant hostRow == RowStart(h, i, hostStride) && accelRow == RowStart(a, i, accelStride)
      invariant Fits(RowMoves(s, box, e, h, a, i), host.Length, accel.Length)
      invariant host[..] == MoveFrom(was, accel[..], RowMoves(s, box, e, h, a, i))
    {
      NextRowFrom(s, box, e, was, h, accel[..], a, i);
      CopyFromAccel(s, box[1..], e, host, hostRow, accel, accelRow);
      NextStart(h, i, hostStride);
      NextStart(a, i, accelStride);
      hostRow := hostRow + hostStride;
      accelRow := accelRow + accelStride;
    }
  }
}
