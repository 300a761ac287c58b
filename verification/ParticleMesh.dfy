// The particle-mesh steps of Stars-PM on a grid of np cells a side: the cell of a particle, the
// histogram of cells, the density, and the velocity update. The three-dimensional arrays are
// held as C lays them out, one cell after the other.

module ParticleMesh {
  import opened Arithmetic
  import opened Sums

  /** The place of cell (x, y, z), as _discretization writes it. */
  function Cell(np: nat, x: nat, y: nat, z: nat): nat {
    x * np * np + y * np + z
  }

  function Cells(np: nat): nat {
    np * np * np
  }

  lemma CellInGrid(np: nat, x: nat, y: nat, z: nat)
    requires x < np && y < np && z < np
    ensures Cell(np, x, y, z) < Cells(np)
  {
    Below(y + 1, np, np);
    Distribute(y, 1, np);
    Below(x + 1, np, np * np);
    Distribute(x, 1, np * np);
    Associate(x, np, np);
    Associate(np, np, np);
  }

  /** Stepping through the cells in order: past the end of a row comes the next row, past the
      end of a plane the next plane. */
  lemma CellSteps(np: nat, x: nat, y: nat, z: nat)
    ensures Cell(np, x, y, z + 1) == Cell(np, x, y, z) + 1
    ensures Cell(np, x, y, np) == Cell(np, x, y + 1, 0)
    ensures Cell(np, x, np, 0) == Cell(np, x + 1, 0, 0)
    ensures Cell(np, 0, 0, 0) == 0 && Cell(np, np, 0, 0) == Cells(np)
  {
    Distribute(y, 1, np);
    Distribute(x, 1, np);
    Distribute(x * np, np, np);
  }

  // ----- decoding -----

  /** The coordinates that _updatevel and _histogram find for a cell, by rounding down quotients
      of floats. */
  function Decode(np: nat, d: nat): (c: (int, int, int))
    requires np > 0
  {
    var x := (d as real / (np * np) as real).Floor;
    var y := ((d - x * np * np) as real / np as real).Floor;
    var z := d - x * np * np - y * np;
    (x, y, z)
  }

  lemma CellParts(np: nat, x: nat, y: nat, z: nat)
    requires x < np && y < np && z < np
    ensures IsQuotient(Cell(np, x, y, z), np * np, x) && IsQuotient(y * np + z, np, y)
    ensures Cell(np, x, y, z) - x * np * np == y * np + z
  {
    Associate(x, np, np);
    Below(y + 1, np, np);
    Distribute(y, 1, np);
  }

  /** Decoding undoes the encoding of cells of the grid. */
  lemma DecodeCell(np: nat, x: nat, y: nat, z: nat)
    requires x < np && y < np && z < np
    ensures Decode(np, Cell(np, x, y, z)) == (x, y, z)
  {
    var d, r, n2 := Cell(np, x, y, z), y * np + z, np * np;
    CellParts(np, x, y, z);
    hide Cell, IsQuotient;
    RealQuotient(d, n2, x, d as real / n2 as real);
    RealQuotient(r, np, y, r as real / np as real);
  }

  lemma Digits(b: nat, v: nat, d: nat) returns (q: nat, r: nat)
    requires d < b * v
    ensures v > 0 && q < b && r < v && d == q * v + r
  {
    if v == 0 {
      assert false;
    }
    Quotient(d, v);
    q, r := d / v, d % v;
    QuotientLargest(d, v, q, b);
  }

  /** And encoding undoes the decoding. */
  lemma CellOfDecode(np: nat, d: nat)
    requires d < Cells(np)
    ensures np > 0
    ensures var (x, y, z) := Decode(np, d); 0 <= x < np && 0 <= y < np && 0 <= z < np && Cell(np, x, y, z) == d
  {
    Associate(np, np, np);
    var x, r := Digits(np, np * np, d);
    var y, z := Digits(np, np, r);
    Associate(x, np, np);
    hide Decode;
    DecodeCell(np, x, y, z);
  }

  // ----- the cell of a particle -----

  /** The coordinate lies in slice x of thickness dx. */
  ghost predicate InSlice(dx: real, x: int, p: real) {
    x as real * dx <= p < (x + 1) as real * dx
  }

  /** The number that rounding the quotient of p and dx towards zero gives. */
  ghost predicate IsSlice(dx: real, p: real, x: int) {
    if p >= 0.0 then x >= 0 && InSlice(dx, x, p) else x <= 0 && (x - 1) as real * dx < p <= x as real * dx
  }

  lemma SliceUnique(dx: real, p: real, x: int, y: int)
    requires dx > 0.0 && IsSlice(dx, p, x) && IsSlice(dx, p, y)
    ensures x == y
  {
    hide IsSlice;
    if x < y {
      SliceNotLater(dx, p, x, y);
    } else if y < x {
      SliceNotLater(dx, p, y, x);
    }
  }

  lemma SliceNotLater(dx: real, p: real, x: int, y: int)
    requires dx > 0.0 && x < y && IsSlice(dx, p, x)
    ensures !IsSlice(dx, p, y)
  {
    if p >= 0.0 {
      RealBelow((x + 1) as real, y as real, dx);
    } else {
      RealBelow(x as real, (y - 1) as real, dx);
    }
  }

  /** The slice that (int)(p / DX) finds. */
  function Slice(dx: real, p: real): (x: int)
    requires dx > 0.0
    ensures IsSlice(dx, p, x)
  {
    hide IsSlice;
    if p >= 0.0 then
      NearSlice(dx, p, p / dx);
      (p / dx).Floor
    else
      FarSlice(dx, p, -p / dx);
      -((-p / dx).Floor)
  }

  lemma NearSlice(dx: real, p: real, q: real)
    requires dx > 0.0 && p >= 0.0 && q == p / dx
    ensures IsSlice(dx, p, q.Floor)
  {
    SliceHolds(dx, p, q);
  }

  lemma FarSlice(dx: real, p: real, q: real)
    requires dx > 0.0 && p < 0.0 && q == -p / dx
    ensures IsSlice(dx, p, -q.Floor)
  {
    hide IsSlice;
    SliceHolds(dx, -p, q);
    MirrorSlice(dx, p, q.Floor);
  }

  lemma MirrorSlice(dx: real, p: real, n: int)
    requires dx > 0.0 && p < 0.0 && n >= 0 && InSlice(dx, n, -p)
    ensures IsSlice(dx, p, -n)
  {
    assert (-n) as real == -(n as real);
    assert (-n - 1) as real == -((n + 1) as real);
    MirrorBounds(dx, p, n as real, (n + 1) as real);
  }

  lemma MirrorBounds(dx: real, p: real, f: real, g: real)
    requires f * dx <= -p < g * dx
    ensures -g * dx < p <= -f * dx
  {
    assert -g * dx == -(g * dx) && -f * dx == -(f * dx);
  }

  lemma SliceHolds(dx: real, p: real, q: real)
    requires dx > 0.0 && p >= 0.0 && q == p / dx
    ensures q.Floor >= 0 && InSlice(dx, q.Floor, p)
  {
    QuotientNonnegative(dx, p, q);
    FloorHolds(dx, p, q, q.Floor as real, (q.Floor + 1) as real);
  }

  lemma QuotientNonnegative(dx: real, p: real, q: real)
    requires dx > 0.0 && p >= 0.0 && q == p / dx
    ensures q >= 0.0 && q * dx == p
  {
    assert q * dx == p;
    RealBelow(0.0, q, dx);
  }

  lemma FloorHolds(dx: real, p: real, q: real, f: real, g: real)
    requires dx > 0.0 && q * dx == p && f <= q < g
    ensures f * dx <= p < g * dx
  {
    RealBelow(f, q, dx);
    RealBelow(g, q, dx);
  }

  lemma SliceInBox(np: nat, dx: real, x: int, p: real)
    requires dx > 0.0 && InSlice(dx, x, p)
    ensures x < np <==> p < np as real * dx
  {
    if x < np {
      RealBelow((x + 1) as real, np as real, dx);
    } else {
      RealBelow(np as real, x as real, dx);
    }
  }

  /** The cell whose box holds the position. */
  ghost predicate InCell(np: nat, dx: real, pos: array2<real>, p: nat, d: int)
    requires pos.Length1 == 3 && p < pos.Length0
    reads pos
  {
    && 0 <= d < Cells(np) && np > 0
    && var (x, y, z) := Decode(np, d);
       InSlice(dx, x, pos[p, 0]) && InSlice(dx, y, pos[p, 1]) && InSlice(dx, z, pos[p, 2])
  }

  /** The particle is strictly inside the box, lower faces included. */
  ghost predicate InsideBox(np: nat, dx: real, pos: array2<real>, p: nat)
    requires pos.Length1 == 3 && p < pos.Length0
    reads pos
  {
    forall c | 0 <= c < 3 :: 0.0 <= pos[p, c] < np as real * dx
  }

  /** What _discretization writes for a position. */
  function Encoded(np: nat, dx: real, x: real, y: real, z: real): int
    requires dx > 0.0
  {
    Slice(dx, x) * np * np + Slice(dx, y) * np + Slice(dx, z)
  }

  /** d encodes three slices, one for each coordinate, as x * np * np + y * np + z. */
  ghost predicate Encodes(np: nat, dx: real, pos: array2<real>, p: nat, d: int)
    requires pos.Length1 == 3 && p < pos.Length0
    reads pos
  {
    exists x, y, z ::
      && IsSlice(dx, pos[p, 0], x) && IsSlice(dx, pos[p, 1], y) && IsSlice(dx, pos[p, 2], z)
      && d == x * np * np + y * np + z
  }

  lemma EncodesIff(np: nat, dx: real, pos: array2<real>, p: nat, d: int)
    requires dx > 0.0 && pos.Length1 == 3 && p < pos.Length0
    ensures Encodes(np, dx, pos, p, d) <==> d == Encoded(np, dx, pos[p, 0], pos[p, 1], pos[p, 2])
  {
    hide IsSlice;
    var a, b, c := Slice(dx, pos[p, 0]), Slice(dx, pos[p, 1]), Slice(dx, pos[p, 2]);
    if Encodes(np, dx, pos, p, d) {
      var x, y, z :| IsSlice(dx, pos[p, 0], x) && IsSlice(dx, pos[p, 1], y) && IsSlice(dx, pos[p, 2], z)
                     && d == x * np * np + y * np + z;
      SliceUnique(dx, pos[p, 0], x, a);
      SliceUnique(dx, pos[p, 1], y, b);
      SliceUnique(dx, pos[p, 2], z, c);
    }
  }

  ghost predicate IsEncoded(np: nat, dx: real, pos: array2<real>, p: nat, d: int)
    requires dx > 0.0 && pos.Length1 == 3 && p < pos.Length0
    reads pos
  {
    && Encodes(np, dx, pos, p, d)
    && (InCell(np, dx, pos, p, d) <==> InsideBox(np, dx, pos, p))
  }

  /** The number written is the cell that holds the particle exactly for particles inside. */
  lemma EncodedIsCellIff(np: nat, dx: real, pos: array2<real>, p: nat, d: int)
    requires dx > 0.0 && pos.Length1 == 3 && p < pos.Length0 && Encodes(np, dx, pos, p, d)
    ensures InCell(np, dx, pos, p, d) <==> InsideBox(np, dx, pos, p)
  {
    hide InCell, InsideBox, Encoded, Encodes;
    EncodesIff(np, dx, pos, p, d);
    if InsideBox(np, dx, pos, p) {
      EncodedIsCell(np, dx, pos, p, d);
    } else if InCell(np, dx, pos, p, d) {
      CellIsInside(np, dx, pos, p, d);
    }
  }

  lemma CellIsInside(np: nat, dx: real, pos: array2<real>, p: nat, d: int)
    requires dx > 0.0 && pos.Length1 == 3 && p < pos.Length0 && InCell(np, dx, pos, p, d)
    ensures InsideBox(np, dx, pos, p)
  {
    CellOfDecode(np, d);
    var (x, y, z) := Decode(np, d);
    hide Decode, Cells, InSlice;
    WithinSlice(np, dx, x, pos[p, 0]);
    WithinSlice(np, dx, y, pos[p, 1]);
    WithinSlice(np, dx, z, pos[p, 2]);
  }

  lemma WithinSlice(np: nat, dx: real, x: int, p: real)
    requires dx > 0.0 && 0 <= x < np && InSlice(dx, x, p)
    ensures 0.0 <= p < np as real * dx
  {
    SliceInBox(np, dx, x, p);
    RealBelow(0.0, x as real, dx);
  }

  lemma EncodedIsCell(np: nat, dx: real, pos: array2<real>, p: nat, d: int)
    requires dx > 0.0 && pos.Length1 == 3 && p < pos.Length0 && InsideBox(np, dx, pos, p)
    requires d == Encoded(np, dx, pos[p, 0], pos[p, 1], pos[p, 2])
    ensures InCell(np, dx, pos, p, d)
  {
    var x, y, z := Slice(dx, pos[p, 0]), Slice(dx, pos[p, 1]), Slice(dx, pos[p, 2]);
    assert d == Cell(np, x, y, z) && InSlice(dx, x, pos[p, 0]) && InSlice(dx, y, pos[p, 1]) && InSlice(dx, z, pos[p, 2]);
    hide Cell, Cells, Decode, InSlice, Slice, Encoded;
    SliceInBox(np, dx, x, pos[p, 0]);
    SliceInBox(np, dx, y, pos[p, 1]);
    SliceInBox(np, dx, z, pos[p, 2]);
    CellInGrid(np, x, y, z);
    DecodeCell(np, x, y, z);
  }

  /** Encodes the position of particle p. */
  method CellOfParticle(np: nat, dx: real, pos: array2<real>, p: nat) returns (d: int)
    requires dx > 0.0 && pos.Length1 == 3 && p < pos.Length0
    ensures IsEncoded(np, dx, pos, p, d)
  {
    hide InCell, InsideBox, Slice, IsSlice;
    var x, y, z := Slice(dx, pos[p, 0]), Slice(dx, pos[p, 1]), Slice(dx, pos[p, 2]);
    d := x * np * np + y * np + z;
    EncodedIsCellIff(np, dx, pos, p, d);
  }

  /** _discretization: every particle's position is encoded; the result is the cell whose box
      holds it exactly for the particles inside. */
  method Discretization(np: nat, dx: real, pos: array2<real>, data: array<int>)
    requires dx > 0.0 && pos.Length0 == data.Length == Cells(np) && pos.Length1 == 3
    modifies data
    ensures forall p | 0 <= p < data.Length :: IsEncoded(np, dx, pos, p, data[p])
  {
    hide Cell, Cells, IsEncoded;
    CellSteps(np, 0, 0, 0);
    for i := 0 to np
      invariant forall p | 0 <= p < Cell(np, i, 0, 0) && p < data.Length :: IsEncoded(np, dx, pos, p, data[p])
    {
      CellSteps(np, i, 0, 0);
      for j := 0 to np
        invariant forall p | 0 <= p < Cell(np, i, j, 0) && p < data.Length :: IsEncoded(np, dx, pos, p, data[p])
      {
        for k := 0 to np
          invariant forall p | 0 <= p < Cell(np, i, j, k) && p < data.Length :: IsEncoded(np, dx, pos, p, data[p])
        {
          CellSteps(np, i, j, k);
          CellInGrid(np, i, j, k);
          var d := CellOfParticle(np, dx, pos, Cell(np, i, j, k));
          data[Cell(np, i, j, k)] := d;
        }
        CellSteps(np, i, j, 0);
      }
    }
  }

  // ----- the histogram -----

  /** How many of the first n particles are in cell c. */
  function Count(data: seq<int>, n: nat, c: int): nat
    requires n <= |data|
  {
    if n == 0 then 0 else Count(data, n - 1, c) + if data[n - 1] == c then 1 else 0
  }

  ghost predicate InGrid(np: nat, data: seq<int>) {
    forall p | 0 <= p < |data| :: 0 <= data[p] < Cells(np)
  }

  ghost predicate Counted(data: seq<int>, n: nat, histo: seq<int>)
    requires n <= |data|
  {
    forall c | 0 <= c < |histo| :: histo[c] == Count(data, n, c)
  }

  lemma CountedNext(data: seq<int>, n: nat, histo: seq<int>)
    requires n < |data| && 0 <= data[n] < |histo| && Counted(data, n, histo)
    ensures Counted(data, n + 1, histo[data[n] := histo[data[n]] + 1])
  {
  }

  /** _histogram with casts: memset, then one loop over the particles. */
  method HistogramFlat(np: nat, data: array<int>, histo: array<int>)
    requires data != histo && data.Length == histo.Length == Cells(np) && InGrid(np, data[..])
    modifies histo
    ensures Counted(data[..], data.Length, histo[..])
  {
    forall c | 0 <= c < histo.Length {
      histo[c] := 0;
    }
    for i := 0 to data.Length
      invariant Counted(data[..], i, histo[..])
    {
      CountedNext(data[..], i, histo[..]);
      ghost var next := histo[..][data[i] := histo[data[i]] + 1];
      histo[data[i]] := histo[data[i]] + 1;
      assert histo[..] == next;
    }
  }

  /** Counts particle p in its decoded cell. */
  method CountParticle(np: nat, data: array<int>, histo: array<int>, p: nat)
    requires data != histo && data.Length == histo.Length == Cells(np) && InGrid(np, data[..])
    requires p < data.Length && Counted(data[..], p, histo[..])
    modifies histo
    ensures Counted(data[..], p + 1, histo[..])
  {
    hide Cell, Decode, Counted, Cells;
    assert 0 <= data[..][p] < Cells(np);
    CellOfDecode(np, data[p]);
    var (x, y, z) := Decode(np, data[p]);
    CountedNext(data[..], p, histo[..]);
    ghost var next := histo[..][data[p] := histo[data[p]] + 1];
    histo[Cell(np, x, y, z)] := histo[Cell(np, x, y, z)] + 1;
    assert histo[..] == next;
  }

  /** The zeroing loops: over i, then k, then j. */
  method ZeroNested(np: nat, histo: array<int>)
    requires histo.Length == Cells(np)
    modifies histo
    ensures forall c | 0 <= c < histo.Length :: histo[c] == 0
  {
    hide Cell, Cells;
    CellSteps(np, 0, 0, 0);
    for i := 0 to np
      invariant forall c | 0 <= c < Cell(np, i, 0, 0) && c < histo.Length :: histo[c] == 0
    {
      for k := 0 to np
        invariant forall c | 0 <= c < Cell(np, i, 0, 0) && c < histo.Length :: histo[c] == 0
        invariant forall y, z | 0 <= y < np && 0 <= z < k && Cell(np, i, y, z) < histo.Length :: histo[Cell(np, i, y, z)] == 0
      {
        for j := 0 to np
          invariant forall c | 0 <= c < Cell(np, i, 0, 0) && c < histo.Length :: histo[c] == 0
          invariant forall y, z | 0 <= y < np && 0 <= z < k && Cell(np, i, y, z) < histo.Length :: histo[Cell(np, i, y, z)] == 0
          invariant forall y | 0 <= y < j && Cell(np, i, y, k) < histo.Length :: histo[Cell(np, i, y, k)] == 0
        {
          CellInGrid(np, i, j, k);
          histo[Cell(np, i, j, k)] := 0;
        }
      }
      forall c | Cell(np, i, 0, 0) <= c < Cell(np, i + 1, 0, 0) && c < histo.Length
        ensures histo[c] == 0
      {
        var y, z := InPlane(np, i, c);
      }
    }
  }

  /** The cells of a plane. */
  lemma InPlane(np: nat, x: nat, c: nat) returns (y: nat, z: nat)
    requires Cell(np, x, 0, 0) <= c < Cell(np, x + 1, 0, 0)
    ensures y < np && z < np && c == Cell(np, x, y, z)
  {
    Distribute(x, 1, np);
    Distribute(x * np, np, np);
    y, z := Digits(np, np, c - x * np * np);
  }

  /** _histogram without casts: nested loops, each particle's cell decoded. */
  method HistogramNested(np: nat, data: array<int>, histo: array<int>)
    requires data != histo && data.Length == histo.Length == Cells(np) && InGrid(np, data[..])
    modifies histo
    ensures Counted(data[..], data.Length, histo[..])
  {
    hide Cell, Cells, InGrid;
    ZeroNested(np, histo);
    CellSteps(np, 0, 0, 0);
    assert Counted(data[..], 0, histo[..]);
    hide Counted;
    for i := 0 to np
      invariant Cell(np, i, 0, 0) <= data.Length && Counted(data[..], Cell(np, i, 0, 0), histo[..])
    {
      CellSteps(np, i, 0, 0);
      for j := 0 to np
        invariant Cell(np, i, j, 0) <= data.Length && Counted(data[..], Cell(np, i, j, 0), histo[..])
      {
        for k := 0 to np
          invariant Cell(np, i, j, k) <= data.Length && Counted(data[..], Cell(np, i, j, k), histo[..])
        {
          CellSteps(np, i, j, k);
          CellInGrid(np, i, j, k);
          CountParticle(np, data, histo, Cell(np, i, j, k));
        }
        CellSteps(np, i, j, 0);
      }
    }
  }

  // ----- density and velocities -----

  /** int2float: the density is the number of particles less one. */
  method Int2Float(np: nat, v1: array<int>, v2: array<real>)
    requires v1.Length == v2.Length == Cells(np)
    modifies v2
    ensures forall c | 0 <= c < v2.Length :: v2[c] == v1[c] as real - 1.0
  {
    hide Cell, Cells;
    CellSteps(np, 0, 0, 0);
    for i := 0 to np
      invariant forall c | 0 <= c < Cell(np, i, 0, 0) && c < v2.Length :: v2[c] == v1[c] as real - 1.0
    {
      CellSteps(np, i, 0, 0);
      for j := 0 to np
        invariant forall c | 0 <= c < Cell(np, i, j, 0) && c < v2.Length :: v2[c] == v1[c] as real - 1.0
      {
        for k := 0 to np
          invariant forall c | 0 <= c < Cell(np, i, j, k) && c < v2.Length :: v2[c] == v1[c] as real - 1.0
        {
          CellSteps(np, i, j, k);
          CellInGrid(np, i, j, k);
          v2[Cell(np, i, j, k)] := (v1[Cell(np, i, j, k)] - 1) as real;
        }
        CellSteps(np, i, j, 0);
      }
    }
  }

  /** The first n particles have their velocity along c raised by the force in their cell; no
      other velocity has changed. */
  ghost predicate Updated(was: Matrix, now: Matrix, force: seq<real>, data: seq<int>, c: int, dt: real, n: nat)
    requires n <= |data| && forall p | 0 <= p < |data| :: 0 <= data[p] < |force|
  {
    forall p, a | 0 <= p < |data| && 0 <= a < 3 ::
      now(p, a) == was(p, a) + if p < n && a == c then force[data[p]] * dt else 0.0
  }

  /** The body of _updatevel for particle p. */
  method UpdateParticle(np: nat, vel: array2<real>, force: array<real>, data: array<int>, c: nat, dt: real, p: nat,
                        ghost was: Matrix)
    requires force.Length == data.Length == vel.Length0 == Cells(np) && vel.Length1 == 3 && c < 3
    requires InGrid(np, data[..]) && p < data.Length
    requires Updated(was, Entries(vel), force[..], data[..], c, dt, p)
    modifies vel
    ensures Updated(was, Entries(vel), force[..], data[..], c, dt, p + 1)
  {
    hide Cell, Decode, Cells;
    assert 0 <= data[..][p] < Cells(np);
    CellOfDecode(np, data[p]);
    var (x, y, z) := Decode(np, data[p]);
    vel[p, c] := vel[p, c] + force[Cell(np, x, y, z)] * dt;
  }

  /** _updatevel: every particle gathers the force of its cell. */
  method UpdateVelocity(np: nat, vel: array2<real>, force: array<real>, data: array<int>, c: nat, dt: real)
    requires force.Length == data.Length == vel.Length0 == Cells(np) && vel.Length1 == 3 && c < 3
    requires InGrid(np, data[..])
    modifies vel
    ensures Updated(old(Entries(vel)), Entries(vel), force[..], data[..], c, dt, data.Length)
  {
    ghost var was := Entries(vel);
    hide Cell, Cells, Entries;
    CellSteps(np, 0, 0, 0);
    assert Updated(was, Entries(vel), force[..], data[..], c, dt, 0);
    hide Updated;
    for i := 0 to np
      invariant Cell(np, i, 0, 0) <= data.Length
      invariant Updated(was, Entries(vel), force[..], data[..], c, dt, Cell(np, i, 0, 0))
    {
      CellSteps(np, i, 0, 0);
      for j := 0 to np
        invariant Cell(np, i, j, 0) <= data.Length
        invariant Updated(was, Entries(vel), force[..], data[..], c, dt, Cell(np, i, j, 0))
      {
        for k := 0 to np
          invariant Cell(np, i, j, k) <= data.Length
          invariant Updated(was, Entries(vel), force[..], data[..], c, dt, Cell(np, i, j, k))
        {
          CellSteps(np, i, j, k);
          CellInGrid(np, i, j, k);
          UpdateParticle(np, vel, force, data, c, dt, Cell(np, i, j, k), was);
        }
        CellSteps(np, i, j, 0);
      }
    }
  }

  // ----- conservation -----

  /** What cell c contributes when each of its particles counts g(c). */
  function Scattered(data: seq<int>, n: nat, g: Vec): Vec
    requires n <= |data|
  {
    (c: int) => Count(data, n, c) as real * g(c)
  }

  function Gathered(data: seq<int>, g: Vec): Vec {
    (p: int) => if 0 <= p < |data| then g(data[p]) else 0.0
  }

  lemma ScatteredNone(data: seq<int>, m: nat, g: Vec)
    ensures Sum(m, Scattered(data, 0, g)) == 0.0
  {
    forall c | 0 <= c < m ensures Scattered(data, 0, g)(c) == 0.0 {
      ZeroTimes(g(c));
    }
    SumTail(0, m, Scattered(data, 0, g));
  }

  lemma ScatteredNext(data: seq<int>, n: nat, m: nat, g: Vec)
    requires 0 < n <= |data| && 0 <= data[n - 1] < m
    ensures Sum(m, Scattered(data, n, g)) == Sum(m, Scattered(data, n - 1, g)) + g(data[n - 1])
  {
    var d := data[n - 1];
    var one: Vec := (c: int) => if c == d then g(c) else 0.0;
    forall c | 0 <= c < m
      ensures Scattered(data, n, g)(c) == Scattered(data, n - 1, g)(c) + one(c)
    {
      OneMore(Count(data, n - 1, c), g(c));
    }
    hide Sum, Scattered, Count;
    SumSingle(m, d, one);
    SumAdd(m, Scattered(data, n - 1, g), one, Scattered(data, n, g));
  }

  /** Summing over the particles what they gather from their cells is summing over the cells
      what they give to their particles. */
  lemma {:induction false} GatherIsScatter(data: seq<int>, n: nat, m: nat, g: Vec)
    requires n <= |data| && forall p | 0 <= p < |data| :: 0 <= data[p] < m
    ensures Sum(n, Gathered(data, g)) == Sum(m, Scattered(data, n, g))
  {
    hide Scattered, Count;
    if n == 0 {
      ScatteredNone(data, m, g);
    } else {
      GatherIsScatter(data, n - 1, m, g);
      ScatteredNext(data, n, m, g);
    }
  }

  lemma OneMore(k: nat, v: real)
    ensures (k + 1) as real * v == k as real * v + v
  {
  }

  function AsReals(s: seq<int>): Vec {
    (c: int) => if 0 <= c < |s| then s[c] as real else 0.0
  }

  lemma {:induction false} SumConstant(n: nat, f: Vec, v: real)
    requires forall k | 0 <= k < n :: f(k) == v
    ensures Sum(n, f) == n as real * v
  {
    if n > 0 {
      SumConstant(n - 1, f, v);
      assert n as real * v == (n - 1) as real * v + v;
    }
  }

  /** The histogram counts every particle once. */
  lemma HistogramTotal(data: seq<int>, histo: seq<int>)
    requires Counted(data, |data|, histo) && forall p | 0 <= p < |data| :: 0 <= data[p] < |histo|
    ensures Sum(|histo|, AsReals(histo)) == |data| as real
  {
    var one: Vec := (c: int) => 1.0;
    GatherIsScatter(data, |data|, |histo|, one);
    SumConstant(|data|, Gathered(data, one), 1.0);
    SumCong(|histo|, AsReals(histo), Scattered(data, |data|, one));
  }

  /** With one particle for each cell on average, the density sums to zero. */
  lemma DensityTotal(data: seq<int>, histo: seq<int>, density: seq<real>)
    requires Counted(data, |data|, histo) && forall p | 0 <= p < |data| :: 0 <= data[p] < |histo|
    requires |data| == |histo| == |density| && forall c | 0 <= c < |density| :: density[c] == histo[c] as real - 1.0
    ensures Sum(|density|, Values(density)) == 0.0
  {
    var one: Vec := (c: int) => -1.0;
    HistogramTotal(data, histo);
    SumConstant(|density|, one, -1.0);
    SumAdd(|density|, AsReals(histo), one, Values(density));
  }

  function Change(was: Matrix, now: Matrix, c: int): Vec {
    (p: int) => now(p, c) - was(p, c)
  }

  function Values(s: seq<real>): Vec {
    (c: int) => if 0 <= c < |s| then s[c] else 0.0
  }

  /** The force on all the particles of a cell. */
  function ForceOn(histo: seq<int>, force: seq<real>): Vec {
    (d: int) => if 0 <= d < |histo| && d < |force| then histo[d] as real * force[d] else 0.0
  }

  lemma ForceIsScattered(data: seq<int>, histo: seq<int>, force: seq<real>, d: int)
    requires |histo| == |force| && Counted(data, |data|, histo) && 0 <= d < |force|
    ensures ForceOn(histo, force)(d) == Scattered(data, |data|, Values(force))(d)
  {
    var n := Count(data, |data|, d);
    assert histo[d] == n;
    hide Count, Counted;
    Substitute(histo[d] as real, n as real, force[d]);
  }

  lemma Commute(p: real, q: real)
    ensures p * q == q * p
  {
  }

  lemma ChangeAt(was: Matrix, now: Matrix, force: seq<real>, data: seq<int>, c: int, dt: real, p: int)
    requires 0 <= c < 3 && 0 <= p < |data| && 0 <= data[p] < |force|
    requires forall k | 0 <= k < |data| :: 0 <= data[k] < |force|
    requires Updated(was, now, force, data, c, dt, |data|)
    ensures Change(was, now, c)(p) == dt * Gathered(data, Values(force))(p)
  {
    assert now(p, c) == was(p, c) + force[data[p]] * dt;
    assert Gathered(data, Values(force))(p) == force[data[p]];
    Commute(force[data[p]], dt);
  }

  lemma VelocityScaled(was: Matrix, now: Matrix, force: seq<real>, data: seq<int>, c: int, dt: real)
    requires 0 <= c < 3 && forall p | 0 <= p < |data| :: 0 <= data[p] < |force|
    requires Updated(was, now, force, data, c, dt, |data|)
    ensures Sum(|data|, Change(was, now, c)) == dt * Sum(|data|, Gathered(data, Values(force)))
  {
    hide Sum, Updated, Change, Gathered, Values;
    forall p | 0 <= p < |data| ensures Change(was, now, c)(p) == dt * Gathered(data, Values(force))(p) {
      ChangeAt(was, now, force, data, c, dt, p);
    }
    SumScale(|data|, dt, Gathered(data, Values(force)), Change(was, now, c));
  }

  /** The velocities change in all by dt times the sum over the cells of particles and force. */
  lemma VelocityTotal(was: Matrix, now: Matrix, force: seq<real>, data: seq<int>, c: int, dt: real, histo: seq<int>)
    requires 0 <= c < 3 && |histo| == |force| && forall p | 0 <= p < |data| :: 0 <= data[p] < |force|
    requires Updated(was, now, force, data, c, dt, |data|) && Counted(data, |data|, histo)
    ensures Sum(|data|, Change(was, now, c)) == dt * Sum(|force|, ForceOn(histo, force))
  {
    hide Sum, Updated, Counted, Scattered, ForceOn, Values, Change, Gathered;
    VelocityScaled(was, now, force, data, c, dt);
    GatherIsScatter(data, |data|, |force|, Values(force));
    forall d | 0 <= d < |force| ensures ForceOn(histo, force)(d) == Scattered(data, |data|, Values(force))(d) {
      ForceIsScattered(data, histo, force, d);
    }
    SumCong(|force|, ForceOn(histo, force), Scattered(data, |data|, Values(force)));
  }
}
