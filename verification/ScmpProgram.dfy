// The program that every SCMP task clone runs, as calls on buffers that go through rounds of
// allocation, copy and release. A buffer gets a new allocation, its next generation, when it
// is allocated with another size than the one recorded.

module ScmpProgram {
  import opened Scmp

  datatype Kind = Malloc | Copy | Free

  /** The size counts in an allocation; copies and releases are of the size allocated. */
  datatype Call = Call(kind: Kind, buffer: nat, size: nat)

  /** The kind of the call on a buffer that comes after n others on it. */
  function KindAt(n: nat): Kind {
    if n % 3 == 0 then Malloc else if n % 3 == 1 then Copy else Free
  }

  function One(p: bool): nat { if p then 1 else 0 }

  /** The calls, the number of tasks, and for each buffer its two tasks. */
  datatype System = System(calls: seq<Call>, tasks: nat, producer: seq<nat>, consumer: seq<nat>, pageSize: nat) {

    /** The number of calls on buffer b among the first p. */
    function Count(b: nat, p: nat): nat
      requires p <= |calls|
    {
      if p == 0 then 0 else Count(b, p - 1) + One(calls[p - 1].buffer == b)
    }

    /** The size recorded for buffer b after the first p calls, zero before any allocation. */
    function Recorded(b: nat, p: nat): nat
      requires p <= |calls|
    {
      if p == 0 then 0
      else if calls[p - 1].buffer == b && calls[p - 1].kind == Malloc then calls[p - 1].size
      else Recorded(b, p - 1)
    }

    /** Call p makes a new allocation. */
    predicate Opens(p: nat)
      requires p < |calls|
    {
      calls[p].kind == Malloc && Recorded(calls[p].buffer, p) != calls[p].size
    }

    /** The generation of buffer b after the first p calls: how often it has been allocated. */
    function Allocs(b: nat, p: nat): nat
      requires p <= |calls|
    {
      if p == 0 then 0 else Allocs(b, p - 1) + One(calls[p - 1].buffer == b && Opens(p - 1))
    }

    /** The generation that call p is about. */
    function Gen(p: nat): nat
      requires p < |calls|
    {
      Allocs(calls[p].buffer, p) + One(Opens(p))
    }

    predicate IsOn(p: nat, b: nat, g: nat)
      requires p < |calls|
    {
      calls[p].buffer == b && Gen(p) == g
    }

    /** The number of calls on generation g of buffer b among the first p. */
    function CountIn(b: nat, g: nat, p: nat): nat
      requires p <= |calls|
    {
      if p == 0 then 0 else CountIn(b, g, p - 1) + One(IsOn(p - 1, b, g))
    }

    /** The size of generation g, as the first p calls have it. */
    function GenSize(b: nat, g: nat, p: nat): nat
      requires p <= |calls|
    {
      if p == 0 then 0
      else if IsOn(p - 1, b, g) && Opens(p - 1) then calls[p - 1].size
      else GenSize(b, g, p - 1)
    }

    /** The number of pages of a generation. */
    function Pages(b: nat, g: nat): nat
      requires pageSize > 0
    {
      PageCount(GenSize(b, g, |calls|), pageSize)
    }

    /** Call p allocates a buffer that has an allocation already. */
    predicate Replaces(p: nat)
      requires p < |calls|
    {
      Opens(p) && Allocs(calls[p].buffer, p) > 0
    }

    /** The generation in use after the first p calls, zero between two rounds. */
    function InUse(b: nat, p: nat): nat
      requires p <= |calls|
    {
      if Count(b, p) % 3 == 0 then 0 else Allocs(b, p)
    }

    /** It has replaced another one, and this is its first round. */
    predicate Fresh(b: nat, p: nat)
      requires p <= |calls|
    {
      Allocs(b, p) > 1 && CountIn(b, Allocs(b, p), p) < 3
    }

    /** The rounds of each buffer are in order, and their sizes are positive. */
    ghost predicate IsNext(p: nat)
      requires p < |calls|
    {
      && calls[p].buffer < |producer|
      && calls[p].kind == KindAt(Count(calls[p].buffer, p))
      && (calls[p].kind == Malloc ==> calls[p].size > 0)
    }

    /** Each buffer passes between two different tasks. */
    ghost predicate HasTasks(b: nat)
      requires b < |producer| && b < |consumer|
    {
      producer[b] < tasks && consumer[b] < tasks && producer[b] != consumer[b]
    }

    ghost predicate Valid() {
      && pageSize > 0
      && |producer| == |consumer|
      && (forall b: nat | b < |producer| :: HasTasks(b))
      && (forall p: nat | p < |calls| :: IsNext(p))
    }
  }

  // ----- rounds -----

  /** Of n calls on one generation, how many are allocations, copies and releases. */
  function Mallocs(n: nat): nat { (n + 2) / 3 }

  function Copies(n: nat): nat { (n + 1) / 3 }

  function Frees(n: nat): nat { n / 3 }

  /** The next call after n others: what it adds, and how the three counts stand before it. */
  lemma RoundCounts(n: nat, kind: Kind)
    requires kind == KindAt(n)
    ensures Mallocs(n + 1) == Mallocs(n) + One(kind == Malloc)
    ensures Copies(n + 1) == Copies(n) + One(kind == Copy)
    ensures Frees(n + 1) == Frees(n) + One(kind == Free)
    ensures Mallocs(n) == Copies(n) + One(kind == Copy)
    ensures Copies(n) == Frees(n) + One(kind == Free)
  {
  }

  lemma RoundOrder(n: nat)
    ensures Frees(n) <= Copies(n) <= Mallocs(n) <= Frees(n) + 1
  {
  }

  /** Whole rounds. */
  lemma RoundsWhole(n: nat)
    requires n % 3 == 0
    ensures Mallocs(n) == Copies(n) == Frees(n) && KindAt(n) == Malloc
    ensures Mallocs(0) == Copies(0) == Frees(0) == 0
  {
  }

  lemma CountsMonotone(m: nat, n: nat)
    requires m <= n
    ensures Mallocs(m) <= Mallocs(n) && Copies(m) <= Copies(n) && Frees(m) <= Frees(n)
  {
  }

  // ----- generations -----

  /** What one call adds to the counts of buffer b and of its generation g. */
  lemma NextCall(x: System, b: nat, g: nat, p: nat)
    requires p < |x.calls|
    ensures var on, c := x.calls[p].buffer == b, x.calls[p];
            && x.Count(b, p + 1) == x.Count(b, p) + One(on)
            && x.Recorded(b, p + 1) == (if on && c.kind == Malloc then c.size else x.Recorded(b, p))
            && x.Allocs(b, p + 1) == x.Allocs(b, p) + One(on && x.Opens(p))
            && x.CountIn(b, g, p + 1) == x.CountIn(b, g, p) + One(x.IsOn(p, b, g))
            && (on && x.Opens(p) ==> c.kind == Malloc)
            && (on && !x.Opens(p) && c.kind == Malloc ==> c.size == x.Recorded(b, p))
            && (on && x.Recorded(b, p) == 0 && c.kind == Malloc && c.size > 0 ==> x.Opens(p))
            && (x.IsOn(p, b, g) <==> on && x.Allocs(b, p) + One(x.Opens(p)) == g)
  {
  }

  lemma CallValid(x: System, p: nat)
    requires x.Valid() && p < |x.calls|
    ensures var c := x.calls[p];
            && x.pageSize > 0 && c.buffer < |x.producer| == |x.consumer| && x.producer[c.buffer] != x.consumer[c.buffer]
            && c.kind == KindAt(x.Count(c.buffer, p))
            && (c.kind == Malloc ==> c.size > 0)
  {
    assert x.IsNext(p);
    assert x.HasTasks(x.calls[p].buffer);
  }

  lemma OpensIff(x: System, p: nat)
    requires p < |x.calls|
    ensures x.Opens(p) <==> x.calls[p].kind == Malloc && x.Recorded(x.calls[p].buffer, p) != x.calls[p].size
  {
  }

  /** A generation has no calls before it begins. */
  lemma {:induction false} LaterAreNone(x: System, b: nat, h: nat, p: nat)
    requires p <= |x.calls| && x.Allocs(b, p) < h
    ensures x.CountIn(b, h, p) == 0
  {
    if p > 0 {
      NextCall(x, b, h, p - 1);
      hide System.Allocs, System.IsOn, System.Opens;
      LaterAreNone(x, b, h, p - 1);
    }
  }

  /** Where buffer b stands after p calls: it has a size once it has an allocation, and the
      current generation is in step with the rounds. */
  ghost predicate InStep(x: System, b: nat, p: nat)
    requires p <= |x.calls|
  {
    var g := x.Allocs(b, p);
    && (g == 0 <==> x.Recorded(b, p) == 0)
    && (g == 0 ==> x.Count(b, p) == 0)
    && (g > 0 ==> x.CountIn(b, g, p) > 0 && x.CountIn(b, g, p) % 3 == x.Count(b, p) % 3)
  }

  /** The same for plain numbers: generation, size, calls, and calls on the generation. */
  lemma InStepNext(g: nat, size: nat, c: nat, n: nat, kind: Kind, asked: nat, opens: bool)
    requires (g == 0 <==> size == 0) && (g == 0 ==> c == 0) && (g > 0 ==> n > 0 && n % 3 == c % 3)
    requires kind == KindAt(c) && (kind == Malloc ==> asked > 0) && (opens <==> kind == Malloc && size != asked)
    ensures g == 0 ==> opens
    ensures opens ==> (c + 1) % 3 == 1
    ensures kind == Malloc && !opens ==> size == asked
    ensures !opens ==> (n + 1) % 3 == (c + 1) % 3
  {
  }

  lemma OtherCallInStep(x: System, b: nat, p: nat)
    requires p < |x.calls| && InStep(x, b, p) && x.calls[p].buffer != b
    ensures InStep(x, b, p + 1)
  {
    hide System.Allocs, System.IsOn, System.Opens, System.CountIn, System.Recorded, System.Count;
    NextCall(x, b, x.Allocs(b, p), p);
  }

  lemma OwnCallInStep(x: System, b: nat, p: nat)
    requires x.Valid() && p < |x.calls| && InStep(x, b, p) && x.calls[p].buffer == b
    ensures InStep(x, b, p + 1)
  {
    hide System.Valid, System.Allocs, System.IsOn, System.Opens, System.CountIn, System.Recorded, System.Count;
    var g, c := x.Allocs(b, p), x.calls[p];
    CallValid(x, p);
    OpensIff(x, p);
    InStepNext(g, x.Recorded(b, p), x.Count(b, p), x.CountIn(b, g, p), c.kind, c.size, x.Opens(p));
    if x.Opens(p) {
      NextCall(x, b, g + 1, p);
      LaterAreNone(x, b, g + 1, p);
    } else {
      NextCall(x, b, g, p);
    }
  }

  lemma {:induction false} StaysInStep(x: System, b: nat, p: nat)
    requires x.Valid() && p <= |x.calls|
    ensures InStep(x, b, p)
  {
    if p > 0 {
      hide System.Valid, InStep;
      StaysInStep(x, b, p - 1);
      if x.calls[p - 1].buffer == b {
        OwnCallInStep(x, b, p - 1);
      } else {
        OtherCallInStep(x, b, p - 1);
      }
    }
  }

  /** Earlier generations have had whole rounds. */
  lemma {:induction false} EarlierAreWhole(x: System, b: nat, h: nat, p: nat)
    requires x.Valid() && p <= |x.calls| && 0 < h < x.Allocs(b, p)
    ensures x.CountIn(b, h, p) > 0 && x.CountIn(b, h, p) % 3 == 0
  {
    if p > 0 {
      hide System.Valid, System.Allocs, System.IsOn, System.Opens, System.CountIn, System.Recorded, System.Count;
      var q := p - 1;
      CallValid(x, q);
      NextCall(x, b, h, q);
      StaysInStep(x, b, q);
      if h < x.Allocs(b, q) {
        EarlierAreWhole(x, b, h, q);
      }
    }
  }

  lemma {:induction false} AllocsGrow(x: System, b: nat, p: nat, q: nat)
    requires p <= q <= |x.calls|
    ensures x.Allocs(b, p) <= x.Allocs(b, q)
    decreases q
  {
    if p < q {
      AllocsGrow(x, b, p, q - 1);
    }
  }

  lemma {:induction false} CountInGrows(x: System, b: nat, g: nat, p: nat, q: nat)
    requires p <= q <= |x.calls|
    ensures x.CountIn(b, g, p) <= x.CountIn(b, g, q)
    ensures x.Allocs(b, p) > g ==> x.CountIn(b, g, p) == x.CountIn(b, g, q)
    decreases q
  {
    if p < q {
      CountInGrows(x, b, g, p, q - 1);
      AllocsGrow(x, b, p, q - 1);
    }
  }

  // ----- sizes -----

  lemma {:induction false} SizeStays(x: System, b: nat, g: nat, p: nat, q: nat)
    requires p <= q <= |x.calls| && g <= x.Allocs(b, p)
    ensures x.GenSize(b, g, q) == x.GenSize(b, g, p)
    decreases q
  {
    if p < q {
      SizeStays(x, b, g, p, q - 1);
      AllocsGrow(x, b, p, q - 1);
    }
  }

  lemma {:induction false} SizeIsRecorded(x: System, b: nat, p: nat)
    requires p <= |x.calls| && x.Allocs(b, p) > 0
    ensures x.GenSize(b, x.Allocs(b, p), p) == x.Recorded(b, p)
  {
    if p > 0 && x.Allocs(b, p - 1) > 0 {
      SizeIsRecorded(x, b, p - 1);
    }
  }

  /** The recorded size is that of the current generation, in the whole program. */
  lemma RecordedPages(x: System, b: nat, p: nat)
    requires p <= |x.calls| && x.Allocs(b, p) > 0 && x.pageSize > 0
    ensures x.Pages(b, x.Allocs(b, p)) == PageCount(x.Recorded(b, p), x.pageSize)
  {
    hide System.GenSize, System.Recorded, System.Allocs;
    SizeIsRecorded(x, b, p);
    SizeStays(x, b, x.Allocs(b, p), p, |x.calls|);
  }

  lemma SomePage(x: System, b: nat, g: nat)
    requires x.pageSize > 0
    ensures x.Pages(b, g) > 0
  {
    hide System.GenSize;
  }

  lemma CallGen(x: System, p: nat)
    requires x.Valid() && p < |x.calls|
    ensures x.Gen(p) > 0 && x.Allocs(x.calls[p].buffer, p + 1) == x.Gen(p)
  {
    hide System.Valid, System.Allocs, System.IsOn, System.Opens, System.Recorded, System.Count;
    KindInStep(x, x.calls[p].buffer, p);
    NextCall(x, x.calls[p].buffer, 0, p);
  }

  /** A call is of the size of its generation. */
  lemma CallPages(x: System, b: nat, g: nat, p: nat)
    requires x.Valid() && p < |x.calls| && b == x.calls[p].buffer && g == x.Gen(p)
    ensures x.pageSize > 0
    ensures x.calls[p].kind == Malloc ==> x.Pages(b, g) == PageCount(x.calls[p].size, x.pageSize)
    ensures !x.Opens(p) ==> x.Pages(b, g) == PageCount(x.Recorded(b, p), x.pageSize)
  {
    hide System.Valid, System.Allocs, System.IsOn, System.Opens, System.Recorded, PageCount, System.Pages, System.Gen;
    CallValid(x, p);
    CallGen(x, p);
    NextCall(x, b, 0, p);
    RecordedPages(x, b, p + 1);
  }

  lemma KindInStep(x: System, b: nat, p: nat)
    requires x.Valid() && p < |x.calls| && x.calls[p].buffer == b
    ensures var m := x.Allocs(b, p);
            && (m == 0 ==> x.Opens(p))
            && (x.Opens(p) ==> x.calls[p].kind == Malloc)
            && (m > 0 ==> x.calls[p].kind == KindAt(x.CountIn(b, m, p)))
            && (m > 0 && x.Opens(p) ==> x.CountIn(b, m, p) % 3 == 0)
  {
    hide System.Valid, System.Allocs, System.IsOn, System.Opens, System.CountIn, System.Recorded, System.Count;
    CallValid(x, p);
    NextCall(x, b, 0, p);
    StaysInStep(x, b, p);
  }

  /** Everything a call says about generation g of buffer b. */
  lemma CallStanding(x: System, b: nat, g: nat, p: nat)
    requires x.Valid() && p < |x.calls| && g > 0
    ensures var n, m, k := x.CountIn(b, g, p), x.Allocs(b, p), x.calls[p].kind;
            && x.CountIn(b, g, p + 1) == n + One(x.IsOn(p, b, g))
            && x.Allocs(b, p + 1) == m + One(x.calls[p].buffer == b && x.Opens(p))
            && (m < g ==> n == 0)
            && (m > g ==> Mallocs(n) == Copies(n) == Frees(n))
            && (x.calls[p].buffer == b && x.Opens(p) && m == g ==> Mallocs(n) == Copies(n) == Frees(n))
            && (x.calls[p].buffer == b && x.Opens(p) ==> k == Malloc)
            && (x.IsOn(p, b, g) <==> x.calls[p].buffer == b && m + One(x.Opens(p)) == g)
            && (x.IsOn(p, b, g) ==>
                  && Mallocs(n + 1) == Mallocs(n) + One(k == Malloc)
                  && Copies(n + 1) == Copies(n) + One(k == Copy)
                  && Frees(n + 1) == Frees(n) + One(k == Free)
                  && Mallocs(n) == Copies(n) + One(k == Copy)
                  && Copies(n) == Frees(n) + One(k == Free))
  {
    hide System.Valid, System.Allocs, System.IsOn, System.Opens, System.CountIn, Mallocs, Copies, Frees;
    var n, m := x.CountIn(b, g, p), x.Allocs(b, p);
    NextCall(x, b, g, p);
    if x.calls[p].buffer == b {
      KindInStep(x, b, p);
    }
    if m > g {
      EarlierAreWhole(x, b, g, p);
    } else if m < g {
      LaterAreNone(x, b, g, p);
    }
    if n % 3 == 0 {
      RoundsWhole(n);
    }
    if x.IsOn(p, b, g) {
      RoundCounts(n, x.calls[p].kind);
    }
  }

  // ----- the generation in use -----

  lemma OtherInUse(x: System, b: nat, p: nat)
    requires p < |x.calls| && x.calls[p].buffer != b
    ensures x.InUse(b, p + 1) == x.InUse(b, p) && (x.Fresh(b, p + 1) <==> x.Fresh(b, p))
  {
    hide System.Allocs, System.IsOn, System.Opens, System.CountIn, System.Recorded, System.Count;
    NextCall(x, b, x.Allocs(b, p), p);
  }

  /** An allocation puts its generation in use, a copy keeps it, a release ends the use. */
  lemma OwnInUse(x: System, b: nat, p: nat)
    requires x.Valid() && p < |x.calls| && x.calls[p].buffer == b
    ensures var k := x.calls[p].kind;
            && x.InUse(b, p + 1) == (if k == Free then 0 else x.Gen(p))
            && (k == Malloc ==> x.InUse(b, p) == 0 && (x.Fresh(b, p + 1) <==> x.Replaces(p)))
            && (k != Malloc ==> x.InUse(b, p) == x.Gen(p) && !x.Opens(p))
            && (k == Copy ==> (x.Fresh(b, p + 1) <==> x.Fresh(b, p)))
            && (k == Copy ==> (x.Fresh(b, p) <==> x.Gen(p) > 1 && Copies(x.CountIn(b, x.Gen(p), p)) == 0))
  {
    hide System.Valid, System.Allocs, System.IsOn, System.Opens, System.CountIn, System.Recorded, System.Count;
    var m, g := x.Allocs(b, p), x.Gen(p);
    CallValid(x, p);
    CallGen(x, p);
    KindInStep(x, b, p);
    StaysInStep(x, b, p);
    NextCall(x, b, g, p);
    if m < g {
      LaterAreNone(x, b, g, p);
    }
  }
}
