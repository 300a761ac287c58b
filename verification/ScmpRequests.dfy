// The operations of the hand-off are the requests that the run-time makes.

module ScmpRequests {
  import opened Scmp
  import opened ScmpProgram
  import opened ScmpProtocol

  function Asks(x: System, o: Operation): seq<Request>
    requires x.pageSize > 0
  {
    match o
    case WaitWrite(b, _, i) => [WaitPage(b, i, Write)]
    case WaitRead(b, _, i) => [WaitPage(b, i, Read)]
    case SendRead(b, _, i) => [SendPage(b, i, Read)]
    case SendWrite(b, _, i) => [SendPage(b, i, Write)]
    case Release(b, _) => [FreeData(b)]
    case Map(b, _) => [MapData(b)]
    case Unmap(b, _) => [UnmapData(b)]
    case Allocate(b, g) => [ReserveData(x.Pages(b, g)), AssignData(b, x.Pages(b, g))]
    case _ => []
  }

  /** What task t asks for in the first k operations of call p. */
  function Asked(x: System, t: nat, p: nat, k: nat): seq<Request>
    requires x.Valid() && p < |x.calls|
  {
    if k == 0 then [] else Asked(x, t, p, k - 1) + Asks(x, OperationAt(x, t, p, k - 1))
  }

  /** A stretch of operations that ask for one page each. */
  ghost predicate Stretch(x: System, t: nat, p: nat, from: nat, rs: seq<Request>)
    requires x.Valid() && p < |x.calls|
  {
    forall j: nat | j < |rs| :: Asks(x, OperationAt(x, t, p, from + j)) == [rs[j]]
  }

  lemma {:induction false} AskedStretch(x: System, t: nat, p: nat, from: nat, rs: seq<Request>)
    requires x.Valid() && p < |x.calls| && Stretch(x, t, p, from, rs)
    ensures Asked(x, t, p, from + |rs|) == Asked(x, t, p, from) + rs
    decreases |rs|
  {
    hide System.Valid, OperationAt, Asks;
    CallValid(x, p);
    if rs != [] {
      var k := |rs| - 1;
      assert Stretch(x, t, p, from, rs[..k]);
      AskedStretch(x, t, p, from, rs[..k]);
      assert Asks(x, OperationAt(x, t, p, from + k)) == [rs[k]];
      assert rs == rs[..k] + [rs[k]];
    }
  }

  /** A stretch of n operations that ask for nothing. */
  ghost predicate Quiet(x: System, t: nat, p: nat, from: nat, n: nat)
    requires x.Valid() && p < |x.calls|
  {
    forall j: nat | from <= j < from + n :: Asks(x, OperationAt(x, t, p, j)) == []
  }

  lemma {:induction false} AskedNothing(x: System, t: nat, p: nat, from: nat, n: nat)
    requires x.Valid() && p < |x.calls| && Quiet(x, t, p, from, n)
    ensures Asked(x, t, p, from + n) == Asked(x, t, p, from)
    decreases n
  {
    hide System.Valid, OperationAt, Asks;
    CallValid(x, p);
    if n > 0 {
      AskedNothing(x, t, p, from, n - 1);
      assert Asks(x, OperationAt(x, t, p, from + (n - 1))) == [];
    }
  }

  /** What an allocation does for the pages of a generation, its own or the one it replaces. */
  lemma WaitsAre(x: System, p: nat, b: nat, g: nat, size: nat)
    requires x.Valid() && p < |x.calls| && x.calls[p].kind == Malloc && b == x.calls[p].buffer && b < |x.producer|
    requires x.pageSize > 0 && x.Pages(b, g) == PageCount(size, x.pageSize)
    requires g == x.Gen(p) || (x.Opens(p) && x.Allocs(b, p) == g > 0)
    ensures var from := if g == x.Gen(p) then Start(x, p) else 0;
            Stretch(x, x.producer[b], p, from, WaitAll(b, size, x.pageSize, Write))
  {
    hide System.Valid, System.Allocs, System.Opens, System.Pages, System.Gen, PageCount;
    GenIs(x, p);
  }

  /** The operations of an allocation by the producer between its waits. */
  lemma AllocationIs(x: System, p: nat, b: nat, g: nat)
    requires x.Valid() && p < |x.calls| && x.calls[p].kind == Malloc && b == x.calls[p].buffer && g == x.Gen(p)
    ensures b < |x.producer| && x.pageSize > 0 && g > 0
    ensures Length(x, x.producer[b], p) == Start(x, p) + x.Pages(b, g) + 1
    ensures OperationAt(x, x.producer[b], p, Start(x, p) + x.Pages(b, g)) == Map(b, g)
    ensures !x.Opens(p) ==> Start(x, p) == 0
    ensures x.Opens(p) ==> OperationAt(x, x.producer[b], p, Lead(x, p)) == Allocate(b, g) && Start(x, p) == Lead(x, p) + 1
    ensures x.Opens(p) && x.Allocs(b, p) == 0 ==> Lead(x, p) == 0
    ensures x.Opens(p) && x.Allocs(b, p) > 0 ==>
              && Lead(x, p) == x.Pages(b, g - 1) + 1 && g - 1 == x.Allocs(b, p)
              && OperationAt(x, x.producer[b], p, x.Pages(b, g - 1)) == Release(b, g - 1)
  {
    hide System.Valid, System.Allocs, System.Opens, System.Pages, System.Gen;
    CallValid(x, p);
    CallGen(x, p);
    GenIs(x, p);
  }

  lemma AskedNext(x: System, t: nat, p: nat, k: nat)
    requires x.Valid() && p < |x.calls|
    ensures x.pageSize > 0 && Asked(x, t, p, k + 1) == Asked(x, t, p, k) + Asks(x, OperationAt(x, t, p, k))
  {
    hide System.Valid, OperationAt, Asks;
    CallValid(x, p);
  }

  lemma AskedStart(x: System, t: nat, p: nat)
    requires x.Valid() && p < |x.calls|
    ensures Asked(x, t, p, 0) == []
  {
    hide System.Valid;
  }

  lemma RecordedIff(x: System, b: nat, p: nat)
    requires x.Valid() && p <= |x.calls|
    ensures x.Recorded(b, p) == 0 <==> x.Allocs(b, p) == 0
  {
    hide System.Valid, System.Allocs, System.Recorded, System.Count, System.CountIn;
    StaysInStep(x, b, p);
  }

  /** Before a new allocation the producer waits for the old pages and releases them. */
  lemma LeadAsks(x: System, p: nat, t: nat, b: nat)
    requires x.Valid() && p < |x.calls| && x.Opens(p) && b == x.calls[p].buffer && b < |x.producer| && t == x.producer[b]
    ensures x.pageSize > 0
    ensures var recorded := x.Recorded(b, p);
            Asked(x, t, p, Lead(x, p)) ==
            if recorded == 0 then [] else WaitAll(b, recorded, x.pageSize, Write) + [FreeData(b)]
  {
    hide System.Valid, OperationAt, Length, Start, Lead, System.Allocs, System.Recorded, System.Gen, System.Pages, Asked;
    hide System.Opens, Stretch;
    var g := x.Gen(p);
    OpensIff(x, p);
    AllocationIs(x, p, b, g);
    RecordedIff(x, b, p);
    AskedStart(x, t, p);
    if x.Allocs(b, p) > 0 {
      RecordedPages(x, b, p);
      var rs := WaitAll(b, x.Recorded(b, p), x.pageSize, Write);
      WaitsAre(x, p, b, g - 1, x.Recorded(b, p));
      AskedStretch(x, t, p, 0, rs);
      AskedNext(x, t, p, |rs|);
    }
  }

  /** From there on it asks for the new pages. */
  lemma OwnAsks(x: System, p: nat, t: nat, b: nat, size: nat)
    requires x.Valid() && p < |x.calls| && x.Opens(p) && x.calls[p] == Call(Malloc, b, size)
    requires b < |x.producer| && t == x.producer[b]
    ensures x.pageSize > 0
    ensures Asked(x, t, p, Length(x, t, p)) ==
            Asked(x, t, p, Lead(x, p)) + AllocateRequests(b, size, x.pageSize) + [MapData(b)]
  {
    hide System.Valid, OperationAt, Length, Start, Lead, System.Allocs, System.Recorded, System.Gen, System.Pages, Asked;
    hide System.Opens, Stretch;
    var g := x.Gen(p);
    AllocationIs(x, p, b, g);
    CallPages(x, b, g, p);
    WaitsAre(x, p, b, g, size);
    AskedStretch(x, t, p, Start(x, p), WaitAll(b, size, x.pageSize, Write));
    AskedNext(x, t, p, Lead(x, p));
    AskedNext(x, t, p, Start(x, p) + x.Pages(b, g));
  }

  lemma KeepsAsks(x: System, p: nat, t: nat, b: nat, size: nat)
    requires x.Valid() && p < |x.calls| && !x.Opens(p) && x.calls[p] == Call(Malloc, b, size)
    requires b < |x.producer| && t == x.producer[b]
    ensures x.pageSize > 0 && size == x.Recorded(b, p)
    ensures Asked(x, t, p, Length(x, t, p)) == WaitAll(b, size, x.pageSize, Write) + [MapData(b)]
  {
    hide System.Valid, OperationAt, Length, Start, System.Allocs, System.Recorded, System.Gen, System.Pages, Asked;
    hide System.Opens, Stretch;
    var g := x.Gen(p);
    OpensIff(x, p);
    AllocationIs(x, p, b, g);
    CallPages(x, b, g, p);
    WaitsAre(x, p, b, g, size);
    AskedStretch(x, t, p, 0, WaitAll(b, size, x.pageSize, Write));
    AskedStart(x, t, p);
    AskedNext(x, t, p, x.Pages(b, g));
  }

  /** An allocation asks for what the run-time asks for, from the size recorded to its own. */
  lemma AllocationAsks(x: System, p: nat, b: nat, size: nat)
    requires x.Valid() && p < |x.calls| && x.calls[p] == Call(Malloc, b, size)
    ensures b < |x.producer| && x.pageSize > 0
    ensures var t := x.producer[b];
            Asked(x, t, p, Length(x, t, p)) == ProducerRequests(b, x.Recorded(b, p), size, x.pageSize) + [MapData(b)]
  {
    hide System.Valid, OperationAt, Length, Start, Lead, System.Allocs, System.Recorded, System.Gen, System.Pages, PageCount, WaitAll, Asked;
    hide AllocateRequests;
    CallValid(x, p);
    OpensIff(x, p);
    if !x.Opens(p) {
      KeepsAsks(x, p, x.producer[b], b, size);
    } else {
      LeadAsks(x, p, x.producer[b], b);
      OwnAsks(x, p, x.producer[b], b, size);
    }
  }

  /** What a copy does: the producer fills and then sends, the consumer waits and then fetches. */
  lemma CopyIs(x: System, p: nat, b: nat, g: nat, size: nat)
    requires x.Valid() && p < |x.calls| && b == x.calls[p].buffer && g == x.Gen(p) && x.calls[p].kind == Copy
    requires x.pageSize > 0 && x.Pages(b, g) == PageCount(size, x.pageSize)
    ensures b < |x.producer| == |x.consumer|
    ensures var t, c, n := x.producer[b], x.consumer[b], x.Pages(b, g);
            && Length(x, t, p) == Length(x, c, p) == n + n
            && Quiet(x, t, p, 0, n) && Stretch(x, t, p, n, SendAll(b, size, x.pageSize, Read))
            && Stretch(x, c, p, 0, WaitAll(b, size, x.pageSize, Read)) && Quiet(x, c, p, n, n)
  {
    hide System.Valid, System.Allocs, System.Opens, System.Pages, System.Gen, Start, PageCount;
    CallValid(x, p);
  }

  lemma CopyAsks(x: System, p: nat, b: nat, g: nat, size: nat)
    requires x.Valid() && p < |x.calls| && b == x.calls[p].buffer && g == x.Gen(p) && x.calls[p].kind == Copy
    requires x.pageSize > 0 && x.Pages(b, g) == PageCount(size, x.pageSize) && b < |x.producer| == |x.consumer|
    ensures Asked(x, x.producer[b], p, Length(x, x.producer[b], p)) == SendAll(b, size, x.pageSize, Read)
    ensures Asked(x, x.consumer[b], p, Length(x, x.consumer[b], p)) == WaitAll(b, size, x.pageSize, Read)
  {
    hide System.Valid, OperationAt, Length, System.Gen, System.Pages, Asked, Quiet, Stretch;
    CopyIs(x, p, b, g, size);
    var t, c, n := x.producer[b], x.consumer[b], x.Pages(b, g);
    AskedStart(x, t, p);
    AskedNothing(x, t, p, 0, n);
    AskedStretch(x, t, p, n, SendAll(b, size, x.pageSize, Read));
    AskedStart(x, c, p);
    AskedStretch(x, c, p, 0, WaitAll(b, size, x.pageSize, Read));
    AskedNothing(x, c, p, n, n);
  }

  /** In a release the consumer sends the pages back, and both unmap. */
  lemma FreeIs(x: System, p: nat, b: nat, g: nat, size: nat)
    requires x.Valid() && p < |x.calls| && b == x.calls[p].buffer && g == x.Gen(p) && x.calls[p].kind == Free
    requires x.pageSize > 0 && x.Pages(b, g) == PageCount(size, x.pageSize)
    ensures b < |x.producer| == |x.consumer|
    ensures var t, c := x.producer[b], x.consumer[b];
            && Length(x, t, p) == 1 && Length(x, c, p) == x.Pages(b, g) + 1
            && OperationAt(x, t, p, 0) == Unmap(b, g) && OperationAt(x, c, p, x.Pages(b, g)) == Unmap(b, g)
            && Stretch(x, c, p, 0, SendAll(b, size, x.pageSize, Write))
  {
    hide System.Valid, System.Allocs, System.Opens, System.Pages, System.Gen, Start, PageCount;
    CallValid(x, p);
  }

  lemma FreeAsks(x: System, p: nat, b: nat, g: nat, size: nat)
    requires x.Valid() && p < |x.calls| && b == x.calls[p].buffer && g == x.Gen(p) && x.calls[p].kind == Free
    requires x.pageSize > 0 && x.Pages(b, g) == PageCount(size, x.pageSize) && b < |x.producer| == |x.consumer|
    ensures Asked(x, x.producer[b], p, Length(x, x.producer[b], p)) == [UnmapData(b)]
    ensures Asked(x, x.consumer[b], p, Length(x, x.consumer[b], p)) == SendAll(b, size, x.pageSize, Write) + [UnmapData(b)]
  {
    hide System.Valid, OperationAt, Length, System.Gen, System.Pages, Asked, Stretch;
    FreeIs(x, p, b, g, size);
    AskedStart(x, x.producer[b], p);
    AskedStart(x, x.consumer[b], p);
    AskedStretch(x, x.consumer[b], p, 0, SendAll(b, size, x.pageSize, Write));
    AskedNext(x, x.producer[b], p, 0);
    AskedNext(x, x.consumer[b], p, x.Pages(b, g));
  }

  /** In an allocation the consumer only maps. */
  lemma ConsumerAllocates(x: System, p: nat, b: nat)
    requires x.Valid() && p < |x.calls| && x.calls[p].kind == Malloc && b == x.calls[p].buffer
    ensures b < |x.consumer| && Asked(x, x.consumer[b], p, Length(x, x.consumer[b], p)) == [MapData(b)]
  {
    hide System.Valid, System.Pages, System.Gen, Start, Asked;
    CallValid(x, p);
    AskedStart(x, x.consumer[b], p);
    AskedNext(x, x.consumer[b], p, 0);
  }

  /** The operations of a call are all the requests that the run-time makes in it: what a producer
      asks for to change the recorded size into another, and sends in its copies; waits in the
      consumer's copies, sends in its releases, of the size recorded; and a map at the end of
      every allocation, an unmap at the end of every release. */
  lemma OperationsAreRequests(x: System, p: nat)
    requires x.Valid() && p < |x.calls|
    ensures var Call(kind, b, size) := x.calls[p];
            && b < |x.producer| == |x.consumer| && x.pageSize > 0
            && var recorded, t, c := x.Recorded(b, p), x.producer[b], x.consumer[b];
               && Asked(x, t, p, Length(x, t, p)) ==
                  (match kind
                   case Malloc => ProducerRequests(b, recorded, size, x.pageSize) + [MapData(b)]
                   case Copy => SendAll(b, recorded, x.pageSize, Read)
                   case Free => [UnmapData(b)])
               && Asked(x, c, p, Length(x, c, p)) ==
                  (match kind
                   case Malloc => [MapData(b)]
                   case Copy => WaitAll(b, recorded, x.pageSize, Read)
                   case Free => SendAll(b, recorded, x.pageSize, Write) + [UnmapData(b)])
  {
    hide System.Valid, OperationAt, Length, System.Gen, System.Pages, PageCount, Asked, SendAll, WaitAll, ProducerRequests, System.Recorded;
    var b, g := x.calls[p].buffer, x.Gen(p);
    CallValid(x, p);
    CallPages(x, b, g, p);
    if x.calls[p].kind == Malloc {
      ConsumerAllocates(x, p, b);
      AllocationAsks(x, p, b, x.calls[p].size);
    } else if x.calls[p].kind == Copy {
      CopyAsks(x, p, b, g, x.Recorded(b, p));
    } else {
      FreeAsks(x, p, b, g, x.Recorded(b, p));
    }
  }
}
