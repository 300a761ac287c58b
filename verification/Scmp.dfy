// The SCMP run-time of one task: the requests that allocation, release and the copies make
// to SESAM, and the bytes the server copies move. Waiting and data movement by other tasks
// happen inside SESAM; here a task only issues its requests, in order.

module Scmp {
  import opened Arithmetic
  import opened Bytes

  datatype Mode = Read | Write

  datatype Request =
    | WaitPage(id: nat, page: nat, mode: Mode)
    | SendPage(id: nat, page: nat, mode: Mode)
    | FreeData(id: nat)
    | ReserveData(pages: nat)
    | AssignData(id: nat, pages: nat)
    | MapData(id: nat)
    | UnmapData(id: nat)

  // ----- the requests of each call -----

  /** The number of pages that waits and sends go through for a size in bytes. */
  function PageCount(size: nat, pageSize: nat): nat
    requires pageSize > 0
  {
    size / pageSize + 1
  }

  function WaitAll(id: nat, size: nat, pageSize: nat, mode: Mode): seq<Request>
    requires pageSize > 0
  {
    seq(PageCount(size, pageSize), (i: nat) => WaitPage(id, i, mode))
  }

  function SendAll(id: nat, size: nat, pageSize: nat, mode: Mode): seq<Request>
    requires pageSize > 0
  {
    seq(PageCount(size, pageSize), (i: nat) => SendPage(id, i, mode))
  }

  function AllocateRequests(id: nat, n: nat, pageSize: nat): seq<Request>
    requires pageSize > 0
  {
    [ReserveData(PageCount(n, pageSize)), AssignData(id, PageCount(n, pageSize))] + WaitAll(id, n, pageSize, Write)
  }

  /** What a producer asks for when its buffer of `current` bytes becomes one of n bytes. */
  function ProducerRequests(id: nat, current: nat, n: nat, pageSize: nat): seq<Request>
    requires pageSize > 0
  {
    if current == 0 then AllocateRequests(id, n, pageSize)
    else if current == n then WaitAll(id, current, pageSize, Write)
    else WaitAll(id, current, pageSize, Write) + [FreeData(id)] + AllocateRequests(id, n, pageSize)
  }

  // ----- what they ask for, in bytes -----

  /** This many pages hold more than the size, and one page less does not: a size that is a
      multiple of the page size takes a page more than it fills. */
  ghost predicate IsPages(pages: nat, size: nat, pageSize: nat) {
    pages > 0 && (pages - 1) * pageSize <= size < pages * pageSize
  }

  /** A wait for each of these pages, in order. */
  ghost predicate WaitsForEach(rs: seq<Request>, id: nat, size: nat, pageSize: nat, mode: Mode) {
    IsPages(|rs|, size, pageSize) && forall i | 0 <= i < |rs| :: rs[i] == WaitPage(id, i, mode)
  }

  ghost predicate SendsEach(rs: seq<Request>, id: nat, size: nat, pageSize: nat, mode: Mode) {
    IsPages(|rs|, size, pageSize) && forall i | 0 <= i < |rs| :: rs[i] == SendPage(id, i, mode)
  }

  /** Reserving and assigning the pages of a new allocation, and waiting for them. */
  ghost predicate Allocates(rs: seq<Request>, id: nat, n: nat, pageSize: nat) {
    && |rs| >= 2 && rs[0].ReserveData? && IsPages(rs[0].pages, n, pageSize) && rs[1] == AssignData(id, rs[0].pages)
    && WaitsForEach(rs[2..], id, n, pageSize, Write)
  }

  /** Waiting for the old pages and freeing them. */
  ghost predicate WaitsAndFrees(rs: seq<Request>, id: nat, current: nat, pageSize: nat) {
    |rs| > 0 && rs[|rs| - 1] == FreeData(id) && WaitsForEach(rs[..|rs| - 1], id, current, pageSize, Write)
  }

  /** What a producer asks for when its buffer of `current` bytes becomes one of n bytes. */
  ghost predicate ChangesSize(rs: seq<Request>, id: nat, current: nat, n: nat, pageSize: nat) {
    if current == 0 then Allocates(rs, id, n, pageSize)
    else if current == n then WaitsForEach(rs, id, n, pageSize, Write)
    else exists k :: 0 <= k <= |rs| && WaitsAndFrees(rs[..k], id, current, pageSize) && Allocates(rs[k..], id, n, pageSize)
  }

  lemma PagesAre(size: nat, pageSize: nat)
    requires pageSize > 0
    ensures IsPages(PageCount(size, pageSize), size, pageSize)
  {
    Quotient(size, pageSize);
    Distribute(size / pageSize, 1, pageSize);
  }

  /** The pages are those that begin at the last byte's end or before. */
  lemma IsPagesIff(pages: nat, size: nat, pageSize: nat, i: nat)
    requires IsPages(pages, size, pageSize)
    ensures i < pages <==> i * pageSize <= size
  {
    if i < pages {
      Below(i, pages - 1, pageSize);
    } else {
      Below(pages, i, pageSize);
    }
  }

  /** Page i is waited for, or sent, if and only if i * pageSize <= size, and then once. */
  lemma AskedIff(rs: seq<Request>, id: nat, size: nat, pageSize: nat, mode: Mode, i: nat)
    requires WaitsForEach(rs, id, size, pageSize, mode) || SendsEach(rs, id, size, pageSize, mode)
    ensures var r := if rs[0].WaitPage? then WaitPage(id, i, mode) else SendPage(id, i, mode);
            && (r in rs <==> i * pageSize <= size)
            && forall j, k | 0 <= j < |rs| && 0 <= k < |rs| && rs[j] == rs[k] :: j == k
  {
    IsPagesIff(|rs|, size, pageSize, i);
    var r := if rs[0].WaitPage? then WaitPage(id, i, mode) else SendPage(id, i, mode);
    if i < |rs| {
      assert rs[i] == r;
    }
  }

  lemma AllAreEach(id: nat, size: nat, pageSize: nat, mode: Mode)
    requires pageSize > 0
    ensures WaitsForEach(WaitAll(id, size, pageSize, mode), id, size, pageSize, mode)
    ensures SendsEach(SendAll(id, size, pageSize, mode), id, size, pageSize, mode)
  {
    PagesAre(size, pageSize);
  }

  lemma AllocateAllocates(id: nat, n: nat, pageSize: nat)
    requires pageSize > 0
    ensures Allocates(AllocateRequests(id, n, pageSize), id, n, pageSize)
  {
    PagesAre(n, pageSize);
    AllAreEach(id, n, pageSize, Write);
    var rs := AllocateRequests(id, n, pageSize);
    assert rs[2..] == WaitAll(id, n, pageSize, Write);
  }

  lemma ProducerChangesSize(id: nat, current: nat, n: nat, pageSize: nat)
    requires pageSize > 0
    ensures ChangesSize(ProducerRequests(id, current, n, pageSize), id, current, n, pageSize)
  {
    hide WaitsForEach, Allocates, AllocateRequests, WaitAll;
    AllAreEach(id, current, pageSize, Write);
    AllocateAllocates(id, n, pageSize);
    var rs := ProducerRequests(id, current, n, pageSize);
    if current != 0 && current != n {
      var waits := WaitAll(id, current, pageSize, Write);
      var k := |waits| + 1;
      assert rs[..k] == waits + [FreeData(id)] && rs[..k][..k - 1] == waits;
      assert rs[k..] == AllocateRequests(id, n, pageSize);
    }
  }

  lemma MallocAsks(was: seq<Request>, now: seq<Request>, id: nat, current: nat, n: nat, pageSize: nat)
    requires pageSize > 0 && now == was + ProducerRequests(id, current, n, pageSize) + [MapData(id)]
    ensures was <= now
    ensures var rs := now[|was|..];
            && |rs| > 0 && rs[|rs| - 1] == MapData(id)
            && ChangesSize(rs[..|rs| - 1], id, current, n, pageSize)
  {
    hide ChangesSize, ProducerRequests;
    ProducerChangesSize(id, current, n, pageSize);
    var asked := ProducerRequests(id, current, n, pageSize);
    assert now[|was|..] == asked + [MapData(id)];
    assert now[|was|..][..|asked|] == asked;
  }

  /** A new allocation's requests, issued one after the other. */
  lemma AllocateInSteps(before: seq<Request>, id: nat, n: nat, pageSize: nat)
    requires pageSize > 0
    ensures before + [ReserveData(n / pageSize + 1)] + [AssignData(id, n / pageSize + 1)] + WaitAll(id, n, pageSize, Write) ==
            before + AllocateRequests(id, n, pageSize)
  {
    hide WaitAll;
    var p := PageCount(n, pageSize);
    var waits := WaitAll(id, n, pageSize, Write);
    assert before + [ReserveData(p)] + [AssignData(id, p)] + waits ==
           before + ([ReserveData(p), AssignData(id, p)] + waits);
  }

  /** A change of size, issued one call after the other. */
  lemma ChangeInSteps(was: seq<Request>, id: nat, current: nat, n: nat, pageSize: nat)
    requires pageSize > 0 && current != 0 && current != n
    ensures was + WaitAll(id, current, pageSize, Write) + [FreeData(id)] + AllocateRequests(id, n, pageSize) ==
            was + ProducerRequests(id, current, n, pageSize)
  {
    hide WaitAll, AllocateRequests;
  }

  // ----- the task -----

  class Task {
    const pageSize: nat
    var currentBufferSize: array<nat>
    var requests: seq<Request>

    ghost predicate Valid()
      reads this
    {
      pageSize > 0
    }

    /** The task at its start; the sizes are those of zero-initialised globals. */
    constructor (buffers: nat, pageSize: nat)
      requires pageSize > 0
      ensures Valid() && fresh(currentBufferSize) && this.pageSize == pageSize
      ensures requests == [] && currentBufferSize[..] == seq(buffers, _ => 0)
    {
      this.pageSize := pageSize;
      currentBufferSize := new nat[buffers](_ => 0);
      requests := [];
    }

    /** P4A_scmp_reset. */
    method Reset()
      requires Valid()
      modifies currentBufferSize
      ensures currentBufferSize[..] == seq(currentBufferSize.Length, _ => 0)
    {
      for i := 0 to currentBufferSize.Length
        invariant forall k | 0 <= k < i :: currentBufferSize[k] == 0
      {
        currentBufferSize[i] := 0;
      }
    }

    /** P4A_sesam_wait_all_pages. */
    method WaitAllPages(id: nat, size: nat, mode: Mode)
      requires Valid()
      modifies this`requests
      ensures requests == old(requests) + WaitAll(id, size, pageSize, mode)
      ensures old(requests) <= requests
      ensures WaitsForEach(requests[|old(requests)|..], id, size, pageSize, mode)
    {
      AllAreEach(id, size, pageSize, mode);
      for i := 0 to size / pageSize + 1
        invariant requests == old(requests) + WaitAll(id, size, pageSize, mode)[..i]
      {
        requests := requests + [WaitPage(id, i, mode)];
      }
    }

    /** P4A_sesam_send_all_pages. */
    method SendAllPages(id: nat, size: nat, mode: Mode)
      requires Valid()
      modifies this`requests
      ensures requests == old(requests) + SendAll(id, size, pageSize, mode)
      ensures old(requests) <= requests
      ensures SendsEach(requests[|old(requests)|..], id, size, pageSize, mode)
    {
      AllAreEach(id, size, pageSize, mode);
      for i := 0 to size / pageSize + 1
        invariant requests == old(requests) + SendAll(id, size, pageSize, mode)[..i]
      {
        requests := requests + [SendPage(id, i, mode)];
      }
    }

    /** What P4A_accel_malloc does in a producer before it maps the buffer. */
    method ChangeSize(n: nat, id: nat, size: nat)
      requires Valid()
      modifies this`requests
      ensures requests == old(requests) + ProducerRequests(id, size, n, pageSize)
    {
      hide WaitsForEach, WaitAll, AllocateRequests, PageCount;
      var currentSize := size;
      if currentSize != 0 {
        WaitAllPages(id, currentSize, Write);
      }
      if currentSize != 0 && currentSize != n {
        requests := requests + [FreeData(id)];
        currentSize := 0;
      }
      if currentSize == 0 {
        AllocateInSteps(requests, id, n, pageSize);
        requests := requests + [ReserveData(n / pageSize + 1)];
        requests := requests + [AssignData(id, n / pageSize + 1)];
        WaitAllPages(id, n, Write);
      }
      if size != 0 && size != n {
        ChangeInSteps(old(requests), id, size, n, pageSize);
      }
    }

    /** P4A_accel_malloc. */
    method AccelMalloc(n: nat, id: nat, doIt: bool, producer: bool)
      requires Valid() && id < currentBufferSize.Length
      modifies this`requests, currentBufferSize
      ensures requests == if !doIt then old(requests)
                          else old(requests)
                               + (if producer then ProducerRequests(id, old(currentBufferSize[id]), n, pageSize) else [])
                               + [MapData(id)]
      ensures old(requests) <= requests
      ensures doIt && producer ==>
                var rs := requests[|old(requests)|..];
                && |rs| > 0 && rs[|rs| - 1] == MapData(id)
                && ChangesSize(rs[..|rs| - 1], id, old(currentBufferSize[id]), n, pageSize)
      ensures currentBufferSize[..] == if doIt then old(currentBufferSize[..])[id := n] else old(currentBufferSize[..])
    {
      hide ChangesSize, ProducerRequests;
      if doIt {
        if producer {
          ChangeSize(n, id, currentBufferSize[id]);
          MallocAsks(old(requests), requests + [MapData(id)], id, currentBufferSize[id], n, pageSize);
        }
        currentBufferSize[id] := n;
        requests := requests + [MapData(id)];
      }
    }

    /** P4A_accel_free. */
    method AccelFree(id: nat, doIt: bool, producer: bool)
      requires Valid() && id < currentBufferSize.Length
      modifies this`requests
      ensures requests == if !doIt then old(requests)
                          else old(requests)
                               + (if producer then [] else SendAll(id, currentBufferSize[id], pageSize, Write))
                               + [UnmapData(id)]
    {
      if doIt {
        if !producer {
          SendAllPages(id, currentBufferSize[id], Write);
        }
        requests := requests + [UnmapData(id)];
      }
    }

    /** P4A_copy_to_accel_1d_server: the producer fills the buffer, then hands it out. */
    method CopyToServer(elementSize: nat, blockSize: nat, offset: nat, host: array<int>, accel: array<int>, id: nat, doIt: bool)
      requires Valid() && host != accel
      requires doIt ==> (offset + blockSize) * elementSize <= host.Length && blockSize * elementSize <= accel.Length
      modifies this`requests, accel
      ensures requests == if doIt then old(requests) + SendAll(id, blockSize * elementSize, pageSize, Read) else old(requests)
      ensures doIt ==> offset * elementSize + blockSize * elementSize <= host.Length
      ensures accel[..] == if !doIt then old(accel[..])
                           else host[offset * elementSize..offset * elementSize + blockSize * elementSize]
                                + old(accel[blockSize * elementSize..])
    {
      if doIt {
        Distribute(offset, blockSize, elementSize);
        MoveBytes(host, offset * elementSize, accel, 0, blockSize * elementSize);
        SendAllPages(id, blockSize * elementSize, Read);
      }
    }

    /** P4A_copy_from_accel_1d_server: the consumer waits for the pages, then reads them. */
    method CopyFromServer(elementSize: nat, blockSize: nat, offset: nat, host: array<int>, accel: array<int>, id: nat, doIt: bool)
      requires Valid() && host != accel
      requires doIt ==> (offset + blockSize) * elementSize <= host.Length && blockSize * elementSize <= accel.Length
      modifies this`requests, host
      ensures requests == if doIt then old(requests) + WaitAll(id, blockSize * elementSize, pageSize, Read) else old(requests)
      ensures doIt ==> offset * elementSize + blockSize * elementSize <= host.Length
      ensures host[..] == if !doIt then old(host[..])
                          else old(host[..offset * elementSize]) + accel[..blockSize * elementSize]
                               + old(host[offset * elementSize + blockSize * elementSize..])
    {
      if doIt {
        Distribute(offset, blockSize, elementSize);
        WaitAllPages(id, blockSize * elementSize, Read);
        MoveBytes(accel, 0, host, offset * elementSize, blockSize * elementSize);
      }
    }

    /** P4A_copy_from_accel_1d, the producing kernel's side. */
    method CopyFrom(elementSize: nat, blockSize: nat, id: nat, doIt: bool)
      requires Valid()
      modifies this`requests
      ensures requests == if doIt then old(requests) + SendAll(id, elementSize * blockSize, pageSize, Read) else old(requests)
    {
      if doIt {
        SendAllPages(id, elementSize * blockSize, Read);
      }
    }

    /** P4A_copy_to_accel_1d, the consuming kernel's side. */
    method CopyTo(elementSize: nat, blockSize: nat, id: nat, doIt: bool)
      requires Valid()
      modifies this`requests
      ensures requests == if doIt then old(requests) + WaitAll(id, elementSize * blockSize, pageSize, Read) else old(requests)
    {
      if doIt {
        WaitAllPages(id, elementSize * blockSize, Read);
      }
    }
  }

  /** Every byte of the buffer lies on a page that waits and sends go through. */
  lemma PagesCoverBytes(size: nat, pageSize: nat, k: nat)
    requires pageSize > 0 && k < size
    ensures k / pageSize < PageCount(size, pageSize)
  {
    Monotone(pageSize, size / pageSize, k / pageSize);
  }

  // ----- resizing -----

  /** The producer's view of one buffer while its requests run: the pages of the current
      allocation, those it holds for writing, and how many allocations were never freed. */
  datatype Allocation = Allocation(pages: nat, held: set<nat>, live: int)

  function AllPages(n: nat): set<nat> {
    if n == 0 then {} else AllPages(n - 1) + {n - 1}
  }

  /** FreedWhileShared: FreeData ran while a page of the allocation was not held. */
  datatype Outcome = Running(a: Allocation) | FreedWhileShared

  function Perform(o: Outcome, r: Request): Outcome {
    if o.FreedWhileShared? then o
    else match r
      case WaitPage(_, p, Write) => Running(o.a.(held := o.a.held + {p}))
      case SendPage(_, p, Read) => Running(o.a.(held := o.a.held - {p}))
      case FreeData(_) =>
        if AllPages(o.a.pages) <= o.a.held then Running(Allocation(0, {}, o.a.live - 1)) else FreedWhileShared
      case AssignData(_, n) => Running(Allocation(n, {}, o.a.live + 1))
      case _ => o
  }

  function PerformAll(o: Outcome, rs: seq<Request>): Outcome {
    if rs == [] then o else Perform(PerformAll(o, rs[..|rs| - 1]), rs[|rs| - 1])
  }

  lemma {:induction false} PerformConcat(o: Outcome, rs: seq<Request>, ss: seq<Request>)
    ensures PerformAll(o, rs + ss) == PerformAll(PerformAll(o, rs), ss)
    decreases |ss|
  {
    if ss == [] {
      assert rs + ss == rs;
    } else {
      PerformConcat(o, rs, ss[..|ss| - 1]);
      assert (rs + ss)[..|rs + ss| - 1] == rs + ss[..|ss| - 1];
    }
  }

  lemma {:induction false} PerformWaits(a: Allocation, rs: seq<Request>, id: nat)
    requires forall k | 0 <= k < |rs| :: rs[k] == WaitPage(id, k, Write)
    ensures PerformAll(Running(a), rs) == Running(a.(held := a.held + AllPages(|rs|)))
  {
    if rs == [] {
      assert a.held + AllPages(0) == a.held;
    } else {
      PerformWaits(a, rs[..|rs| - 1], id);
      assert AllPages(|rs|) == AllPages(|rs| - 1) + {|rs| - 1};
      assert a.held + AllPages(|rs|) == a.held + AllPages(|rs| - 1) + {|rs| - 1};
    }
  }

  lemma {:induction false} PerformSends(a: Allocation, rs: seq<Request>, id: nat)
    requires forall k | 0 <= k < |rs| :: rs[k] == SendPage(id, k, Read)
    ensures PerformAll(Running(a), rs) == Running(a.(held := a.held - AllPages(|rs|)))
  {
    if rs == [] {
      assert a.held - AllPages(0) == a.held;
    } else {
      PerformSends(a, rs[..|rs| - 1], id);
      assert AllPages(|rs|) == AllPages(|rs| - 1) + {|rs| - 1};
      assert a.held - AllPages(|rs|) == a.held - AllPages(|rs| - 1) - {|rs| - 1};
    }
  }

  lemma PerformAllocate(a: Allocation, id: nat, n: nat, pageSize: nat)
    requires pageSize > 0
    ensures PerformAll(Running(a), AllocateRequests(id, n, pageSize)) ==
            Running(Allocation(PageCount(n, pageSize), AllPages(PageCount(n, pageSize)), a.live + 1))
  {
    var p := PageCount(n, pageSize);
    var two := [ReserveData(p), AssignData(id, p)];
    assert two[..1] == [ReserveData(p)] && two[..1][..0] == [];
    assert PerformAll(Running(a), two[..1]) == Running(a);
    PerformConcat(Running(a), two, WaitAll(id, n, pageSize, Write));
    PerformWaits(Allocation(p, {}, a.live + 1), WaitAll(id, n, pageSize, Write), id);
    assert {} + AllPages(p) == AllPages(p);
  }

  /** One round of the producer: allocate, map, hand every page out, unmap. */
  function Round(id: nat, current: nat, n: nat, pageSize: nat): seq<Request>
    requires pageSize > 0
  {
    ProducerRequests(id, current, n, pageSize) + ([MapData(id)] + SendAll(id, n, pageSize, Read) + [UnmapData(id)])
  }

  lemma PerformHandOut(a: Allocation, id: nat, n: nat, pageSize: nat)
    requires pageSize > 0 && a.held <= AllPages(PageCount(n, pageSize))
    ensures PerformAll(Running(a), [MapData(id)] + SendAll(id, n, pageSize, Read) + [UnmapData(id)]) ==
            Running(a.(held := {}))
  {
    var sends := SendAll(id, n, pageSize, Read);
    assert [MapData(id)][..0] == [] && [UnmapData(id)][..0] == [];
    PerformConcat(Running(a), [MapData(id)] + sends, [UnmapData(id)]);
    PerformConcat(Running(a), [MapData(id)], sends);
    assert PerformAll(Running(a), [MapData(id)]) == Running(a);
    PerformSends(a, sends, id);
    assert a.held - AllPages(|sends|) == {};
  }

  /** A round frees the old allocation only with every page in hand, and leaves the new one
      with every page out; allocations accumulate only when the old size was zero. */
  lemma RoundOutcome(a: Allocation, id: nat, current: nat, n: nat, pageSize: nat)
    requires pageSize > 0 && a.held == {}
    requires current != 0 ==> a.pages == PageCount(current, pageSize)
    ensures PerformAll(Running(a), Round(id, current, n, pageSize)) ==
            Running(Allocation(PageCount(n, pageSize), {}, if current == 0 then a.live + 1 else a.live))
  {
    var waits := WaitAll(id, current, pageSize, Write);
    var p := PageCount(n, pageSize);
    var middle := Allocation(p, AllPages(p), if current == 0 then a.live + 1 else a.live);
    PerformWaits(a, waits, id);
    assert a.held + AllPages(|waits|) == AllPages(|waits|);
    if current == 0 {
      PerformAllocate(a, id, n, pageSize);
    } else if current != n {
      assert [FreeData(id)][..0] == [];
      PerformConcat(Running(a), waits, [FreeData(id)]);
      assert PerformAll(Running(a), waits + [FreeData(id)]) == Running(Allocation(0, {}, a.live - 1));
      PerformConcat(Running(a), waits + [FreeData(id)], AllocateRequests(id, n, pageSize));
      PerformAllocate(Allocation(0, {}, a.live - 1), id, n, pageSize);
    }
    assert PerformAll(Running(a), ProducerRequests(id, current, n, pageSize)) == Running(middle);
    PerformConcat(Running(a), ProducerRequests(id, current, n, pageSize),
                  [MapData(id)] + SendAll(id, n, pageSize, Read) + [UnmapData(id)]);
    PerformHandOut(middle, id, n, pageSize);
  }

  /** All the requests of a producer whose rounds have these sizes, from a start without
      an allocation. */
  function Rounds(id: nat, ns: seq<nat>, pageSize: nat): seq<Request>
    requires pageSize > 0
  {
    if ns == [] then []
    else
      var k := |ns| - 1;
      Rounds(id, ns[..k], pageSize) + Round(id, if k == 0 then 0 else ns[k - 1], ns[k], pageSize)
  }

  function CountZeros(ns: seq<nat>): nat {
    if ns == [] then 0 else CountZeros(ns[..|ns| - 1]) + if ns[|ns| - 1] == 0 then 1 else 0
  }

  /** Over any sequence of sizes no allocation is freed while a page is out, and exactly one
      is live afterwards plus one for every round that followed a buffer of size zero. */
  lemma {:induction false} ResizingIsSafe(id: nat, ns: seq<nat>, pageSize: nat)
    requires pageSize > 0 && |ns| > 0
    ensures PerformAll(Running(Allocation(0, {}, 0)), Rounds(id, ns, pageSize)) ==
            Running(Allocation(PageCount(ns[|ns| - 1], pageSize), {}, 1 + CountZeros(ns[..|ns| - 1])))
  {
    hide PerformAll, Round, PageCount;
    var start := Running(Allocation(0, {}, 0));
    var k := |ns| - 1;
    if k == 0 {
      assert ns[..0] == [];
      assert Rounds(id, ns, pageSize) == Round(id, 0, ns[0], pageSize);
      RoundOutcome(start.a, id, 0, ns[0], pageSize);
    } else {
      ResizingIsSafe(id, ns[..k], pageSize);
      PerformConcat(start, Rounds(id, ns[..k], pageSize), Round(id, ns[k - 1], ns[k], pageSize));
      var a := PerformAll(start, Rounds(id, ns[..k], pageSize)).a;
      RoundOutcome(a, id, ns[k - 1], ns[k], pageSize);
      assert ns[..k][..k - 1] == ns[..k - 1];
    }
  }
}
