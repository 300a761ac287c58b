// What the tasks' pointers address. A producer maps after its own allocation. A consumer maps
// without asking for anything, so it can get the allocation that its producer is about to
// replace.

module ScmpMaps {
  import opened ScmpProgram
  import opened ScmpProtocol

  // ----- the operations that map -----

  /** Maps come last in an allocation, unmaps last in a release; nothing else changes pointers. */
  lemma MapsAreLast(x: System, t: nat, l: Place, b: nat)
    requires x.Valid() && l.call < |x.calls| && b < |x.producer| && b < |x.consumer|
    requires t == x.producer[b] || t == x.consumer[b]
    ensures var o, n, c, g := OperationAt(x, t, l.call, l.op), Length(x, t, l.call), x.calls[l.call], x.Gen(l.call);
            && (c.buffer == b ==> n > 0)
            && (c.buffer == b && c.kind == Malloc ==> (o.Map? <==> l.op + 1 == n) && (o.Map? ==> o == Map(b, g)))
            && (c.buffer == b && c.kind == Free ==> (o.Unmap? <==> l.op + 1 == n) && (o.Unmap? ==> o.b == b))
            && (o.Map? ==> o.b == c.buffer && o.g == g && c.kind == Malloc)
            && (o.Unmap? ==> o.b == c.buffer && c.kind == Free)
            && (OnPage(o) && IsAccess(o) ==> o.b == c.buffer && o.g == g && c.kind == Copy)
  {
    hide System.Valid, System.Allocs, System.Opens, System.Pages, System.Gen;
    CallValid(x, l.call);
    TasksDiffer(x, b);
    SomePage(x, b, x.Gen(l.call));
  }

  // ----- when a map reaches the generation it means -----

  /** A producer's does. */
  lemma ProducerMaps(x: System, l: Place, b: nat)
    requires x.Valid() && l.call < |x.calls| && b < |x.producer|
    ensures var o := OperationAt(x, x.producer[b], l.call, l.op); o.Map? && o.b == b ==> CurrentAt(x, l, b) == o.g > 0
  {
    hide System.Valid, System.Allocs, System.Opens, System.Pages, System.Gen, CurrentAt;
    ProducerReaches(x, l, b);
    OperationPage(x, x.producer[b], l.call, l.op);
  }

  /** A consumer that maps is in an allocation, and owes every page of the generation. */
  lemma MapperBehind(x: System, c: Place, b: nat, g: nat)
    requires x.Valid() && c.call < |x.calls| && IsPageOf(x, b, g, 0)
    requires OperationAt(x, x.consumer[b], c.call, c.op) == Map(b, g)
    ensures Within(x, c, b, g, Malloc) && Behind(x, c, b, g, 0)
    ensures WriteSends(x, c, b, g, 0) == Frees(x.CountIn(b, g, c.call))
  {
    hide System.Valid, System.Allocs, System.CountIn, System.Opens, System.Pages, Lead, Mallocs, Copies, Frees;
    TasksDiffer(x, b);
    CallValid(x, c.call);
    CallStanding(x, b, g, c.call);
    CountInGrows(x, b, g, c.call + 1, |x.calls|);
    FreesBelow(x.CountIn(b, g, c.call), x.CountIn(b, g, |x.calls|));
  }

  lemma FirstPage(x: System, b: nat, g: nat)
    requires x.Valid() && b < |x.producer| && 0 < g <= x.Allocs(b, |x.calls|)
    ensures IsPageOf(x, b, g, 0)
  {
    hide System.Allocs;
  }

  lemma WaitedIsAllocated(x: System, p: Place, b: nat, g: nat, i: nat)
    requires x.Valid() && p.call <= |x.calls| && IsPageOf(x, b, g, i) && WriteWaits(x, p, b, g, i) > 0
    ensures Allocated(x, p, b, g)
  {
    hide System.Valid, System.CountIn, System.Allocs, System.IsOn, System.Opens, System.Pages, Lead, System.Gen;
    if x.Allocs(b, p.call) < g {
      LaterAreNone(x, b, g, p.call);
      if Within(x, p, b, g, Malloc) {
        CallStanding(x, b, g, p.call);
      }
    }
  }

  lemma CurrentIsFirst(x: System, p: Place, b: nat)
    requires p.call <= |x.calls| && x.pageSize > 0 && CurrentAt(x, p, b) > 0
    ensures Allocated(x, p, b, 1)
  {
    hide System.Allocs, System.Opens, System.Pages;
  }

  /** Unless it replaces an allocation, the map waits for its own generation. */
  lemma ConsumerMaps(x: System, p: Place, c: Place, b: nat, g: nat, h: Tokens)
    requires x.Valid() && p.call <= |x.calls| && c.call < |x.calls| && IsPageOf(x, b, g, 0)
    requires OperationAt(x, x.consumer[b], c.call, c.op) == Map(b, g)
    requires TokensFollow(h, CountsAt(x, p, c, b, g, 0))
    ensures !Released(x, p, b, g)
    ensures Allocated(x, p, b, g) ==> CurrentAt(x, p, b) == g
    ensures !x.Replaces(c.call) && CurrentAt(x, p, b) > 0 ==> Allocated(x, p, b, g)
  {
    hide System.Valid, System.CountIn, System.Opens, System.Pages, CurrentAt, Allocated, Released, OperationAt, WriteWaits, WriteSends, Behind;
    hide System.Allocs, Closed, Frees;
    MapperBehind(x, c, b, g);
    WaitCounts(x, p, c, b, g, h);
    NotReleased(x, p, c, b, g, 0);
    CurrentIff(x, p, b, g);
    if !x.Replaces(c.call) && CurrentAt(x, p, b) > 0 {
      if x.Opens(c.call) {
        FirstMapped(x, c, b, g);
        CurrentIsFirst(x, p, b);
      } else {
        RoundBefore(x, c, b, g);
        WaitedIsAllocated(x, p, b, g, 0);
      }
    }
  }

  lemma WaitCounts(x: System, p: Place, c: Place, b: nat, g: nat, h: Tokens)
    requires x.pageSize > 0 && p.call <= |x.calls| && c.call <= |x.calls|
    requires TokensFollow(h, CountsAt(x, p, c, b, g, 0))
    ensures WriteSends(x, c, b, g, 0) <= WriteWaits(x, p, b, g, 0) <= WriteSends(x, c, b, g, 0) + 1
  {
    hide WriteWaits, Fills, ReadSends, ReadWaits, Fetches, WriteSends, Allocated;
  }

  lemma FirstMapped(x: System, c: Place, b: nat, g: nat)
    requires Within(x, c, b, g, Malloc) && x.Opens(c.call) && !x.Replaces(c.call)
    ensures g == 1
  {
    hide System.Allocs;
  }

  /** Where nothing is opened, a round of the generation has gone before. */
  lemma RoundBefore(x: System, c: Place, b: nat, g: nat)
    requires x.Valid() && Within(x, c, b, g, Malloc) && !x.Opens(c.call)
    ensures Frees(x.CountIn(b, g, c.call)) > 0
  {
    hide System.Valid, System.CountIn, System.Allocs, System.Opens, System.Recorded, System.Count;
    GenIs(x, c.call);
    CallGen(x, c.call);
    CallValid(x, c.call);
    StaysInStep(x, b, c.call);
    KindInStep(x, b, c.call);
  }

  // ----- one step -----

  /** What a step does to one task's pointer into buffer b: at a map it gets what is allocated. */
  lemma StepPointer(x: System, s: State, t: nat, v: int, r: nat, s': State, u: nat, b: nat)
    requires x.Valid() && Shaped(x, s) && Active(x, s, t) && StepTo(x, s, t, v, r, s')
    requires u < x.tasks && b < |x.producer|
    ensures var o := Current(x, s, t);
            && (u, b) in s'.mapped
            && s'.mapped[(u, b)] ==
               if t == u && o.Map? && o.b == b then s.current[b]
               else if t == u && o.Unmap? && o.b == b then 0
               else s.mapped[(u, b)]
  {
    hide System.Valid, OperationAt, IsPage, After, TokensAfter, CurrentAfter;
    OperationPage(x, t, s.at[t].call, s.at[t].op);
  }

  /** How far a task's pointer is after a step. */
  lemma StepDone(x: System, t: nat, l: Place, b: nat)
    requires x.Valid() && l.call < |x.calls| && InPlace(x, t, l) && b < |x.producer| && b < |x.consumer|
    requires t == x.producer[b] || t == x.consumer[b]
    ensures var o, m, c := OperationAt(x, t, l.call, l.op), After(x, t, l), x.calls[l.call];
            && m.call <= |x.calls|
            && (o.Return? ==> Done(x, t, m, b) == l.call + 1)
            && (o.Return? && c.buffer == b ==> Done(x, t, l, b) == l.call + 1)
            && (o.Return? && c.buffer != b ==> Done(x, t, l, b) == l.call)
            && (!o.Return? ==> Done(x, t, l, b) == l.call)
            && (!o.Return? ==> Done(x, t, m, b) ==
                                 if c.buffer == b && l.op + 1 == Length(x, t, l.call) then l.call + 1 else l.call)
  {
    hide System.Valid, Length, OperationAt;
    ReturnsAtLength(x, t, l.call, l.op);
    if l.call + 1 < |x.calls| {
      MapsAreLast(x, t, Place(l.call + 1, 0), b);
    }
  }

  /** The generation in use as a task goes on: it changes where its operation maps or unmaps. */
  lemma StepInUse(x: System, t: nat, l: Place, b: nat)
    requires x.Valid() && l.call < |x.calls| && InPlace(x, t, l) && b < |x.producer| && b < |x.consumer|
    requires t == x.producer[b] || t == x.consumer[b]
    ensures var o, m := OperationAt(x, t, l.call, l.op), After(x, t, l);
            && m.call <= |x.calls|
            && x.InUse(b, Done(x, t, m, b)) ==
               (if o.Map? && o.b == b then o.g else if o.Unmap? && o.b == b then 0 else x.InUse(b, Done(x, t, l, b)))
            && (o.Map? && o.b == b ==> (x.Fresh(b, Done(x, t, m, b)) <==> x.Replaces(l.call)))
            && (!((o.Map? || o.Unmap?) && o.b == b) ==> (x.Fresh(b, Done(x, t, m, b)) <==> x.Fresh(b, Done(x, t, l, b))))
  {
    hide System.Valid, Length, OperationAt, After, Done, System.InUse, System.Fresh, System.Gen, System.Replaces, System.Opens;
    StepDone(x, t, l, b);
    MapsAreLast(x, t, l, b);
    if x.calls[l.call].buffer == b {
      OwnInUse(x, b, l.call);
    } else {
      OtherInUse(x, b, l.call);
    }
  }

  lemma MapStep(x: System, s: State, t: nat, v: int, r: nat, s': State, b: nat)
    requires x.Valid() && Inv(x, s) && Enabled(x, s, t) && StepTo(x, s, t, v, r, s') && Shaped(x, s')
    requires b < |x.producer|
    ensures MapInv(x, s', b)
  {
    hide System.Valid, OperationAt, After, Done, System.InUse, System.Fresh, System.Replaces, InPlace, PageInv, TokensAfter, CurrentAfter;
    hide CurrentAt;
    TasksDiffer(x, b);
    var p, c, o := x.producer[b], x.consumer[b], Current(x, s, t);
    assert MapInv(x, s, b) && BufferInv(x, s, b);
    assert InPlace(x, t, s.at[t]);
    StepPointer(x, s, t, v, r, s', p, b);
    StepPointer(x, s, t, v, r, s', c, b);
    if t == p {
      StepInUse(x, t, s.at[t], b);
      ProducerMaps(x, s.at[t], b);
    } else if t == c {
      StepInUse(x, t, s.at[t], b);
      if o.Map? && o.b == b && !x.Replaces(s.at[t].call) {
        MapIsMeant(x, s, b);
      }
    }
  }

  /** A consumer's map that does not replace an allocation gets its own generation. */
  lemma MapIsMeant(x: System, s: State, b: nat)
    requires x.Valid() && Inv(x, s) && b < |x.consumer| && Enabled(x, s, x.consumer[b])
    requires var o := Current(x, s, x.consumer[b]); o.Map? && o.b == b
    requires !x.Replaces(s.at[x.consumer[b]].call)
    ensures b in s.current && s.current[b] == Current(x, s, x.consumer[b]).g
  {
    hide System.Valid, OperationAt, InPlace, LogsFollow, TokensFollow, CountsAt, CurrentAt, System.Replaces, Allocated, Released, MapInv;
    var c := x.consumer[b];
    var l, o := s.at[c], Current(x, s, c);
    OperationPage(x, c, l.call, l.op);
    TasksDiffer(x, b);
    FirstPage(x, b, o.g);
    assert PageInv(x, s, b, o.g, 0) && BufferInv(x, s, b);
    ConsumerMaps(x, s.at[x.producer[b]], l, b, o.g, s.tokens[(b, o.g, 0)]);
  }

  // ----- what fills and fetches address -----

  /** The copies of the generation before the call that a task is in. */
  function RoundsBefore(x: System, p: nat): nat
    requires p < |x.calls|
  {
    Copies(x.CountIn(x.calls[p].buffer, x.Gen(p), p))
  }

  /** Not the first round of a generation that replaced another one. */
  predicate Settled(x: System, p: nat)
    requires p < |x.calls|
  {
    x.Gen(p) == 1 || RoundsBefore(x, p) > 0
  }

  lemma AccessDone(x: System, t: nat, l: Place)
    requires x.Valid() && l.call < |x.calls| && InPlace(x, t, l)
    requires var o := OperationAt(x, t, l.call, l.op); OnPage(o) && IsAccess(o)
    ensures var o, p := OperationAt(x, t, l.call, l.op), l.call;
            && o.b == x.calls[p].buffer && o.g == x.Gen(p) && o.b < |x.producer| && o.b < |x.consumer|
            && t == (if o.Fill? then x.producer[o.b] else x.consumer[o.b])
            && Done(x, t, l, o.b) == p && x.InUse(o.b, p) == o.g && (Settled(x, p) ==> !x.Fresh(o.b, p))
  {
    hide System.Valid, Length, OperationAt, Done, System.InUse, System.Fresh, System.Gen, System.Opens, System.Allocs, System.CountIn, Copies;
    var o := OperationAt(x, t, l.call, l.op);
    OperationPage(x, t, l.call, l.op);
    RoleOperation(x, t, l, o.b);
    StepDone(x, t, l, o.b);
    MapsAreLast(x, t, l, o.b);
    CallGen(x, l.call);
    OwnInUse(x, o.b, l.call);
  }

  /** Fills address the page they mean, and so do fetches but for the first round of a
      generation that replaced another one. */
  lemma AccessMeant(x: System, s: State, t: nat)
    requires x.Valid() && Inv(x, s) && Active(x, s, t)
    requires var o := Current(x, s, t); OnPage(o) && (o.Fill? || (o.Fetch? && Settled(x, s.at[t].call)))
    ensures Addressed(s, t, Current(x, s, t)) == Own(Current(x, s, t))
  {
    hide System.Valid, OperationAt, InPlace, PageInv, BufferInv, Done, System.InUse, System.Fresh, Settled;
    assert InPlace(x, t, s.at[t]);
    AccessDone(x, t, s.at[t]);
    assert MapInv(x, s, Current(x, s, t).b);
  }
}
