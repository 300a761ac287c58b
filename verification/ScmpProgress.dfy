// The hand-off makes progress: it never deadlocks, every run ends, can always be completed,
// and then every round of every allocation has been handed over.

module ScmpProgress {
  import opened ScmpProgram
  import opened ScmpProtocol
  import opened ScmpMaps
  import opened ScmpRuns

  // ----- no deadlock -----

  /** An active task whose call comes no later than any other's. */
  lemma {:induction false} Earliest(x: System, s: State, t: nat) returns (u: nat)
    requires Active(x, s, t)
    ensures Active(x, s, u) && forall v | v in s.at :: s.at[u].call <= s.at[v].call || !Active(x, s, v)
    decreases s.at[t].call
  {
    if exists v :: Active(x, s, v) && s.at[v].call < s.at[t].call {
      var v :| Active(x, s, v) && s.at[v].call < s.at[t].call;
      u := Earliest(x, s, v);
    } else {
      u := t;
    }
  }

  /** A producer that waits for a page has sent it for reading once in each round so far, and
      the allocation it waits on is there. */
  lemma ProducerWaits(x: System, l: Place, b: nat, g: nat, i: nat)
    requires x.Valid() && l.call < |x.calls| && IsPageOf(x, b, g, i)
    requires OperationAt(x, x.producer[b], l.call, l.op) == WaitWrite(b, g, i)
    ensures CurrentAt(x, l, b) == g && Allocated(x, l, b, g)
    ensures WriteWaits(x, l, b, g, i) == Frees(x.CountIn(b, g, l.call))
  {
    hide System.Valid, System.Allocs, System.CountIn, System.IsOn, System.Opens, System.Gen, System.Pages, Lead, Mallocs, Copies, Frees;
    hide WriteWaits, CurrentAt, Allocated, Released, OperationAt, After;
    TasksDiffer(x, b);
    ProducerReaches(x, l, b);
    CurrentIff(x, l, b, g);
    ProducerStep(x, l, l, b, g, i);
    CallStanding(x, b, g, l.call);
    ElsewhereIs(x, x.producer[b], l, b, g, i);
    if Within(x, l, b, g, Copy) {
      OwnCopy(x, l, b, g, i);
    } else if Within(x, l, b, g, Free) {
      OwnFree(x, l, b, g, i);
    }
  }

  /** A task with an operation about a generation is in a call on it or in its replacement. */
  lemma ElsewhereIs(x: System, t: nat, l: Place, b: nat, g: nat, i: nat)
    requires x.Valid() && l.call < |x.calls| && IsAbout(OperationAt(x, t, l.call, l.op), b, g, i)
    ensures x.IsOn(l.call, b, g) || Closing(x, l, b, g)
  {
    hide System.Valid, System.IsOn, Closing, OperationAt;
    if !x.IsOn(l.call, b, g) && !Closing(x, l, b, g) {
      ElsewhereOperation(x, t, l, b, g, i);
    }
  }

  /** Whoever has reached call p has sent the pages back and forth once for each round before. */
  lemma SendsBefore(x: System, l: Place, b: nat, g: nat, i: nat, p: nat)
    requires x.Valid() && p <= l.call <= |x.calls|
    ensures WriteSends(x, l, b, g, i) >= Frees(x.CountIn(b, g, p)) && ReadSends(x, l, b, g, i) >= Copies(x.CountIn(b, g, p))
  {
    hide System.Valid, System.CountIn, System.Allocs, Frees, Copies;
    CountInGrows(x, b, g, p, l.call);
    CountsMonotone(x.CountIn(b, g, p), x.CountIn(b, g, l.call));
  }

  lemma WriteTokenIs(h: Tokens, k: Counts)
    requires TokensFollow(h, k) && k.al == 1 && k.ws >= k.ww
    ensures h.toWrite > 0
  {
  }

  /** The consumer has given back every page that a producer no further on waits for. */
  lemma WriteTokenThere(x: System, s: State, t: nat, b: nat, g: nat, i: nat)
    requires x.Valid() && Inv(x, s) && Active(x, s, t) && Current(x, s, t) == WaitWrite(b, g, i) && b < |x.consumer|
    requires x.consumer[b] in s.at && s.at[x.consumer[b]].call >= s.at[t].call
    ensures Enabled(x, s, t)
  {
    hide System.Valid, System.CountIn, OperationAt, LogsFollow, InPlace, TokensFollow, CountsAt, CurrentAt, Allocated;
    hide System.Allocs, System.Pages, WriteWaits, WriteSends, ReadSends, Frees, Copies;
    var l, c := s.at[t], s.at[x.consumer[b]];
    OperationPage(x, t, l.call, l.op);
    RoleOperation(x, t, l, b);
    ProducerWaits(x, l, b, g, i);
    SendsBefore(x, c, b, g, i, l.call);
    assert PageInv(x, s, b, g, i) && BufferInv(x, s, b);
    WriteCounts(x, l, c, b, g, i);
    WriteTokenIs(s.tokens[(b, g, i)], CountsAt(x, l, c, b, g, i));
  }

  lemma WriteCounts(x: System, p: Place, c: Place, b: nat, g: nat, i: nat)
    requires x.pageSize > 0 && p.call <= |x.calls| && c.call <= |x.calls| && Allocated(x, p, b, g)
    ensures var k := CountsAt(x, p, c, b, g, i);
            k.al == 1 && k.ww == WriteWaits(x, p, b, g, i) && k.ws == WriteSends(x, c, b, g, i)
  {
    hide WriteWaits, Fills, ReadSends, ReadWaits, Fetches, WriteSends, Allocated;
  }

  /** A consumer that waits for a page is in a copy, and has waited once in each round before. */
  lemma ConsumerWaits(x: System, l: Place, b: nat, g: nat, i: nat)
    requires x.Valid() && l.call < |x.calls| && IsPageOf(x, b, g, i) && b < |x.consumer|
    requires OperationAt(x, x.consumer[b], l.call, l.op) == WaitRead(b, g, i)
    ensures x.calls[l.call].kind == Copy && x.IsOn(l.call, b, g)
    ensures Copies(x.CountIn(b, g, l.call + 1)) == Copies(x.CountIn(b, g, l.call)) + 1
    ensures ReadWaits(x, l, b, g, i) == Copies(x.CountIn(b, g, l.call))
  {
    hide System.Valid, System.Allocs, System.CountIn, System.Opens, System.Gen, System.Pages, Lead, Mallocs, Copies, Frees;
    TasksDiffer(x, b);
    CallValid(x, l.call);
    CallStanding(x, b, g, l.call);
  }

  lemma ReadTokenIs(h: Tokens, k: Counts)
    requires TokensFollow(h, k) && k.rs > k.rw
    ensures h.toRead > 0
  {
  }

  lemma ReadCounts(x: System, p: Place, c: Place, b: nat, g: nat, i: nat)
    requires x.pageSize > 0 && p.call <= |x.calls| && c.call <= |x.calls|
    ensures var k := CountsAt(x, p, c, b, g, i); k.rs == ReadSends(x, p, b, g, i) && k.rw == ReadWaits(x, c, b, g, i)
  {
    hide WriteWaits, Fills, ReadSends, ReadWaits, Fetches, WriteSends, Allocated;
  }

  /** A producer past a call on a generation has allocated it. */
  lemma AllocatedBefore(x: System, p: Place, q: nat, b: nat, g: nat)
    requires x.Valid() && q < p.call <= |x.calls| && x.IsOn(q, b, g)
    ensures x.pageSize > 0 && Allocated(x, p, b, g)
  {
    hide System.Valid, System.Allocs, System.Opens, System.Gen;
    CallValid(x, q);
    CallGen(x, q);
    AllocsGrow(x, b, q + 1, p.call);
  }

  /** The producer has handed out every page that a consumer behind it waits for. */
  lemma ReadTokenThere(x: System, s: State, t: nat, b: nat, g: nat, i: nat)
    requires x.Valid() && Inv(x, s) && Active(x, s, t) && Current(x, s, t) == WaitRead(b, g, i) && b < |x.producer|
    requires x.producer[b] in s.at && s.at[x.producer[b]].call > s.at[t].call
    ensures Enabled(x, s, t)
  {
    hide System.Valid, System.CountIn, OperationAt, LogsFollow, InPlace, TokensFollow, CountsAt, CurrentAt, Allocated;
    hide System.Allocs, System.Pages, WriteWaits, WriteSends, ReadSends, ReadWaits, Frees, Copies, System.IsOn;
    var l, p := s.at[t], s.at[x.producer[b]];
    OperationPage(x, t, l.call, l.op);
    RoleOperation(x, t, l, b);
    ConsumerWaits(x, l, b, g, i);
    SendsBefore(x, p, b, g, i, l.call + 1);
    assert PageInv(x, s, b, g, i) && BufferInv(x, s, b);
    ReadCounts(x, p, l, b, g, i);
    ReadTokenIs(s.tokens[(b, g, i)], CountsAt(x, p, l, b, g, i));
    AllocatedBefore(x, p, l.call, b, g);
    ReachesOwn(x, p, l, b, g, i, s.tokens[(b, g, i)]);
  }

  lemma ReachesOwn(x: System, p: Place, c: Place, b: nat, g: nat, i: nat, h: Tokens)
    requires x.Valid() && p.call <= |x.calls| && c.call < |x.calls| && IsPageOf(x, b, g, i)
    requires IsUse(OperationAt(x, x.consumer[b], c.call, c.op), b, g, i)
    requires TokensFollow(h, CountsAt(x, p, c, b, g, i)) && Allocated(x, p, b, g)
    ensures CurrentAt(x, p, b) == g
  {
    hide System.Valid, OperationAt, CountsAt, CurrentAt, Allocated, Released, Closed;
    ConsumerReaches(x, p, c, b, g, i);
  }

  /** A consumer behind its producer finds its allocation to map. */
  lemma MapThere(x: System, s: State, t: nat, b: nat)
    requires x.Valid() && Inv(x, s) && Active(x, s, t) && Current(x, s, t).Map? && Current(x, s, t).b == b
    requires b < |x.producer| && b < |x.consumer| && t == x.consumer[b] && x.producer[b] in s.at
    requires s.at[x.producer[b]].call > s.at[t].call
    ensures Enabled(x, s, t)
  {
    hide System.Valid, OperationAt, LogsFollow, InPlace, TokensFollow, CountsAt, CurrentAt, Allocated, Released, MapInv, System.Replaces;
    var l, p, g := s.at[t], s.at[x.producer[b]], Current(x, s, t).g;
    OperationPage(x, t, l.call, l.op);
    FirstPage(x, b, g);
    assert PageInv(x, s, b, g, 0) && BufferInv(x, s, b);
    ConsumerMaps(x, p, l, b, g, s.tokens[(b, g, 0)]);
    MapperBehind(x, l, b, g);
    AllocatedBefore(x, p, l.call, b, g);
  }

  /** Where nothing is allocated in the consumer's own call, the producer is about to allocate. */
  lemma AboutToAllocate(x: System, l: Place, b: nat)
    requires x.Valid() && l.call < |x.calls| && b < |x.producer|
    requires x.calls[l.call].buffer == b && x.calls[l.call].kind == Malloc && CurrentAt(x, l, b) == 0
    ensures OperationAt(x, x.producer[b], l.call, l.op).Allocate?
  {
    hide System.Valid, System.Allocs, System.Opens, System.Pages, System.Gen, Lead, OperationAt;
    CallValid(x, l.call);
    GenIs(x, l.call);
    CallGen(x, l.call);
    LeadAtStart(x, l.call);
    if x.Opens(l.call) {
      OpeningStep(x, l, b, 1);
    }
  }

  /** The producer does not wait in a copy. */
  lemma ProducerCopies(x: System, b: nat, p: nat, i: nat)
    requires x.Valid() && p < |x.calls| && x.calls[p].kind == Copy && x.calls[p].buffer == b && b < |x.producer|
    ensures var o := OperationAt(x, x.producer[b], p, i); !o.WaitWrite? && !o.WaitRead? && !o.Map?
  {
    hide System.Valid, System.Allocs, System.Opens, System.Pages, System.Gen;
  }

  /** A map in the earliest call goes on, or else the producer's allocation does. */
  lemma MapperSteps(x: System, s: State, t: nat) returns (u: nat)
    requires x.Valid() && Inv(x, s) && Active(x, s, t) && Current(x, s, t).Map?
    requires forall v | v in s.at :: s.at[t].call <= s.at[v].call || !Active(x, s, v)
    ensures Enabled(x, s, u) && s.at[u].call == s.at[t].call
  {
    hide System.Valid, OperationAt, IsPage, PageInv, MapInv, InPlace, CurrentAt;
    var l, o, b := s.at[t], Current(x, s, t), Current(x, s, t).b;
    u := t;
    OperationPage(x, t, l.call, l.op);
    RoleOperation(x, t, l, b);
    TasksDiffer(x, b);
    MapsAreLast(x, t, l, b);
    assert x.producer[b] in s.at && BufferInv(x, s, b);
    if t == x.producer[b] {
      ProducerMaps(x, l, b);
    } else if s.at[x.producer[b]].call > l.call {
      MapThere(x, s, t, b);
    } else if s.current[b] == 0 {
      u := x.producer[b];
      assert s.at[u].call == l.call;
      AboutToAllocate(x, s.at[u], b);
      assert Current(x, s, u).Allocate?;
    } else {
      assert Enabled(x, s, t);
    }
  }

  /** Among tasks with calls left, the earliest can step, or the producer it reads from. */
  lemma SomeTaskSteps(x: System, s: State, t: nat) returns (u: nat)
    requires x.Valid() && Inv(x, s) && Active(x, s, t)
    requires forall v | v in s.at :: s.at[t].call <= s.at[v].call || !Active(x, s, v)
    ensures Enabled(x, s, u) && s.at[u].call == s.at[t].call
  {
    hide System.Valid, OperationAt, IsPage, PageInv, MapInv, InPlace, CurrentAt;
    u := t;
    var l := s.at[t];
    var o := Current(x, s, t);
    if o.WaitWrite? || o.WaitRead? || o.Map? {
      OperationPage(x, t, l.call, l.op);
      RoleOperation(x, t, l, o.b);
      TasksDiffer(x, o.b);
      assert x.producer[o.b] in s.at && x.consumer[o.b] in s.at;
      if o.WaitWrite? {
        WriteTokenThere(x, s, t, o.b, o.g, o.page);
      } else if o.Map? {
        u := MapperSteps(x, s, t);
      } else if s.at[x.producer[o.b]].call > l.call {
        ReadTokenThere(x, s, t, o.b, o.g, o.page);
      } else {
        ConsumerWaits(x, l, o.b, o.g, o.page);
        u := x.producer[o.b];
        ProducerCopies(x, o.b, l.call, s.at[u].op);
      }
    }
  }

  /** A task that may step has a step with any value: its round is the next one of the page. */
  lemma CanStep(x: System, s: State, t: nat, v: int) returns (r: nat, s': State)
    requires x.Valid() && Inv(x, s) && Enabled(x, s, t)
    ensures StepTo(x, s, t, v, r, s') && Next(x, s, s')
  {
    hide System.Valid, OperationAt, IsPage, BufferInv, MapInv, InPlace, TokensAfter, CurrentAfter, MappedAfter, After, CountsAt, Stored, Loaded;
    var o := Current(x, s, t);
    r := 0;
    if o.Fill? || o.Fetch? {
      OperationPage(x, t, s.at[t].call, s.at[t].op);
      var b := o.b;
      TasksDiffer(x, b);
      assert PageInv(x, s, b, o.g, o.page);
      var k := CountsAt(x, s.at[x.producer[b]], s.at[x.consumer[b]], b, o.g, o.page);
      r := if o.Fill? then k.f else k.g;
    }
    s' := State(s.at[t := After(x, t, s.at[t])], CurrentAfter(s, o), MappedAfter(s, t, o), TokensAfter(s, o),
                if o.Fill? then Stored(s, Addressed(s, t, o), v) else s.memory,
                if o.Fill? then s.written[(Own(o), r) := v] else s.written,
                if o.Fetch? then s.fetched[(Own(o), r) := Loaded(s, Addressed(s, t, o), v)] else s.fetched);
    assert StepTo(x, s, t, v, r, s');
  }

  /** The hand-off never deadlocks: while a task has calls left, some task can step. */
  lemma NeverStuck(x: System, run: seq<State>, s: State, t: nat)
    requires x.Valid() && Reaches(x, run, s) && Active(x, s, t)
    ensures exists s' :: Next(x, s, s')
  {
    hide System.Valid, Inv, Init, Reaches, Enabled, Next;
    RunInv(x, run, s);
    var e := Earliest(x, s, t);
    var u := SomeTaskSteps(x, s, e);
    var r, s' := CanStep(x, s, u, 0);
  }

  // ----- every run ends -----

  /** The operations of task t, returns included, in the calls before p. */
  function Before(x: System, t: nat, p: nat): nat
    requires x.Valid() && p <= |x.calls|
  {
    if p == 0 then 0 else Before(x, t, p - 1) + Length(x, t, p - 1) + 1
  }

  /** The operations that the first n tasks have performed, and those they perform in all. */
  ghost function Performed(x: System, s: State, n: nat): nat
    requires x.Valid() && Shaped(x, s) && n <= x.tasks
  {
    if n == 0 then 0 else Performed(x, s, n - 1) + Before(x, n - 1, s.at[n - 1].call) + s.at[n - 1].op
  }

  function Work(x: System, n: nat): nat
    requires x.Valid()
  {
    if n == 0 then 0 else Work(x, n - 1) + Before(x, n - 1, |x.calls|)
  }

  lemma {:induction false} StepPerformed(x: System, s: State, s': State, t: nat, n: nat)
    requires x.Valid() && Shaped(x, s) && Shaped(x, s') && Active(x, s, t) && InPlace(x, t, s.at[t]) && n <= x.tasks
    requires s'.at == s.at[t := After(x, t, s.at[t])]
    ensures Performed(x, s', n) == Performed(x, s, n) + One(t < n)
  {
    hide System.Valid, OperationAt, Length, InPlace, IsPage, After;
    if n > 0 {
      StepPerformed(x, s, s', t, n - 1);
      assert n - 1 in s.at;
      if t == n - 1 {
        StepIsOne(x, t, s.at[t]);
      }
    }
  }

  lemma StepIsOne(x: System, t: nat, l: Place)
    requires x.Valid() && l.call < |x.calls| && InPlace(x, t, l)
    ensures After(x, t, l).call <= |x.calls|
    ensures Before(x, t, After(x, t, l).call) + After(x, t, l).op == Before(x, t, l.call) + l.op + 1
  {
    hide System.Valid, OperationAt, Length;
    ReturnsAtLength(x, t, l.call, l.op);
  }

  lemma {:induction false} InitPerformed(x: System, s: State, n: nat)
    requires x.Valid() && Init(x, s) && n <= x.tasks
    ensures Performed(x, s, n) == 0
  {
    hide System.Valid, IsPage;
    if n > 0 {
      InitPerformed(x, s, n - 1);
      assert n - 1 in s.at;
    }
  }

  lemma NextPerformed(x: System, s: State, s': State)
    requires x.Valid() && Inv(x, s) && Next(x, s, s')
    ensures Shaped(x, s) && Shaped(x, s') && Performed(x, s', x.tasks) == Performed(x, s, x.tasks) + 1
  {
    hide System.Valid, OperationAt, Performed, PageInv, BufferInv, MapInv, StepTo, After, IsPage;
    var t: nat, v: int, r: nat :| Enabled(x, s, t) && StepTo(x, s, t, v, r, s');
    StepInv(x, s, t, v, r, s');
    StepPerformed(x, s, s', t, x.tasks);
  }

  /** A run has as many steps as operations have been performed. */
  lemma {:induction false} RunPerformed(x: System, run: seq<State>, s: State)
    requires x.Valid() && Reaches(x, run, s)
    ensures Shaped(x, s) && Performed(x, s, x.tasks) == |run| - 1
    decreases |run|
  {
    hide System.Valid, Init, Next, Performed, Inv, Shaped;
    var k := |run| - 1;
    if k == 0 {
      assert Shaped(x, s) by { StartShaped(x, s); }
      InitPerformed(x, s, x.tasks);
    } else {
      assert run[..k][k - 1] == run[k - 1];
      RunInv(x, run[..k], run[k - 1]);
      RunPerformed(x, run[..k], run[k - 1]);
      assert Next(x, run[k - 1], run[k]);
      NextPerformed(x, run[k - 1], run[k]);
    }
  }

  lemma StartShaped(x: System, s: State)
    requires Init(x, s)
    ensures Shaped(x, s)
  {
    hide Shaped;
  }

  lemma {:induction false} BeforeGrows(x: System, t: nat, l: Place)
    requires x.Valid() && l.call <= |x.calls| && InPlace(x, t, l)
    ensures Before(x, t, l.call) + l.op <= Before(x, t, |x.calls|)
    ensures Before(x, t, l.call) + l.op == Before(x, t, |x.calls|) <==> l.call == |x.calls|
    decreases |x.calls| - l.call
  {
    hide System.Valid, OperationAt, Length;
    if l.call < |x.calls| {
      BeforeGrows(x, t, Place(l.call + 1, 0));
    }
  }

  lemma {:induction false} PerformedWithinWork(x: System, s: State, n: nat)
    requires x.Valid() && Inv(x, s) && n <= x.tasks
    ensures Performed(x, s, n) <= Work(x, n)
    ensures Performed(x, s, n) == Work(x, n) <==> forall t: nat | t < n :: !Active(x, s, t)
  {
    hide System.Valid, Length, PageInv, BufferInv, InPlace, IsPage;
    if n > 0 {
      PerformedWithinWork(x, s, n - 1);
      assert InPlace(x, n - 1, s.at[n - 1]);
      BeforeGrows(x, n - 1, s.at[n - 1]);
      assert (forall t: nat | t < n :: !Active(x, s, t)) <==>
             (forall t: nat | t < n - 1 :: !Active(x, s, t)) && !Active(x, s, n - 1);
    }
  }

  /** Every run ends: it has at most Work steps, and the one that has them all is exactly the
      one in which every task has finished; no schedule can make the work longer. */
  lemma RunsEnd(x: System, run: seq<State>, s: State)
    requires x.Valid() && Reaches(x, run, s)
    ensures |run| - 1 <= Work(x, x.tasks)
    ensures |run| - 1 == Work(x, x.tasks) <==> forall t: nat | t < x.tasks :: !Active(x, s, t)
  {
    hide System.Valid, Inv, Performed, Work, Reaches, Shaped, Active;
    RunInv(x, run, s);
    RunPerformed(x, run, s);
    PerformedWithinWork(x, s, x.tasks);
  }

  /** Every run can be continued to a complete one. */
  lemma {:induction false} RunsComplete(x: System, run: seq<State>, s: State) returns (full: seq<State>, end: State)
    requires x.Valid() && Reaches(x, run, s)
    ensures run <= full && Reaches(x, full, end) && |full| - 1 == Work(x, x.tasks)
    ensures forall t: nat | t < x.tasks :: !Active(x, end, t)
    decreases Work(x, x.tasks) + 1 - |run|
  {
    hide System.Valid, Init, Next, Active, Work;
    RunsEnd(x, run, s);
    full, end := run, s;
    if exists t: nat :: t < x.tasks && Active(x, s, t) {
      var t: nat :| t < x.tasks && Active(x, s, t);
      NeverStuck(x, run, s, t);
      var s' :| Next(x, s, s');
      full, end := RunsComplete(x, run + [s'], s');
    }
  }

  /** The copies of generation g of buffer b among the first p calls. */
  function CopyCalls(x: System, b: nat, g: nat, p: nat): nat
    requires p <= |x.calls|
  {
    if p == 0 then 0 else CopyCalls(x, b, g, p - 1) + One(x.IsOn(p - 1, b, g) && x.calls[p - 1].kind == Copy)
  }

  lemma {:induction false} CopiesAreCalls(x: System, b: nat, g: nat, p: nat)
    requires x.Valid() && p <= |x.calls| && g > 0
    ensures Copies(x.CountIn(b, g, p)) == CopyCalls(x, b, g, p)
  {
    hide System.Valid, System.IsOn, System.Allocs, System.Opens, Mallocs, Frees;
    if p == 0 {
      assert x.CountIn(b, g, 0) == 0;
    } else {
      hide System.CountIn, Copies;
      CopiesAreCalls(x, b, g, p - 1);
      CallStanding(x, b, g, p - 1);
    }
  }

  /** The counts of a page when its two tasks are past all calls. */
  lemma CountsAtEnd(x: System, b: nat, g: nat, i: nat)
    requires x.Valid() && IsPageOf(x, b, g, i)
    ensures var l := Place(|x.calls|, 0);
            var k := CountsAt(x, l, l, b, g, i);
            k.f == k.g == CopyCalls(x, b, g, |x.calls|)
  {
    hide System.Valid, System.CountIn, System.Allocs, System.Pages, Copies, CopyCalls;
    AtStart(x, |x.calls|, b, g, i);
    CopiesAreCalls(x, b, g, |x.calls|);
  }

  lemma LogsAtEnd(s: State, id: PageId, k: Counts, n: nat)
    requires id in s.memory && LogsFollow(s, id, k) && k.f == k.g == n
    ensures forall r: nat :: ((id, r) in s.written <==> r < n) && ((id, r) in s.fetched <==> r < n)
    ensures forall r: nat | (id, r) in s.fetched && (id.1 == 1 || r > 0) :: s.fetched[(id, r)] == s.written[(id, r)]
  {
  }

  /** When every task has finished, every page of every allocation has been handed over once
      for each copy on it, with the value its producer wrote for that copy unless that was the
      first copy on an allocation that replaced another one. */
  lemma EveryRoundDelivered(x: System, run: seq<State>, s: State, b: nat, g: nat, i: nat, r: nat)
    requires x.Valid() && Reaches(x, run, s) && IsPageOf(x, b, g, i)
    requires forall t: nat | t < x.tasks :: !Active(x, s, t)
    ensures var id, n := (b, g, i), CopyCalls(x, b, g, |x.calls|);
            && ((id, r) in s.fetched <==> r < n) && ((id, r) in s.written <==> r < n)
            && ((id, r) in s.fetched && (g == 1 || r > 0) ==> s.fetched[(id, r)] == s.written[(id, r)])
  {
    hide System.Valid, CopyCalls, CountsAt, TokensFollow, LogsFollow, BufferInv, MapInv, Reaches, Length, System.Pages, System.Allocs;
    RunInv(x, run, s);
    TasksDiffer(x, b);
    var p, c, id := x.producer[b], x.consumer[b], (b, g, i);
    assert PageInv(x, s, b, g, i);
    assert !Active(x, s, p) && !Active(x, s, c) && InPlace(x, p, s.at[p]) && InPlace(x, c, s.at[c]);
    assert s.at[p] == s.at[c] == Place(|x.calls|, 0);
    CountsAtEnd(x, b, g, i);
    LogsAtEnd(s, id, CountsAt(x, s.at[p], s.at[c], b, g, i), CopyCalls(x, b, g, |x.calls|));
  }
}
