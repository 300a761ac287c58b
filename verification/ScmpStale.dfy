// A consumer maps before its producer has replaced the allocation, and then reads the old one:
// exactly which maps and which rounds that can happen to.

module ScmpStale {
  import opened ScmpProgram
  import opened ScmpProtocol
  import opened ScmpMaps
  import opened ScmpRuns
  import opened ScmpProgress

  // ----- all tasks at the same call -----

  /** No task has begun call p. */
  ghost predicate Upto(s: State, p: nat) {
    forall t | t in s.at :: s.at[t].call < p || s.at[t] == Place(p, 0)
  }

  ghost predicate AllAt(s: State, p: nat) {
    forall t | t in s.at :: s.at[t] == Place(p, 0)
  }

  /** Everything written so far is the number of its generation. */
  ghost predicate Marked(s: State) {
    forall id: PageId, r: nat | (id, r) in s.written :: s.written[(id, r)] == id.1
  }

  /** The value for a step that keeps it so. */
  function Mark(o: Operation): int {
    if o.Fill? then o.g else 0
  }

  lemma MarkedStep(x: System, s: State, t: nat, r: nat, s': State)
    requires x.Valid() && Shaped(x, s) && Active(x, s, t) && StepTo(x, s, t, Mark(Current(x, s, t)), r, s') && Marked(s)
    ensures Marked(s')
  {
    hide System.Valid, OperationAt, IsPage, After, CurrentAfter, MappedAfter, TokensAfter, NextRound, Stored, Loaded;
    OperationPage(x, t, s.at[t].call, s.at[t].op);
  }

  lemma UptoStep(x: System, s: State, t: nat, s': State, p: nat)
    requires x.Valid() && Inv(x, s) && Active(x, s, t) && Upto(s, p) && s.at[t].call < p
    requires s'.at == s.at[t := After(x, t, s.at[t])]
    ensures Upto(s', p)
  {
    hide System.Valid, OperationAt, Inv;
  }

  /** One more step of some task that has not reached call p. */
  lemma OneOn(x: System, run: seq<State>, s: State, p: nat, t: nat) returns (u: nat, r: nat, s': State)
    requires x.Valid() && Reaches(x, run, s) && Upto(s, p) && Marked(s) && Active(x, s, t) && s.at[t].call < p
    ensures Enabled(x, s, u) && StepTo(x, s, u, Mark(Current(x, s, u)), r, s')
    ensures Reaches(x, run + [s'], s') && Inv(x, s) && Inv(x, s') && Upto(s', p) && Marked(s')
  {
    hide System.Valid, Inv, Init, Next, Enabled, StepTo, Marked, Upto, OperationAt;
    RunInv(x, run, s);
    var e := Earliest(x, s, t);
    u := SomeTaskSteps(x, s, e);
    EnabledActive(x, s, u);
    EarliestBefore(x, s, t, e);
    r, s' := CanStep(x, s, u, Mark(Current(x, s, u)));
    StepInv(x, s, u, Mark(Current(x, s, u)), r, s');
    InvShaped(x, s);
    MarkedStep(x, s, u, r, s');
    UptoStep(x, s, u, s', p);
  }

  lemma EnabledActive(x: System, s: State, t: nat)
    requires x.Valid() && Enabled(x, s, t)
    ensures Active(x, s, t)
  {
    hide System.Valid, OperationAt;
  }

  lemma InvShaped(x: System, s: State)
    requires x.Valid() && Inv(x, s)
    ensures Shaped(x, s)
  {
    hide System.Valid, Shaped;
  }

  lemma EarliestBefore(x: System, s: State, t: nat, e: nat)
    requires Active(x, s, t) && Active(x, s, e)
    requires forall v | v in s.at :: s.at[e].call <= s.at[v].call || !Active(x, s, v)
    ensures s.at[e].call <= s.at[t].call
  {
  }

  /** All tasks can be brought to the same call. */
  lemma {:induction false} Gather(x: System, run: seq<State>, s: State, p: nat) returns (full: seq<State>, end: State)
    requires x.Valid() && Reaches(x, run, s) && Upto(s, p) && Marked(s) && p <= |x.calls|
    ensures Reaches(x, full, end) && AllAt(end, p) && Marked(end)
    decreases Work(x, x.tasks) + 1 - |run|
  {
    hide System.Valid, Init, Next, Work, Marked, Enabled, StepTo, Inv;
    RunsEnd(x, run, s);
    full, end := run, s;
    if exists t: nat :: t in s.at && s.at[t].call < p {
      var t: nat :| t in s.at && s.at[t].call < p;
      var u, r, s' := OneOn(x, run, s, p, t);
      full, end := Gather(x, run + [s'], s', p);
    }
  }

  // ----- maps -----

  /** The generation that a map of buffer b gets. */
  function Gets(s: State, b: nat): nat {
    if b in s.current then s.current[b] else 0
  }

  /** In every run each map of call p gets the generation that its task means. */
  ghost predicate MapMeant(x: System, p: nat)
    requires x.Valid()
  {
    forall run: seq<State>, s: State, t: nat ::
      Reaches(x, run, s) && Enabled(x, s, t) && s.at[t].call == p && Current(x, s, t).Map? ==>
      Gets(s, Current(x, s, t).b) == Current(x, s, t).g
  }

  lemma AtReplacement(x: System, p: nat)
    requires x.Valid() && p < |x.calls| && x.Replaces(p)
    ensures var b := x.calls[p].buffer;
            && b < |x.producer| && b < |x.consumer| && x.pageSize > 0
            && OperationAt(x, x.consumer[b], p, 0) == Map(b, x.Gen(p))
            && CurrentAt(x, Place(p, 0), b) == x.Gen(p) - 1 > 0
  {
    hide System.Valid, System.Allocs, System.Pages;
    CallValid(x, p);
    LeadAtStart(x, p);
  }

  /** When all tasks have come to an allocation that replaces another one, the consumer's map
      gets the one to be replaced. */
  lemma MapsTooEarly(x: System, p: nat) returns (run: seq<State>, s: State)
    requires x.Valid() && p < |x.calls| && x.Replaces(p)
    ensures var b, g := x.calls[p].buffer, x.Gen(p);
            && b < |x.consumer| && Reaches(x, run, s) && Inv(x, s) && Marked(s) && AllAt(s, p)
            && Enabled(x, s, x.consumer[b]) && Current(x, s, x.consumer[b]) == Map(b, g)
            && Gets(s, b) == g - 1 > 0
  {
    hide System.Valid, System.Replaces, Init, PageInv, MapInv, InPlace, OperationAt, CurrentAt, System.Gen, Work, IsPage;
    var start := StartExists(x);
    assert Upto(start, p) && Marked(start) by { StartUpto(x, start, p); }
    run, s := Gather(x, [start], start, p);
    RunInv(x, run, s);
    var b := x.calls[p].buffer;
    AtReplacement(x, p);
    TasksDiffer(x, b);
    assert x.producer[b] in s.at && x.consumer[b] in s.at;
    assert BufferInv(x, s, b);
  }

  lemma StartUpto(x: System, s: State, p: nat)
    requires Init(x, s)
    ensures Upto(s, p) && Marked(s)
  {
    hide Shaped;
  }

  /** The maps of a call get what they mean in every run if and only if the call does not
      replace an allocation. */
  lemma MapMeantIff(x: System, p: nat)
    requires x.Valid() && p < |x.calls|
    ensures MapMeant(x, p) <==> !x.Replaces(p)
  {
    hide System.Valid, System.Replaces, Reaches, OperationAt, Inv;
    if x.Replaces(p) {
      var run, s := MapsTooEarly(x, p);
      var t := x.consumer[x.calls[p].buffer];
      assert s.at[t] == Place(p, 0);
      assert Reaches(x, run, s) && Enabled(x, s, t) && Current(x, s, t).Map?;
    } else {
      forall run: seq<State>, s: State, t: nat |
        Reaches(x, run, s) && Enabled(x, s, t) && s.at[t].call == p && Current(x, s, t).Map?
        ensures Gets(s, Current(x, s, t).b) == Current(x, s, t).g
      {
        MapsReachMeant(x, run, s, t);
      }
    }
  }

  /** In every run every map gets what it means, if and only if no buffer that has an allocation
      is allocated with another size. */
  lemma MapsMeantIff(x: System)
    requires x.Valid()
    ensures (forall p: nat | p < |x.calls| :: MapMeant(x, p)) <==> (forall p: nat | p < |x.calls| :: !x.Replaces(p))
  {
    hide System.Valid, System.Replaces, MapMeant;
    forall p: nat | p < |x.calls|
      ensures MapMeant(x, p) <==> !x.Replaces(p)
    {
      MapMeantIff(x, p);
    }
  }

  // ----- rounds -----

  /** What is read from page i through the pointer to the generation before g. */
  function OldValue(x: System, b: nat, g: nat, i: nat): int
    requires x.pageSize > 0 && g > 1
  {
    if i < x.Pages(b, g - 1) then g - 1 else 0
  }

  /** The consumer of buffer b has mapped in call p, too early, and has not yet read page i of
      generation g, or has read it from the generation before. */
  ghost predicate Stale(x: System, s: State, p: nat, g: nat, i: nat)
    requires x.Valid() && p < |x.calls| && g > 1 && Shaped(x, s)
  {
    CallValid(x, p);
    var b := x.calls[p].buffer;
    TasksDiffer(x, b);
    var c := s.at[x.consumer[b]];
    && (c.call > p || (c.call == p && c.op > 0))
    && (if Fetches(x, c, b, g, i) == 0 then s.mapped[(x.consumer[b], b)] == g - 1
        else ((b, g, i), 0) in s.fetched && s.fetched[((b, g, i), 0)] == OldValue(x, b, g, i))
    && (IsPageOf(x, b, g - 1, i) ==> s.memory[(b, g - 1, i)] == g - 1)
  }

  /** Between that map and the first copy of the generation the consumer keeps its pointer. */
  lemma NoMapBetween(x: System, p: nat, l: Place, b: nat, g: nat)
    requires x.Valid() && p < |x.calls| && x.calls[p].buffer == b && x.Opens(p) && x.Gen(p) == g
    requires l.call < |x.calls| && (l.call > p || (l.call == p && l.op > 0))
    requires Copies(x.CountIn(b, g, l.call)) == 0 && b < |x.consumer|
    ensures var o := OperationAt(x, x.consumer[b], l.call, l.op); !((o.Map? || o.Unmap?) && o.b == b)
  {
    hide System.Valid, System.Allocs, System.CountIn, System.Opens, System.IsOn, OperationAt, System.Pages, Length;
    CallValid(x, p);
    CallGen(x, p);
    MapsAreLast(x, x.consumer[b], l, b);
    if l.call == p {
      ConsumerAllocation(x, p, l.op);
    } else if x.calls[l.call].buffer == b {
      InFirstRound(x, p, l.call, b, g);
    }
  }

  lemma ConsumerAllocation(x: System, p: nat, i: nat)
    requires x.Valid() && p < |x.calls| && x.Opens(p) && i > 0
    ensures x.calls[p].buffer < |x.consumer| && OperationAt(x, x.consumer[x.calls[p].buffer], p, i) == Return
  {
    hide System.Valid, System.Pages, System.Gen;
    CallValid(x, p);
  }

  /** With no copy on the generation yet, the next call on the buffer is its first copy. */
  lemma InFirstRound(x: System, p: nat, q: nat, b: nat, g: nat)
    requires x.Valid() && p < q < |x.calls| && x.calls[p].buffer == x.calls[q].buffer == b && x.Opens(p) && x.Gen(p) == g
    requires Copies(x.CountIn(b, g, q)) == 0
    ensures x.calls[q].kind == Copy
  {
    hide System.Valid, System.Allocs, System.CountIn, System.Opens, System.IsOn, System.Recorded, System.Count;
    CallGen(x, p);
    NextCall(x, b, g, p);
    CountInGrows(x, b, g, p + 1, q);
    AllocsGrow(x, b, p + 1, q);
    KindInStep(x, b, q);
    if x.Allocs(b, q) > g {
      EarlierAreWhole(x, b, g, q);
    }
  }

  lemma StaleMemory(x: System, s: State, t: nat, r: nat, s': State, b: nat, h: nat, i: nat)
    requires x.Valid() && Shaped(x, s) && Shaped(x, s') && Active(x, s, t)
    requires StepTo(x, s, t, Mark(Current(x, s, t)), r, s')
    requires Addresses(x, s, t) && IsPageOf(x, b, h, i) && s.memory[(b, h, i)] == h
    ensures s'.memory[(b, h, i)] == h
  {
    hide System.Valid, OperationAt, IsPage, LogsMove, Settled;
    var u := StepLogs(x, s, t, Mark(Current(x, s, t)), r, s', b, h, i);
    LogsMoveMemory(s, s', Current(x, s, t), u, r, b, h, i);
  }

  lemma LogsMoveMemory(s: State, s': State, o: Operation, u: int, r: nat, b: nat, h: nat, i: nat)
    requires LogsMove(s, s', o, Mark(o), u, r, b, h, i) && s.memory[(b, h, i)] == h
    ensures s'.memory[(b, h, i)] == h
  {
  }

  lemma StaleLog(x: System, s: State, t: nat, r: nat, s': State, b: nat, g: nat, i: nat, n: nat)
    requires x.Valid() && Shaped(x, s) && Active(x, s, t) && StepTo(x, s, t, Mark(Current(x, s, t)), r, s')
    requires IsPageOf(x, b, g, i) && forall q: nat :: ((b, g, i), q) in s.fetched <==> q < n
    ensures var id, o := (b, g, i), Current(x, s, t);
            && (n > 0 ==> (id, 0) in s'.fetched && s'.fetched[(id, 0)] == s.fetched[(id, 0)])
            && (n == 0 && o == Fetch(b, g, i) ==>
                  (id, 0) in s'.fetched && s'.fetched[(id, 0)] == Loaded(s, Addressed(s, t, o), 0))
  {
    hide System.Valid, OperationAt, IsPage, After, CurrentAfter, MappedAfter, TokensAfter, Stored, Loaded, NextRound;
    var id, o := (b, g, i), Current(x, s, t);
    if o.Fetch? && Own(o) == id {
      NextRoundIs(s.fetched, id, r, n);
    }
  }

  /** The counts of the page as the consumer steps. */
  lemma StaleCounts(x: System, s: State, t: nat, b: nat, g: nat, i: nat)
    requires x.Valid() && Inv(x, s) && Active(x, s, t) && IsPageOf(x, b, g, i)
    ensures b < |x.consumer| && x.consumer[b] in s.at && s.at[x.consumer[b]].call <= |x.calls|
    ensures var c, o := s.at[x.consumer[b]], Current(x, s, t);
            var n := Fetches(x, c, b, g, i);
            && (forall q: nat :: ((b, g, i), q) in s.fetched <==> q < n)
            && (t == x.consumer[b] ==>
                  var m := After(x, t, c);
                  m.call <= |x.calls| && Fetches(x, m, b, g, i) == n + One(o == Fetch(b, g, i)))
            && (o == Fetch(b, g, i) ==> t == x.consumer[b])
  {
    hide System.Valid, OperationAt, BufferInv, MapInv, InPlace, TokensFollow, System.Pages, After;
    hide WriteWaits, Fills, ReadSends, ReadWaits, Fetches, WriteSends, Allocated;
    TasksDiffer(x, b);
    assert PageInv(x, s, b, g, i);
    RoleOperation(x, t, s.at[t], b);
    var p := s.at[x.producer[b]];
    if t == x.consumer[b] {
      ConsumerStep(x, s.at[t], p, b, g, i);
    }
  }

  /** One operation further the place is still beyond the map. */
  lemma StaleBeyond(x: System, t: nat, l: Place, p: nat)
    requires x.Valid() && l.call < |x.calls| && (l.call > p || (l.call == p && l.op > 0))
    ensures var m := After(x, t, l); m.call > p || (m.call == p && m.op > 0)
  {
    hide System.Valid, OperationAt;
  }

  lemma NoCopyYet(x: System, l: Place, b: nat, g: nat, i: nat)
    requires l.call <= |x.calls| && x.pageSize > 0 && Fetches(x, l, b, g, i) == 0
    ensures Copies(x.CountIn(b, g, l.call)) == 0
  {
    hide System.CountIn, System.IsOn, System.Pages, Copies;
  }

  lemma StaleStep(x: System, s: State, t: nat, r: nat, s': State, p: nat, b: nat, g: nat, i: nat)
    requires x.Valid() && p < |x.calls| && b == x.calls[p].buffer && g == x.Gen(p) > 1 && x.Opens(p)
    requires IsPageOf(x, b, g, i)
    requires Inv(x, s) && Enabled(x, s, t) && StepTo(x, s, t, Mark(Current(x, s, t)), r, s') && Inv(x, s')
    requires Stale(x, s, p, g, i)
    ensures Stale(x, s', p, g, i)
  {
    hide System.Valid, OperationAt, After, Fetches, StepTo, IsPage, Addresses, System.Gen, System.Opens, System.Pages, PageInv, BufferInv, MapInv, InPlace;
    CallValid(x, p);
    TasksDiffer(x, b);
    var u, o, l := x.consumer[b], Current(x, s, t), s.at[t];
    var c := s.at[u];
    StepAt(x, s, t, r, s');
    AllAddress(x, s, t);
    if IsPageOf(x, b, g - 1, i) {
      StaleMemory(x, s, t, r, s', b, g - 1, i);
    }
    StaleCounts(x, s, t, b, g, i);
    StaleLog(x, s, t, r, s', b, g, i, Fetches(x, c, b, g, i));
    StepPointer(x, s, t, Mark(o), r, s', u, b);
    if t == u {
      StaleBeyond(x, t, l, p);
      if Fetches(x, c, b, g, i) == 0 {
        NoCopyYet(x, c, b, g, i);
        NoMapBetween(x, p, l, b, g);
        if o == Fetch(b, g, i) {
          StaleLoad(x, s, t, b, g, i);
        }
      }
    }
  }

  lemma StepAt(x: System, s: State, t: nat, r: nat, s': State)
    requires x.Valid() && Active(x, s, t) && StepTo(x, s, t, Mark(Current(x, s, t)), r, s')
    ensures s'.at == s.at[t := After(x, t, s.at[t])]
  {
    hide System.Valid, OperationAt;
  }

  lemma StaleLoad(x: System, s: State, t: nat, b: nat, g: nat, i: nat)
    requires x.Valid() && Shaped(x, s) && IsPageOf(x, b, g, i) && g > 1
    requires (t, b) in s.mapped && s.mapped[(t, b)] == g - 1
    requires IsPageOf(x, b, g - 1, i) ==> s.memory[(b, g - 1, i)] == g - 1
    ensures Loaded(s, Addressed(s, t, Fetch(b, g, i)), 0) == OldValue(x, b, g, i)
  {
    hide System.Valid, System.Allocs, System.Pages;
    assert IsPage(x, (b, g - 1, i)) <==> (b, g - 1, i) in s.memory;
  }

  /** From there on every run can be completed without another map in time. */
  lemma {:induction false} GatherStale(x: System, run: seq<State>, s: State, p: nat, b: nat, g: nat, i: nat)
    returns (full: seq<State>, end: State)
    requires x.Valid() && p < |x.calls| && b == x.calls[p].buffer && g == x.Gen(p) > 1 && x.Opens(p)
    requires IsPageOf(x, b, g, i) && Reaches(x, run, s) && Inv(x, s) && Upto(s, |x.calls|) && Marked(s)
    requires Stale(x, s, p, g, i)
    ensures Reaches(x, full, end) && AllAt(end, |x.calls|) && Marked(end) && Inv(x, end) && Stale(x, end, p, g, i)
    decreases Work(x, x.tasks) + 1 - |run|
  {
    hide System.Valid, Init, Next, Work, Marked, Enabled, StepTo, Stale, System.Gen, System.Opens, IsPage, PageInv, BufferInv, MapInv, InPlace;
    RunsEnd(x, run, s);
    full, end := run, s;
    if exists t: nat :: t in s.at && s.at[t].call < |x.calls| {
      var t: nat :| t in s.at && s.at[t].call < |x.calls|;
      var u, r, s' := OneOn(x, run, s, |x.calls|, t);
      StaleStep(x, s, u, r, s', p, b, g, i);
      full, end := GatherStale(x, run + [s'], s', p, b, g, i);
    }
  }

  lemma InvUpto(x: System, s: State)
    requires x.Valid() && Inv(x, s)
    ensures Upto(s, |x.calls|)
  {
    hide System.Valid, PageInv, BufferInv, MapInv, Length, IsPage;
    forall t | t in s.at
      ensures s.at[t].call < |x.calls| || s.at[t] == Place(|x.calls|, 0)
    {
      assert InPlace(x, t, s.at[t]);
    }
  }

  /** At the replacing call every page of the generation before has been filled. */
  lemma OldFilled(x: System, s: State, p: nat, i: nat)
    requires x.Valid() && p < |x.calls| && x.Replaces(p) && Inv(x, s) && Marked(s) && AllAt(s, p)
    requires var b, g := x.calls[p].buffer, x.Gen(p); IsPageOf(x, b, g - 1, i)
    ensures var b, g := x.calls[p].buffer, x.Gen(p); (b, g - 1, i) in s.memory && s.memory[(b, g - 1, i)] == g - 1
  {
    hide System.Valid, System.Allocs, System.CountIn, System.Opens, BufferInv, MapInv, InPlace, TokensFollow, System.Pages, Copies;
    var b, h := x.calls[p].buffer, x.Gen(p) - 1;
    TasksDiffer(x, b);
    assert PageInv(x, s, b, h, i);
    assert s.at[x.producer[b]] == Place(p, 0);
    AtStart(x, p, b, h, i);
    ReplacedCopies(x, p, b, h);
  }

  lemma ReplacedCopies(x: System, p: nat, b: nat, h: nat)
    requires x.Valid() && p < |x.calls| && x.Replaces(p) && b == x.calls[p].buffer && h == x.Gen(p) - 1
    ensures Copies(x.CountIn(b, h, p)) > 0
  {
    hide System.Valid, System.Allocs, System.CountIn, System.Opens, System.Recorded, System.Count;
    GenIs(x, p);
    KindInStep(x, b, p);
    StaysInStep(x, b, p);
  }

  /** The first map that comes too early. */
  lemma StaleStart(x: System, p: nat, i: nat) returns (run: seq<State>, s: State)
    requires x.Valid() && p < |x.calls| && x.Replaces(p) && IsPageOf(x, x.calls[p].buffer, x.Gen(p), i) && x.Gen(p) > 1
    ensures Reaches(x, run, s) && Inv(x, s) && Upto(s, |x.calls|) && Marked(s) && Stale(x, s, p, x.Gen(p), i)
  {
    hide System.Valid, System.Replaces, Init, OperationAt, System.Gen, Reaches, Inv, StepTo, Marked, Fetches, AllAt;
    var b, g := x.calls[p].buffer, x.Gen(p);
    var early, q := MapsTooEarly(x, p);
    var c := x.consumer[b];
    EnabledActive(x, q, c);
    var r: nat;
    r, s := CanStep(x, q, c, 0);
    StepInv(x, q, c, 0, r, s);
    run := early + [s];
    assert Reaches(x, run, s) by { RunOn(x, early, q, s); }
    MarkedStep(x, q, c, r, s) by { InvShaped(x, q); }
    InvUpto(x, s);
    StaleNow(x, q, c, r, s, p, b, g, i);
  }

  lemma RunOn(x: System, run: seq<State>, s: State, s': State)
    requires x.Valid() && Reaches(x, run, s) && Next(x, s, s')
    ensures Reaches(x, run + [s'], s')
  {
    hide System.Valid, Init, Next;
  }

  lemma StaleNow(x: System, s: State, c: nat, r: nat, s': State, p: nat, b: nat, g: nat, i: nat)
    requires x.Valid() && p < |x.calls| && x.Replaces(p) && b == x.calls[p].buffer && g == x.Gen(p) > 1 && b < |x.consumer|
    requires IsPageOf(x, b, g, i) && c == x.consumer[b]
    requires Inv(x, s) && Marked(s) && AllAt(s, p) && Enabled(x, s, c) && Current(x, s, c) == Map(b, g) && Gets(s, b) == g - 1
    requires StepTo(x, s, c, 0, r, s') && Inv(x, s')
    ensures Stale(x, s', p, g, i)
  {
    hide System.Valid, System.Replaces, OperationAt, System.Gen, StepTo, Marked, Fetches, IsPage, PageInv, BufferInv, MapInv, InPlace, System.Pages;
    CallValid(x, p);
    TasksDiffer(x, b);
    assert c in s.at && s.at[c] == Place(p, 0);
    StepAt(x, s, c, r, s');
    StepPointer(x, s, c, 0, r, s', c, b);
    if IsPageOf(x, b, g - 1, i) {
      OldFilled(x, s, p, i);
      AllAddress(x, s, c);
      StaleMemory(x, s, c, r, s', b, g - 1, i);
    }
    NothingFetched(x, p, c, b, g, i);
  }

  lemma NothingFetched(x: System, p: nat, c: nat, b: nat, g: nat, i: nat)
    requires x.Valid() && p < |x.calls| && x.Replaces(p) && b == x.calls[p].buffer && g == x.Gen(p)
    requires OperationAt(x, c, p, 0) == Map(b, g) && IsPageOf(x, b, g, i)
    ensures After(x, c, Place(p, 0)) == Place(p, 1) && Fetches(x, Place(p, 1), b, g, i) == 0
  {
    hide System.Valid, System.Allocs, System.CountIn, System.IsOn, System.Pages, OperationAt;
    GenIs(x, p);
    LaterAreNone(x, b, g, p);
  }

  /** The call that opens a generation. */
  lemma {:induction false} OpeningCall(x: System, b: nat, g: nat, q: nat) returns (p: nat)
    requires x.Valid() && q <= |x.calls| && 0 < g <= x.Allocs(b, q)
    ensures p < q && x.calls[p].buffer == b && x.Opens(p) && x.Allocs(b, p) == g - 1 && x.Gen(p) == g
  {
    hide System.Valid, System.Opens;
    p := q - 1;
    if x.Allocs(b, p) >= g {
      p := OpeningCall(x, b, g, p);
    }
  }

  /** The first copy on an allocation that replaced another one can read the one replaced: in a
      complete run each page is read from it, where it had that page, and never the value written. */
  lemma WrongRound(x: System, b: nat, g: nat, i: nat) returns (run: seq<State>, s: State)
    requires x.Valid() && IsPageOf(x, b, g, i) && g > 1 && CopyCalls(x, b, g, |x.calls|) > 0
    ensures Reaches(x, run, s) && AllAt(s, |x.calls|)
    ensures var id := (b, g, i);
            && (id, 0) in s.written && s.written[(id, 0)] == g
            && (id, 0) in s.fetched && s.fetched[(id, 0)] == OldValue(x, b, g, i)
  {
    hide System.Valid, System.Allocs, System.CountIn, System.Opens, System.Gen, System.Pages, Init, CopyCalls, InPlace, PageInv, BufferInv, MapInv, Fetches;
    var p := OpeningCall(x, b, g, |x.calls|);
    var early, q := StaleStart(x, p, i);
    run, s := GatherStale(x, early, q, p, b, g, i);
    TasksDiffer(x, b);
    assert x.consumer[b] in s.at && s.at[x.consumer[b]] == Place(|x.calls|, 0);
    FetchesAtEnd(x, b, g, i);
    EveryRoundDelivered(x, run, s, b, g, i, 0);
  }

  lemma FetchesAtEnd(x: System, b: nat, g: nat, i: nat)
    requires x.Valid() && IsPageOf(x, b, g, i)
    ensures x.pageSize > 0 && Fetches(x, Place(|x.calls|, 0), b, g, i) == CopyCalls(x, b, g, |x.calls|)
  {
    hide System.Valid, System.CountIn, System.Allocs, System.Pages, CopyCalls, WriteWaits, Fills, ReadWaits, Fetches, WriteSends, Allocated;
    CountsAtEnd(x, b, g, i);
  }

  /** In every run whatever is read from the page in round r is what was written in it. */
  ghost predicate RoundRight(x: System, b: nat, g: nat, i: nat, r: nat)
    requires x.Valid()
  {
    forall run: seq<State>, s: State ::
      Reaches(x, run, s) && ((b, g, i), r) in s.fetched ==>
      ((b, g, i), r) in s.written && s.fetched[((b, g, i), r)] == s.written[((b, g, i), r)]
  }

  /** A round that takes place is right in every run if and only if it is on a buffer's first
      allocation, or not the first one on its allocation. */
  lemma RoundRightIff(x: System, b: nat, g: nat, i: nat, r: nat)
    requires x.Valid() && IsPageOf(x, b, g, i) && r < CopyCalls(x, b, g, |x.calls|)
    ensures RoundRight(x, b, g, i, r) <==> g == 1 || r > 0
  {
    hide System.Valid, Reaches, CopyCalls, IsPage, System.Pages;
    if g == 1 || r > 0 {
      forall run: seq<State>, s: State | Reaches(x, run, s) && ((b, g, i), r) in s.fetched
        ensures ((b, g, i), r) in s.written && s.fetched[((b, g, i), r)] == s.written[((b, g, i), r)]
      {
        FetchedIsWritten(x, run, s, b, g, i, r);
      }
    } else {
      LaterPage(x, b, g, i);
      var run, s := WrongRound(x, b, g, i);
      assert Reaches(x, run, s) && ((b, g, i), 0) in s.fetched;
    }
  }

  lemma LaterPage(x: System, b: nat, g: nat, i: nat)
    requires IsPageOf(x, b, g, i) && g != 1
    ensures g > 1
  {
    hide System.Allocs, System.Pages;
  }

  lemma {:induction false} CopiedIff(x: System, b: nat, g: nat, p: nat)
    requires p <= |x.calls|
    ensures CopyCalls(x, b, g, p) > 0 <==> exists q: nat :: q < p && IsCopy(x, b, g, q)
  {
    hide System.IsOn;
    if p > 0 {
      CopiedIff(x, b, g, p - 1);
      assert (exists q: nat :: q < p && IsCopy(x, b, g, q)) <==>
             IsCopy(x, b, g, p - 1) || exists q: nat :: q < p - 1 && IsCopy(x, b, g, q);
    }
  }

  predicate IsCopy(x: System, b: nat, g: nat, q: nat) {
    q < |x.calls| && x.IsOn(q, b, g) && x.calls[q].kind == Copy
  }

  /** In every run everything read is what was written in its round. */
  ghost predicate DataRight(x: System)
    requires x.Valid()
  {
    forall b: nat, g: nat, i: nat, r: nat | IsPageOf(x, b, g, i) :: RoundRight(x, b, g, i, r)
  }

  /** Rounds beyond the copies of the program do not take place. */
  lemma RoundTakesPlace(x: System, run: seq<State>, s: State, b: nat, g: nat, i: nat, r: nat)
    requires x.Valid() && Reaches(x, run, s) && IsPageOf(x, b, g, i) && ((b, g, i), r) in s.fetched
    ensures r < CopyCalls(x, b, g, |x.calls|)
  {
    hide System.Valid, CountsAt, Reaches, BufferInv, MapInv, InPlace, CopyCalls, TokensFollow, System.Pages, System.CountIn, Copies;
    RunInv(x, run, s);
    TasksDiffer(x, b);
    assert PageInv(x, s, b, g, i);
    var c := s.at[x.consumer[b]];
    FetchCount(x, s.at[x.producer[b]], c, b, g, i);
    SendsWithin(x, c, b, g, i);
    CopiesAreCalls(x, b, g, |x.calls|);
  }

  lemma FetchCount(x: System, p: Place, c: Place, b: nat, g: nat, i: nat)
    requires x.pageSize > 0 && p.call <= |x.calls| && c.call <= |x.calls| && IsPageOf(x, b, g, i)
    ensures CountsAt(x, p, c, b, g, i).g == ReadSends(x, c, b, g, i) && g > 0
  {
    hide WriteWaits, Fills, ReadSends, ReadWaits, WriteSends, Allocated, System.Allocs, System.Pages;
  }

  /** The data are right in every run if and only if no copy is on a buffer's second or later
      allocation. */
  lemma DataRightIff(x: System)
    requires x.Valid()
    ensures DataRight(x) <==> forall q: nat | q < |x.calls| && x.calls[q].kind == Copy :: x.Gen(q) == 1
  {
    hide System.Valid, Reaches, CopyCalls, IsPageOf, System.Gen, RoundRight, IsCopy;
    if forall q: nat | q < |x.calls| && x.calls[q].kind == Copy :: x.Gen(q) == 1 {
      forall b: nat, g: nat, i: nat, r: nat | IsPageOf(x, b, g, i)
        ensures RoundRight(x, b, g, i, r)
      {
        FirstOnly(x, b, g, i, r);
      }
    } else {
      var q: nat :| q < |x.calls| && x.calls[q].kind == Copy && x.Gen(q) != 1;
      var b, g := x.calls[q].buffer, x.Gen(q);
      CopyOfGen(x, q, b, g);
      CopiedIff(x, b, g, |x.calls|);
      RoundRightIff(x, b, g, 0, 0);
      assert !RoundRight(x, b, g, 0, 0);
    }
  }

  lemma CopyOfGen(x: System, q: nat, b: nat, g: nat)
    requires x.Valid() && q < |x.calls| && x.calls[q].kind == Copy && b == x.calls[q].buffer && g == x.Gen(q)
    ensures IsPageOf(x, b, g, 0) && IsCopy(x, b, g, q)
  {
    hide System.Valid, System.Allocs, System.Opens, System.Pages;
    CallValid(x, q);
    CallGen(x, q);
    AllocsGrow(x, b, q + 1, |x.calls|);
    FirstPage(x, b, g);
  }

  lemma FirstOnly(x: System, b: nat, g: nat, i: nat, r: nat)
    requires x.Valid() && IsPageOf(x, b, g, i)
    requires forall q: nat | q < |x.calls| && x.calls[q].kind == Copy :: x.Gen(q) == 1
    ensures RoundRight(x, b, g, i, r)
  {
    hide System.Valid, Reaches, CopyCalls, IsPageOf, System.Allocs, System.Opens;
    forall run: seq<State>, s: State | Reaches(x, run, s) && ((b, g, i), r) in s.fetched
      ensures ((b, g, i), r) in s.written && s.fetched[((b, g, i), r)] == s.written[((b, g, i), r)]
    {
      RoundTakesPlace(x, run, s, b, g, i, r);
      CopiedIff(x, b, g, |x.calls|);
      var q: nat :| q < |x.calls| && IsCopy(x, b, g, q);
      assert x.Gen(q) == 1;
      FetchedIsWritten(x, run, s, b, g, i, r);
    }
  }

  // ----- the smallest program -----

  /** One buffer, allocated with one page, then with three. */
  function ReplacingSystem(): System {
    System([Call(Malloc, 0, 3), Call(Copy, 0, 3), Call(Free, 0, 3), Call(Malloc, 0, 9), Call(Copy, 0, 9)], 2, [0], [1], 4)
  }

  lemma ReplacingValid()
    ensures ReplacingSystem().Valid()
  {
    var x := ReplacingSystem();
    assert x.Count(0, 0) == 0 && x.Count(0, 1) == 1 && x.Count(0, 2) == 2 && x.Count(0, 3) == 3 && x.Count(0, 4) == 4;
  }

  lemma ReplacingGens()
    ensures var x := ReplacingSystem(); x.Replaces(3) && x.Gen(3) == 2 && IsCopy(x, 0, 2, 4)
  {
    var x := ReplacingSystem();
    assert x.Recorded(0, 0) == 0 && x.Recorded(0, 1) == 3 && x.Recorded(0, 2) == 3 && x.Recorded(0, 3) == 3;
    assert x.Allocs(0, 0) == 0 && x.Allocs(0, 1) == 1 && x.Allocs(0, 2) == 1 && x.Allocs(0, 3) == 1 && x.Allocs(0, 4) == 2;
  }

  lemma ReplacingPages()
    ensures ReplacingSystem().Pages(0, 1) == 1
  {
    var x := ReplacingSystem();
    hide IsCopy;
    ReplacingGens();
    assert x.Recorded(0, 0) == 0 && x.Recorded(0, 1) == 3 && x.Allocs(0, 0) == 0 && x.Allocs(0, 1) == 1;
    SizeIsRecorded(x, 0, 1);
    SizeStays(x, 0, 1, 1, 5);
  }

  /** In it the consumer, task 1, can map generation 1 where it means generation 2, and in the
      end has read the value of generation 1 on page 0. */
  lemma ReplacingFails() returns (run: seq<State>, s: State, full: seq<State>, end: State)
    ensures var x := ReplacingSystem();
            && x.Valid() && Reaches(x, run, s) && Enabled(x, s, 1)
            && s.at[1] == Place(3, 0) && Current(x, s, 1) == Map(0, 2) && Gets(s, 0) == 1
            && Reaches(x, full, end) && ((0, 2, 0), 0) in end.written && end.written[((0, 2, 0), 0)] == 2
            && ((0, 2, 0), 0) in end.fetched && end.fetched[((0, 2, 0), 0)] == 1
  {
    hide System.Valid, System.Replaces, System.Gen, System.Allocs, System.Pages, Reaches, Inv, OperationAt, IsCopy, CopyCalls, Init, IsPage;
    var x := ReplacingSystem();
    ReplacingValid();
    ReplacingGens();
    ReplacingPages();
    run, s := MapsTooEarly(x, 3);
    EnabledActive(x, s, 1);
    CopiedIff(x, 0, 2, 5);
    ReplacingPage(x);
    full, end := WrongRound(x, 0, 2, 0);
  }

  lemma ReplacingPage(x: System)
    requires x.Valid() && |x.calls| == 5 && x.Gen(3) == 2 && x.calls[3].buffer == 0
    ensures IsPageOf(x, 0, 2, 0)
  {
    hide System.Valid, System.Allocs, System.Opens;
    CallValid(x, 3);
    CallGen(x, 3);
    AllocsGrow(x, 0, 4, 5);
    FirstPage(x, 0, 2);
  }
}
