// What every run of the task clones keeps: the token of each page follows from the requests
// made on it, a consumer reads what was written in its round, and an allocation is released
// only while its producer holds all the pages.

module ScmpRuns {
  import opened ScmpProgram
  import opened ScmpProtocol
  import opened ScmpMaps

  // ----- the start -----

  lemma CountsAtStart(x: System, b: nat, g: nat, i: nat)
    requires x.Valid() && IsPageOf(x, b, g, i)
    ensures CountsAt(x, Place(0, 0), Place(0, 0), b, g, i) == Counts(0, 0, 0, 0, 0, 0, 0)
    ensures CurrentAt(x, Place(0, 0), b) == 0
  {
    assert x.CountIn(b, g, 0) == 0 && x.Allocs(b, 0) == 0;
    hide System.Valid, System.Pages, System.Allocs, System.CountIn, System.Opens;
    AtStart(x, 0, b, g, i);
    RoundsWhole(0);
  }

  lemma InitPage(x: System, s: State, b: nat, g: nat, i: nat)
    requires x.Valid() && Init(x, s) && IsPageOf(x, b, g, i)
    ensures PageInv(x, s, b, g, i)
  {
    hide System.Valid, CountsAt, CurrentAt, System.Pages;
    TasksDiffer(x, b);
    assert x.producer[b] in s.at && x.consumer[b] in s.at;
    assert (b, g, i) in s.tokens && (b, g, i) in s.memory;
    CountsAtStart(x, b, g, i);
  }

  lemma InitBuffer(x: System, s: State, b: nat)
    requires x.Valid() && Init(x, s) && b < |x.producer|
    ensures BufferInv(x, s, b)
  {
    assert x.Allocs(b, 0) == 0;
    hide System.Valid, System.Allocs, System.Opens, System.Pages;
    TasksDiffer(x, b);
    assert x.producer[b] in s.at && b in s.current;
  }

  lemma InitMaps(x: System, s: State, b: nat)
    requires x.Valid() && Init(x, s) && b < |x.producer|
    ensures MapInv(x, s, b)
  {
    assert x.Count(b, 0) == 0;
    assert x.InUse(b, 0) == 0;
    hide System.Valid, System.InUse, System.Fresh, Length, IsPage;
    TasksDiffer(x, b);
    var p, c := x.producer[b], x.consumer[b];
    assert p in s.at && c in s.at && (p, b) in s.mapped && (c, b) in s.mapped;
    InitDone(x, p, b);
    InitDone(x, c, b);
  }

  lemma InitDone(x: System, t: nat, b: nat)
    requires x.Valid() && b < |x.producer| && b < |x.consumer| && (t == x.producer[b] || t == x.consumer[b])
    ensures Done(x, t, Place(0, 0), b) == 0
  {
    hide System.Valid, Length, OperationAt;
    if |x.calls| > 0 {
      MapsAreLast(x, t, Place(0, 0), b);
    }
  }

  lemma InitInv(x: System, s: State)
    requires x.Valid() && Init(x, s)
    ensures Inv(x, s)
  {
    hide System.Valid, Length, BufferInv, PageInv, MapInv;
    forall b: nat | b < |x.producer| ensures BufferInv(x, s, b) && MapInv(x, s, b) {
      InitBuffer(x, s, b);
      InitMaps(x, s, b);
    }
    forall b: nat, g: nat, i: nat | IsPageOf(x, b, g, i) ensures PageInv(x, s, b, g, i) {
      InitPage(x, s, b, g, i);
    }
  }

  // ----- one step -----

  /** The tokens of a page after an operation that reaches the page it means. */
  function Handed(h: Tokens, o: Operation, b: nat, g: nat, i: nat): Tokens {
    if o == Allocate(b, g) then Tokens(1, 0, 0, 0)
    else
      Tokens(h.toWrite - One(o == WaitWrite(b, g, i)) + One(o == SendWrite(b, g, i)),
             h.writing - One(o == SendRead(b, g, i)) + One(o == WaitWrite(b, g, i)),
             h.toRead - One(o == WaitRead(b, g, i)) + One(o == SendRead(b, g, i)),
             h.reading - One(o == SendWrite(b, g, i)) + One(o == WaitRead(b, g, i)))
  }

  lemma AfterCall(x: System, t: nat, l: Place)
    requires x.Valid() && l.call < |x.calls| && l.op <= Length(x, t, l.call)
    ensures After(x, t, l).call <= |x.calls| && InPlace(x, t, After(x, t, l))
  {
    hide System.Valid, Length, OperationAt;
    ReturnsAtLength(x, t, l.call, l.op);
  }

  lemma StepShape(x: System, s: State, t: nat, v: int, r: nat, s': State)
    requires x.Valid() && Shaped(x, s) && Active(x, s, t) && StepTo(x, s, t, v, r, s')
    requires ReachesMeant(s, Current(x, s, t))
    ensures Shaped(x, s')
  {
    hide System.Valid, OperationAt, IsPage;
    OperationPage(x, t, s.at[t].call, s.at[t].op);
  }

  lemma StepBuffer(x: System, s: State, t: nat, v: int, r: nat, s': State, b: nat)
    requires x.Valid() && Shaped(x, s) && Shaped(x, s') && Active(x, s, t) && StepTo(x, s, t, v, r, s')
    requires b < |x.producer| && BufferInv(x, s, b)
    ensures BufferInv(x, s', b)
  {
    hide System.Valid, OperationAt, After, TokensAfter, CurrentAt, IsPage;
    TasksDiffer(x, b);
    RoleOperation(x, t, s.at[t], b);
    if t == x.producer[b] {
      CurrentStep(x, s.at[t], b, 1);
    }
  }

  lemma StepTokens(x: System, s: State, t: nat, v: int, r: nat, s': State, b: nat, g: nat, i: nat)
    requires x.Valid() && Shaped(x, s) && Active(x, s, t) && StepTo(x, s, t, v, r, s')
    requires ReachesMeant(s, Current(x, s, t)) && IsPageOf(x, b, g, i)
    ensures (b, g, i) in s'.tokens && s'.tokens[(b, g, i)] == Handed(s.tokens[(b, g, i)], Current(x, s, t), b, g, i)
  {
    hide System.Valid, OperationAt, IsPage, After, CurrentAfter;
    OperationPage(x, t, s.at[t].call, s.at[t].op);
  }

  lemma TokensKept(h: Tokens, k: Counts, o: Operation, b: nat, g: nat, i: nat)
    requires TokensFollow(h, k) && Standing(k, o, b, g, i)
    requires (o == WaitWrite(b, g, i) ==> h.toWrite > 0) && (o == WaitRead(b, g, i) ==> h.toRead > 0)
    ensures TokensFollow(Handed(h, o, b, g, i), Counted(k, o, b, g, i))
  {
  }

  ghost predicate SameLog(m: map<(PageId, nat), int>, m': map<(PageId, nat), int>, id: PageId) {
    forall r: nat :: ((id, r) in m' <==> (id, r) in m) && ((id, r) in m ==> m'[(id, r)] == m[(id, r)])
  }

  /** Every access that must address the page it means does. */
  ghost predicate Addresses(x: System, s: State, t: nat)
    requires x.Valid() && Active(x, s, t)
  {
    var o := Current(x, s, t);
    o.Fill? || (o.Fetch? && Settled(x, s.at[t].call)) ==> Addressed(s, t, o) == Own(o)
  }

  /** Only a fill or a fetch of a page changes its memory or its logs, and adds one entry: the
      value v filled or the value u fetched. */
  ghost predicate LogsMove(s: State, s': State, o: Operation, v: int, u: int, r: nat, b: nat, g: nat, i: nat) {
    var id := (b, g, i);
    && id in s.memory && id in s'.memory
    && s'.memory[id] == (if o == Fill(b, g, i) then v else s.memory[id])
    && (if o == Fill(b, g, i) then NextRound(s.written, id, r) && s'.written == s.written[(id, r) := v]
        else SameLog(s.written, s'.written, id))
    && (if o == Fetch(b, g, i) then NextRound(s.fetched, id, r) && s'.fetched == s.fetched[(id, r) := u]
        else SameLog(s.fetched, s'.fetched, id))
  }

  lemma StepLogs(x: System, s: State, t: nat, v: int, r: nat, s': State, b: nat, g: nat, i: nat) returns (u: int)
    requires x.Valid() && Shaped(x, s) && Active(x, s, t) && StepTo(x, s, t, v, r, s')
    requires Addresses(x, s, t) && IsPageOf(x, b, g, i)
    ensures LogsMove(s, s', Current(x, s, t), v, u, r, b, g, i)
    ensures Current(x, s, t) == Fetch(b, g, i) && Settled(x, s.at[t].call) ==> u == s.memory[(b, g, i)]
  {
    hide System.Valid, OperationAt, IsPage, After, CurrentAfter, MappedAfter, TokensAfter, NextRound, Settled;
    var o := Current(x, s, t);
    u := if o.Fetch? then Loaded(s, Addressed(s, t, o), v) else 0;
    OperationPage(x, t, s.at[t].call, s.at[t].op);
  }

  lemma NextRoundIs(log: map<(PageId, nat), int>, id: PageId, r: nat, n: nat)
    requires NextRound(log, id, r) && forall q: nat :: (id, q) in log <==> q < n
    ensures r == n
  {
    assert r < n ==> (id, r) in log;
    assert n < r ==> (id, n) in log;
  }

  lemma LogsKept(s: State, s': State, k: Counts, o: Operation, v: int, u: int, r: nat, b: nat, g: nat, i: nat)
    requires LogsMove(s, s', o, v, u, r, b, g, i) && LogsFollow(s, (b, g, i), k)
    requires k.rw <= k.rs && k.ww <= k.ws + 1 && Ordered(k) && Standing(k, o, b, g, i)
    requires o == Fetch(b, g, i) && (g == 1 || k.g > 0) ==> u == s.memory[(b, g, i)]
    ensures (b, g, i) in s'.memory && LogsFollow(s', (b, g, i), Counted(k, o, b, g, i))
  {
    hide NextRound;
    var n := Counted(k, o, b, g, i);
    if o == Fill(b, g, i) {
      NextRoundIs(s.written, (b, g, i), r, k.f);
      assert n.f == k.f + 1 && n.g == k.g;
    } else if o == Fetch(b, g, i) {
      NextRoundIs(s.fetched, (b, g, i), r, k.g);
      assert n.f == k.f == k.g + 1 == n.g;
    } else {
      assert n.f == k.f && n.g == k.g;
    }
  }

  lemma EnoughSent(h: Tokens, k: Counts)
    requires TokensFollow(h, k) && k.al <= 1
    ensures k.rw <= k.rs && k.ww <= k.ws + 1
  {
  }

  lemma PageStep(x: System, s: State, t: nat, v: int, r: nat, s': State, b: nat, g: nat, i: nat, k: Counts)
    requires x.Valid() && Shaped(x, s) && Enabled(x, s, t) && StepTo(x, s, t, v, r, s')
    requires ReachesMeant(s, Current(x, s, t)) && Addresses(x, s, t) && IsPageOf(x, b, g, i)
    requires Current(x, s, t) == Fetch(b, g, i) && (g == 1 || k.g > 0) ==> Settled(x, s.at[t].call)
    requires TokensFollow(s.tokens[(b, g, i)], k) && LogsFollow(s, (b, g, i), k)
    requires k.al <= 1 && Ordered(k) && Standing(k, Current(x, s, t), b, g, i)
    ensures (b, g, i) in s'.tokens && (b, g, i) in s'.memory
    ensures var n := Counted(k, Current(x, s, t), b, g, i);
            TokensFollow(s'.tokens[(b, g, i)], n) && LogsFollow(s', (b, g, i), n)
  {
    hide System.Valid, OperationAt, IsPage, StepTo, Settled, Addresses;
    hide TokensFollow, LogsFollow, Ordered, Standing, Counted, Handed, LogsMove;
    var o, id := Current(x, s, t), (b, g, i);
    EnoughSent(s.tokens[id], k);
    StepTokens(x, s, t, v, r, s', b, g, i);
    TokensKept(s.tokens[id], k, o, b, g, i);
    var u := StepLogs(x, s, t, v, r, s', b, g, i);
    LogsKept(s, s', k, o, v, u, r, b, g, i);
  }

  lemma StepPage(x: System, s: State, t: nat, v: int, r: nat, s': State, b: nat, g: nat, i: nat)
    requires x.Valid() && Inv(x, s) && Enabled(x, s, t) && StepTo(x, s, t, v, r, s') && Shaped(x, s')
    requires ReachesMeant(s, Current(x, s, t)) && Addresses(x, s, t) && IsPageOf(x, b, g, i)
    ensures PageInv(x, s', b, g, i)
  {
    hide System.Valid, OperationAt, CountsAt, Counted, After, TokensFollow, LogsFollow, Ordered, Standing, ReachesMeant, BufferInv, InPlace;
    hide Addresses, Settled, MapInv;
    TasksDiffer(x, b);
    var p, c := s.at[x.producer[b]], s.at[x.consumer[b]];
    var k := CountsAt(x, p, c, b, g, i);
    assert PageInv(x, s, b, g, i);
    CountsStep(x, t, s.at[t], p, c, b, g, i);
    CountsOrdered(x, p, c, b, g, i);
    AllocatedOnce(x, p, c, b, g, i);
    if Current(x, s, t) == Fetch(b, g, i) {
      FetchSettled(x, t, s.at[t], p, b, g, i);
    }
    PageStep(x, s, t, v, r, s', b, g, i, k);
  }

  /** The fetches of a page so far tell whether the round is the first of its generation. */
  lemma FetchSettled(x: System, t: nat, c: Place, p: Place, b: nat, g: nat, i: nat)
    requires x.Valid() && c.call < |x.calls| && p.call <= |x.calls| && IsPageOf(x, b, g, i)
    requires OperationAt(x, t, c.call, c.op) == Fetch(b, g, i)
    ensures b < |x.consumer| && t == x.consumer[b] && CountsAt(x, p, c, b, g, i).g == RoundsBefore(x, c.call)
    ensures g == 1 || RoundsBefore(x, c.call) > 0 ==> Settled(x, c.call)
  {
    hide System.Valid, System.Allocs, System.CountIn, System.IsOn, System.Opens, System.Gen, System.Pages, Lead, Copies;
    hide WriteWaits, Fills, ReadWaits, WriteSends, Allocated;
    CallValid(x, c.call);
  }

  lemma AllocatedOnce(x: System, p: Place, c: Place, b: nat, g: nat, i: nat)
    requires p.call <= |x.calls| && c.call <= |x.calls| && x.pageSize > 0
    ensures CountsAt(x, p, c, b, g, i).al <= 1
  {
    hide WriteWaits, Fills, ReadSends, ReadWaits, Fetches, WriteSends, Allocated;
  }

  lemma StepInv(x: System, s: State, t: nat, v: int, r: nat, s': State)
    requires x.Valid() && Inv(x, s) && Enabled(x, s, t) && StepTo(x, s, t, v, r, s')
    ensures Inv(x, s') && s'.at == s.at[t := After(x, t, s.at[t])]
  {
    hide System.Valid, OperationAt, After, BufferInv, MapInv, PageInv, InPlace, TokensAfter, CurrentAfter, MappedAfter, ReachesMeant, Settled;
    Meant(x, s, t);
    assert Addresses(x, s, t) by { AllAddress(x, s, t); }
    StepShape(x, s, t, v, r, s');
    StepPlaces(x, s, t);
    forall b: nat | b < |x.producer| ensures BufferInv(x, s', b) && MapInv(x, s', b) {
      assert BufferInv(x, s, b);
      StepBuffer(x, s, t, v, r, s', b);
      MapStep(x, s, t, v, r, s', b);
    }
    forall b: nat, g: nat, i: nat | IsPageOf(x, b, g, i) ensures PageInv(x, s', b, g, i) {
      StepPage(x, s, t, v, r, s', b, g, i);
    }
  }

  lemma AllAddress(x: System, s: State, t: nat)
    requires x.Valid() && Inv(x, s) && Active(x, s, t)
    ensures Addresses(x, s, t)
  {
    hide System.Valid, OperationAt, Inv, Settled;
    var o := Current(x, s, t);
    if o.Fill? || (o.Fetch? && Settled(x, s.at[t].call)) {
      AccessMeant(x, s, t);
    }
  }

  lemma StepPlaces(x: System, s: State, t: nat)
    requires x.Valid() && Inv(x, s) && Active(x, s, t)
    ensures After(x, t, s.at[t]).call <= |x.calls| && InPlace(x, t, After(x, t, s.at[t]))
  {
    hide System.Valid, After, Length, BufferInv, PageInv;
    AfterCall(x, t, s.at[t]);
  }

  lemma NextInv(x: System, s: State, s': State)
    requires x.Valid() && Inv(x, s) && Next(x, s, s')
    ensures Inv(x, s')
  {
    hide System.Valid, Inv, StepTo, OperationAt, IsPage;
    var t: nat, v: int, r: nat :| Enabled(x, s, t) && StepTo(x, s, t, v, r, s');
    StepInv(x, s, t, v, r, s');
  }

  // ----- every run -----

  /** A finite run: the states from an initial one, each a step of some task from the last. */
  ghost predicate IsRun(x: System, run: seq<State>)
    requires x.Valid()
  {
    && |run| > 0
    && Init(x, run[0])
    && forall k | 0 < k < |run| :: Next(x, run[k - 1], run[k])
  }

  ghost predicate Reaches(x: System, run: seq<State>, s: State)
    requires x.Valid()
  {
    IsRun(x, run) && s == run[|run| - 1]
  }

  lemma {:induction false} RunInv(x: System, run: seq<State>, s: State)
    requires x.Valid() && Reaches(x, run, s)
    ensures Inv(x, s)
    decreases |run|
  {
    hide Inv, Next, Init, System.Valid;
    var k := |run| - 1;
    if k == 0 {
      InitInv(x, run[0]);
    } else {
      assert Next(x, run[k - 1], run[k]);
      assert run[..k][k - 1] == run[k - 1];
      RunInv(x, run[..k], run[k - 1]);
      NextInv(x, run[k - 1], run[k]);
    }
  }

  // ----- what every run keeps -----

  /** In every reachable state a page request that can be carried out reaches the allocation
      that its task means, and so does a release, although they only name the buffer: neither one
      that was released nor one that came later. */
  lemma RequestsReachMeant(x: System, run: seq<State>, s: State, t: nat)
    requires x.Valid() && Reaches(x, run, s) && Enabled(x, s, t)
    ensures ReachesMeant(s, Current(x, s, t))
  {
    hide System.Valid, Inv, Reaches, Enabled, ReachesMeant;
    RunInv(x, run, s);
    Meant(x, s, t);
  }

  /** So does every map of a producer, and every map of a consumer in an allocation that does
      not replace another one. */
  lemma MapsReachMeant(x: System, run: seq<State>, s: State, t: nat)
    requires x.Valid() && Reaches(x, run, s) && Enabled(x, s, t) && Current(x, s, t).Map?
    ensures var o := Current(x, s, t);
            && o.b < |x.producer| && o.b in s.current
            && (t == x.producer[o.b] || !x.Replaces(s.at[t].call) ==> s.current[o.b] == o.g)
  {
    hide System.Valid, OperationAt, Reaches, PageInv, InPlace, IsPage, MapInv, CurrentAt, System.Replaces;
    RunInv(x, run, s);
    var o := Current(x, s, t);
    OperationPage(x, t, s.at[t].call, s.at[t].op);
    TasksDiffer(x, o.b);
    RoleOperation(x, t, s.at[t], o.b);
    if t == x.producer[o.b] {
      assert BufferInv(x, s, o.b);
      ProducerMaps(x, s.at[t], o.b);
    } else if !x.Replaces(s.at[t].call) {
      MapIsMeant(x, s, o.b);
    }
  }

  lemma HoldsToken(h: Tokens, k: Counts)
    requires TokensFollow(h, k) && k.al <= 1
    ensures h.toWrite >= 0 && h.writing >= 0 && h.toRead >= 0 && h.reading >= 0
    ensures h.toWrite + h.writing + h.toRead + h.reading == k.al
  {
  }

  /** In every reachable state each page of the current allocation has exactly one token, and no
      other page has more than one, so none is held for writing and for reading at once. */
  lemma OneTokenPerPage(x: System, run: seq<State>, s: State, b: nat, g: nat, i: nat)
    requires x.Valid() && Reaches(x, run, s) && IsPageOf(x, b, g, i)
    ensures && (b, g, i) in s.tokens && b in s.current
            && var h := s.tokens[(b, g, i)];
               && h.toWrite >= 0 && h.writing >= 0 && h.toRead >= 0 && h.reading >= 0
               && h.toWrite + h.writing + h.toRead + h.reading <= 1
               && (s.current[b] == g ==> h.toWrite + h.writing + h.toRead + h.reading == 1)
  {
    hide System.Valid, Reaches, CurrentAt, TokensFollow, LogsFollow, InPlace;
    RunInv(x, run, s);
    TasksDiffer(x, b);
    assert PageInv(x, s, b, g, i) && BufferInv(x, s, b);
    var p, c := s.at[x.producer[b]], s.at[x.consumer[b]];
    AllocatedOnce(x, p, c, b, g, i);
    HoldsToken(s.tokens[(b, g, i)], CountsAt(x, p, c, b, g, i));
    CurrentIff(x, p, b, g);
  }

  /** Where the counts of page i stand for the operation that some task is at. */
  lemma TaskStanding(x: System, s: State, t: nat, b: nat, g: nat, i: nat) returns (k: Counts)
    requires x.Valid() && Inv(x, s) && Active(x, s, t) && IsPageOf(x, b, g, i)
    ensures TokensFollow(s.tokens[(b, g, i)], k) && Ordered(k) && k.al <= 1
    ensures Standing(k, Current(x, s, t), b, g, i)
  {
    hide System.Valid, OperationAt, CountsAt, Counted, TokensFollow, LogsFollow, Ordered, Standing, BufferInv, InPlace;
    TasksDiffer(x, b);
    assert PageInv(x, s, b, g, i);
    var p, c := s.at[x.producer[b]], s.at[x.consumer[b]];
    k := CountsAt(x, p, c, b, g, i);
    CountsStep(x, t, s.at[t], p, c, b, g, i);
    CountsOrdered(x, p, c, b, g, i);
    AllocatedOnce(x, p, c, b, g, i);
  }

  /** A page is filled only while its producer holds its token for writing and fetched only
      while its consumer holds it for reading, in the current allocation. A fill addresses the
      page that it holds; a fetch does but for the first round of a generation that replaced
      another one. */
  lemma UsedWhileHeld(x: System, run: seq<State>, s: State, t: nat)
    requires x.Valid() && Reaches(x, run, s) && Active(x, s, t)
    ensures var o := Current(x, s, t);
            && (o.Fill? ==> (o.b, o.g, o.page) in s.tokens && s.tokens[(o.b, o.g, o.page)] == Tokens(0, 1, 0, 0))
            && (o.Fetch? ==> (o.b, o.g, o.page) in s.tokens && s.tokens[(o.b, o.g, o.page)] == Tokens(0, 0, 0, 1))
            && (o.Fill? || o.Fetch? ==> o.b in s.current && s.current[o.b] == o.g)
            && (o.Fill? || (o.Fetch? && Settled(x, s.at[t].call)) ==> Addressed(s, t, o) == Own(o))
  {
    hide System.Valid, OperationAt, IsPage, Reaches, BufferInv, PageInv, MapInv, InPlace, Settled;
    RunInv(x, run, s);
    var o := Current(x, s, t);
    OperationPage(x, t, s.at[t].call, s.at[t].op);
    if o.Fill? || o.Fetch? {
      var k := TaskStanding(x, s, t, o.b, o.g, o.page);
      Meant(x, s, t);
      AllAddress(x, s, t);
    }
  }

  /** An allocation is released only while its producer holds every one of its pages: no
      consumer holds one, none waits to be read, and everything sent has come back. */
  lemma ReleasedWhileHeld(x: System, run: seq<State>, s: State, t: nat, i: nat)
    requires x.Valid() && Reaches(x, run, s) && Active(x, s, t) && Current(x, s, t).Release?
    requires var o := Current(x, s, t); IsPageOf(x, o.b, o.g, i)
    ensures var o := Current(x, s, t);
            && o.b in s.current && s.current[o.b] == o.g
            && (o.b, o.g, i) in s.tokens && s.tokens[(o.b, o.g, i)] == Tokens(0, 1, 0, 0)
  {
    hide System.Valid, OperationAt, IsPage, Reaches, BufferInv, PageInv, InPlace;
    RunInv(x, run, s);
    var o := Current(x, s, t);
    var k := TaskStanding(x, s, t, o.b, o.g, i);
    Meant(x, s, t);
  }

  /** Whatever a consumer has read from a page in a round is what its producer wrote there in
      that round, but for the first round of an allocation that replaced another one. */
  lemma FetchedIsWritten(x: System, run: seq<State>, s: State, b: nat, g: nat, i: nat, r: nat)
    requires x.Valid() && Reaches(x, run, s) && IsPageOf(x, b, g, i) && ((b, g, i), r) in s.fetched
    ensures ((b, g, i), r) in s.written
    ensures g == 1 || r > 0 ==> s.fetched[((b, g, i), r)] == s.written[((b, g, i), r)]
  {
    hide System.Valid, CountsAt, Reaches, BufferInv, InPlace;
    RunInv(x, run, s);
    TasksDiffer(x, b);
    assert PageInv(x, s, b, g, i);
    CountsOrdered(x, s.at[x.producer[b]], s.at[x.consumer[b]], b, g, i);
  }

  // ----- every program has runs -----

  function Everywhere<V>(n: nat, v: V): (m: map<nat, V>)
    ensures forall k: nat :: k in m <==> k < n
    ensures forall k | k in m :: m[k] == v
  {
    if n == 0 then map[] else Everywhere(n - 1, v)[n - 1 := v]
  }

  lemma StartExists(x: System) returns (s: State)
    requires x.Valid()
    ensures Init(x, s) && Reaches(x, [s], s)
  {
    hide System.Allocs, System.Pages;
    var pairs := set t: nat, b: nat | t < x.tasks && b < |x.producer| :: (t, b);
    var ids := set b: nat, g: nat, i: nat | b < |x.producer| && g <= x.Allocs(b, |x.calls|) && i < x.Pages(b, g) && g > 0
                 :: (b, g, i);
    s := State(Everywhere(x.tasks, Place(0, 0)), Everywhere(|x.producer|, 0), map k | k in pairs :: 0,
               map id | id in ids :: Tokens(0, 0, 0, 0), map id | id in ids :: 0, map[], map[]);
    assert forall id: PageId :: id in ids <==> IsPage(x, id);
  }
}
