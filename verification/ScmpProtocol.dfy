// The page hand-off between task clones. Every clone runs the same calls; for each buffer one
// task is the producer and another the consumer. A wait takes a page token and blocks while
// there is none; a send puts one back and never blocks. A request names a buffer; it reaches
// the allocation that the buffer has at that moment. A map waits until the buffer has one; from
// then on the task reads and writes through the pointer it got, whatever is allocated later.

module ScmpProtocol {
  import opened ScmpProgram

  // ----- the operations of one call -----

  /** g is the generation that the task means; the request itself only names the buffer. */
  datatype Operation =
    | WaitWrite(b: nat, g: nat, page: nat)
    | Release(b: nat, g: nat)
    | Allocate(b: nat, g: nat)
    | Fill(b: nat, g: nat, page: nat)
    | SendRead(b: nat, g: nat, page: nat)
    | WaitRead(b: nat, g: nat, page: nat)
    | Fetch(b: nat, g: nat, page: nat)
    | SendWrite(b: nat, g: nat, page: nat)
    | Map(b: nat, g: nat)
    | Unmap(b: nat, g: nat)
    | Return

  /** The operations before an allocation: waiting for the old pages and releasing them. */
  function Lead(x: System, p: nat): nat
    requires x.pageSize > 0 && p < |x.calls|
  {
    var b := x.calls[p].buffer;
    if x.Allocs(b, p) == 0 then 0 else x.Pages(b, x.Allocs(b, p)) + 1
  }

  /** What the producer does at operation i of an allocation. */
  function Allocation(x: System, p: nat, i: nat): Operation
    requires x.pageSize > 0 && p < |x.calls|
  {
    var b, g := x.calls[p].buffer, x.Gen(p);
    var n, lead := x.Pages(b, g), Lead(x, p);
    if !x.Opens(p) then if i < n then WaitWrite(b, g, i) else if i == n then Map(b, g) else Return
    else if i + 1 < lead then WaitWrite(b, g - 1, i)
    else if i + 1 == lead then Release(b, g - 1)
    else if i == lead then Allocate(b, g)
    else if i - lead - 1 < n then WaitWrite(b, g, i - lead - 1)
    else if i - lead - 1 == n then Map(b, g)
    else Return
  }

  /** What task t does at operation i of call p, in order; Return ends the call. */
  function OperationAt(x: System, t: nat, p: nat, i: nat): Operation
    requires x.Valid() && p < |x.calls|
  {
    var c, g := x.calls[p], x.Gen(p);
    var b := c.buffer;
    var n := x.Pages(b, g);
    CallValid(x, p);
    if t == x.producer[b] then
      match c.kind
      case Malloc => Allocation(x, p, i)
      case Copy => if i < n then Fill(b, g, i) else if i < 2 * n then SendRead(b, g, i - n) else Return
      case Free => if i == 0 then Unmap(b, g) else Return
    else if t == x.consumer[b] then
      match c.kind
      case Malloc => if i == 0 then Map(b, g) else Return
      case Copy => if i < n then WaitRead(b, g, i) else if i < 2 * n then Fetch(b, g, i - n) else Return
      case Free => if i < n then SendWrite(b, g, i) else if i == n then Unmap(b, g) else Return
    else Return
  }

  // ----- states -----

  type PageId = (nat, nat, nat)

  /** Tokens of one page: those waiting to be taken for writing or for reading, and those
      held by the task that took them. */
  datatype Tokens = Tokens(toWrite: int, writing: int, toRead: int, reading: int)

  /** Where a task is: the call, and the operation within it. */
  datatype Place = Place(call: nat, op: nat)

  /** The generation that is allocated to each buffer is in `current`, and the one that a task's
      pointer into a buffer addresses in `mapped`, zero for none. The logs have one entry for each
      page and round. */
  datatype State = State(
    at: map<nat, Place>,
    current: map<nat, nat>,
    mapped: map<(nat, nat), nat>,
    tokens: map<PageId, Tokens>,
    memory: map<PageId, int>,
    written: map<(PageId, nat), int>,
    fetched: map<(PageId, nat), int>)

  ghost predicate IsPage(x: System, id: PageId) {
    && id.0 < |x.producer| == |x.consumer| && x.pageSize > 0
    && 0 < id.1 <= x.Allocs(id.0, |x.calls|) && id.2 < x.Pages(id.0, id.1)
  }

  ghost predicate Shaped(x: System, s: State) {
    && (forall t: nat :: t in s.at <==> t < x.tasks)
    && (forall t | t in s.at :: s.at[t].call <= |x.calls|)
    && (forall b: nat :: b in s.current <==> b < |x.producer|)
    && (forall t: nat, b: nat :: (t, b) in s.mapped <==> t < x.tasks && b < |x.producer|)
    && (forall id: PageId :: id in s.tokens <==> IsPage(x, id))
    && (forall id: PageId :: id in s.memory <==> IsPage(x, id))
  }

  /** Every clone at its first call, nothing allocated. */
  ghost predicate Init(x: System, s: State) {
    && Shaped(x, s)
    && (forall t | t in s.at :: s.at[t] == Place(0, 0))
    && (forall b | b in s.current :: s.current[b] == 0)
    && (forall k | k in s.mapped :: s.mapped[k] == 0)
    && (forall id | id in s.tokens :: s.tokens[id] == Tokens(0, 0, 0, 0))
    && s.written == map[] && s.fetched == map[]
  }

  ghost predicate Active(x: System, s: State, t: nat) {
    t in s.at && s.at[t].call < |x.calls|
  }

  function Current(x: System, s: State, t: nat): Operation
    requires x.Valid() && t in s.at && s.at[t].call < |x.calls|
  {
    OperationAt(x, t, s.at[t].call, s.at[t].op)
  }

  /** The page that a request for page i of buffer b reaches. */
  function Reached(s: State, b: nat, i: nat): PageId {
    (b, if b in s.current then s.current[b] else 0, i)
  }

  /** A task can step unless it waits for a token that is not there, or for an allocation to map. */
  ghost predicate Enabled(x: System, s: State, t: nat)
    requires x.Valid()
  {
    && Active(x, s, t)
    && match Current(x, s, t)
       case WaitWrite(b, _, i) => var id := Reached(s, b, i); id in s.tokens && s.tokens[id].toWrite > 0
       case WaitRead(b, _, i) => var id := Reached(s, b, i); id in s.tokens && s.tokens[id].toRead > 0
       case Map(b, _) => b in s.current && s.current[b] != 0
       case _ => true
  }

  /** The place after the current operation. */
  function After(x: System, t: nat, l: Place): Place
    requires x.Valid() && l.call < |x.calls|
  {
    if OperationAt(x, t, l.call, l.op).Return? then Place(l.call + 1, 0) else Place(l.call, l.op + 1)
  }

  /** What a request does to the tokens of the page that it reaches. */
  function Pass(o: Operation, k: Tokens): Tokens {
    match o
    case WaitWrite(_, _, _) => k.(toWrite := k.toWrite - 1, writing := k.writing + 1)
    case SendRead(_, _, _) => k.(writing := k.writing - 1, toRead := k.toRead + 1)
    case WaitRead(_, _, _) => k.(toRead := k.toRead - 1, reading := k.reading + 1)
    case SendWrite(_, _, _) => k.(reading := k.reading - 1, toWrite := k.toWrite + 1)
    case _ => k
  }

  predicate OnPage(o: Operation) {
    !o.Return? && !o.Release? && !o.Allocate? && !o.Map? && !o.Unmap?
  }

  /** The accesses to memory; the other operations on a page are requests. */
  predicate IsAccess(o: Operation) {
    o.Fill? || o.Fetch?
  }

  /** The page that the task means. */
  function Own(o: Operation): PageId
    requires OnPage(o)
  {
    (o.b, o.g, o.page)
  }

  /** The page that its pointer addresses. */
  function Addressed(s: State, t: nat, o: Operation): PageId
    requires OnPage(o)
  {
    (o.b, if (t, o.b) in s.mapped then s.mapped[(t, o.b)] else 0, o.page)
  }

  /** A new allocation has all its pages free for writing. */
  function TokensAfter(s: State, o: Operation): map<PageId, Tokens> {
    if o.Allocate? then
      map id | id in s.tokens :: if id.0 == o.b && id.1 == o.g then Tokens(1, 0, 0, 0) else s.tokens[id]
    else if OnPage(o) && !IsAccess(o) && Reached(s, o.b, o.page) in s.tokens then
      var id := Reached(s, o.b, o.page);
      s.tokens[id := Pass(o, s.tokens[id])]
    else s.tokens
  }

  function CurrentAfter(s: State, o: Operation): map<nat, nat> {
    if o.Release? then s.current[o.b := 0]
    else if o.Allocate? then s.current[o.b := o.g]
    else s.current
  }

  function MappedAfter(s: State, t: nat, o: Operation): map<(nat, nat), nat> {
    if o.Map? && o.b in s.current then s.mapped[(t, o.b) := s.current[o.b]]
    else if o.Unmap? then s.mapped[(t, o.b) := 0]
    else s.mapped
  }

  /** Beyond the pages that a pointer addresses nothing of them changes, and anything is read. */
  function Stored(s: State, id: PageId, v: int): map<PageId, int> {
    if id in s.memory then s.memory[id := v] else s.memory
  }

  function Loaded(s: State, id: PageId, v: int): int {
    if id in s.memory then s.memory[id] else v
  }

  /** How many fills or fetches of a page a log has: the first round without an entry. */
  ghost predicate NextRound(log: map<(PageId, nat), int>, id: PageId, r: nat) {
    (id, r) !in log && forall q: nat | q < r :: (id, q) in log
  }

  /** A step of task t. A fill writes any value v, a fetch reads what it addresses; both log the
      value under the next round r of the page that the task means. */
  ghost predicate StepTo(x: System, s: State, t: nat, v: int, r: nat, s': State)
    requires x.Valid() && Active(x, s, t)
  {
    var o := Current(x, s, t);
    && s'.at == s.at[t := After(x, t, s.at[t])]
    && s'.current == CurrentAfter(s, o)
    && s'.mapped == MappedAfter(s, t, o)
    && s'.tokens == TokensAfter(s, o)
    && (if o.Fill? then
          && NextRound(s.written, Own(o), r) && s'.written == s.written[(Own(o), r) := v]
          && s'.memory == Stored(s, Addressed(s, t, o), v)
        else s'.memory == s.memory && s'.written == s.written)
    && (if o.Fetch? then
          NextRound(s.fetched, Own(o), r) && s'.fetched == s.fetched[(Own(o), r) := Loaded(s, Addressed(s, t, o), v)]
        else s'.fetched == s.fetched)
  }

  ghost predicate Next(x: System, s: State, s': State)
    requires x.Valid()
  {
    exists t: nat, v: int, r: nat :: Enabled(x, s, t) && StepTo(x, s, t, v, r, s')
  }

  // ----- how often each request has been made on a page -----

  /** Page i of generation g of buffer b. */
  ghost predicate IsPageOf(x: System, b: nat, g: nat, i: nat) {
    IsPage(x, (b, g, i))
  }

  /** The place is in a call of this kind on this generation. */
  predicate Within(x: System, l: Place, b: nat, g: nat, kind: Kind) {
    l.call < |x.calls| && x.IsOn(l.call, b, g) && x.calls[l.call].kind == kind
  }

  /** The place is in the allocation that replaces generation g. */
  predicate Closing(x: System, l: Place, b: nat, g: nat) {
    l.call < |x.calls| && x.calls[l.call].buffer == b && x.Opens(l.call) && x.Allocs(b, l.call) == g
  }

  /** The first wait of an allocation for its own pages. */
  function Start(x: System, p: nat): nat
    requires x.pageSize > 0 && p < |x.calls|
  {
    if x.Opens(p) then Lead(x, p) + 1 else 0
  }

  /** The producer at this place has waited for page i once more, to replace the generation. */
  predicate Closed(x: System, l: Place, b: nat, g: nat, i: nat)
    requires l.call <= |x.calls|
  {
    x.Allocs(b, l.call) > g || (Closing(x, l, b, g) && l.op > i)
  }

  /** The generation has been released, or allocated. */
  predicate Released(x: System, l: Place, b: nat, g: nat)
    requires l.call <= |x.calls| && x.pageSize > 0
  {
    x.Allocs(b, l.call) > g || (Closing(x, l, b, g) && l.op >= Lead(x, l.call))
  }

  predicate Allocated(x: System, l: Place, b: nat, g: nat)
    requires l.call <= |x.calls| && x.pageSize > 0
  {
    || x.Allocs(b, l.call) >= g
    || (l.call < |x.calls| && x.IsOn(l.call, b, g) && x.Opens(l.call) && l.op > Lead(x, l.call))
  }

  function WriteWaits(x: System, l: Place, b: nat, g: nat, i: nat): nat
    requires l.call <= |x.calls| && x.pageSize > 0
  {
    Mallocs(x.CountIn(b, g, l.call)) + One(Within(x, l, b, g, Malloc) && l.op > Start(x, l.call) + i)
    + One(Closed(x, l, b, g, i))
  }

  function Fills(x: System, l: Place, b: nat, g: nat, i: nat): nat
    requires l.call <= |x.calls|
  {
    Copies(x.CountIn(b, g, l.call)) + One(Within(x, l, b, g, Copy) && l.op > i)
  }

  function ReadSends(x: System, l: Place, b: nat, g: nat, i: nat): nat
    requires l.call <= |x.calls| && x.pageSize > 0
  {
    Copies(x.CountIn(b, g, l.call)) + One(Within(x, l, b, g, Copy) && l.op > x.Pages(b, g) + i)
  }

  function ReadWaits(x: System, l: Place, b: nat, g: nat, i: nat): nat
    requires l.call <= |x.calls|
  {
    Fills(x, l, b, g, i)
  }

  function Fetches(x: System, l: Place, b: nat, g: nat, i: nat): nat
    requires l.call <= |x.calls| && x.pageSize > 0
  {
    ReadSends(x, l, b, g, i)
  }

  function WriteSends(x: System, l: Place, b: nat, g: nat, i: nat): nat
    requires l.call <= |x.calls|
  {
    Frees(x.CountIn(b, g, l.call)) + One(Within(x, l, b, g, Free) && l.op > i)
  }

  // ----- the counts along one task -----

  /** At the start of a call. */
  lemma AtStart(x: System, q: nat, b: nat, g: nat, i: nat)
    requires q <= |x.calls| && x.pageSize > 0
    ensures var l, n := Place(q, 0), x.CountIn(b, g, q);
            && WriteWaits(x, l, b, g, i) == Mallocs(n) + One(x.Allocs(b, q) > g)
            && Fills(x, l, b, g, i) == ReadSends(x, l, b, g, i) == Copies(n)
            && WriteSends(x, l, b, g, i) == Frees(n)
            && (Released(x, l, b, g) ==> x.Allocs(b, q) > g || (Closing(x, l, b, g) && Lead(x, q) == 0))
            && (Allocated(x, l, b, g) <==> x.Allocs(b, q) >= g)
  {
    hide System.Allocs, System.CountIn, System.IsOn, System.Opens, Mallocs, Copies, Frees, System.Pages;
  }

  /** A call that is not about the generation, in either way, changes none of its counts. */
  lemma ElsewhereStep(x: System, t: nat, l: Place, b: nat, g: nat, i: nat)
    requires x.Valid() && l.call < |x.calls| && IsPageOf(x, b, g, i)
    requires !x.IsOn(l.call, b, g) && !Closing(x, l, b, g)
    ensures var m := After(x, t, l);
            && m.call <= |x.calls|
            && WriteWaits(x, m, b, g, i) == WriteWaits(x, l, b, g, i)
            && Fills(x, m, b, g, i) == Fills(x, l, b, g, i)
            && ReadSends(x, m, b, g, i) == ReadSends(x, l, b, g, i)
            && WriteSends(x, m, b, g, i) == WriteSends(x, l, b, g, i)
  {
    hide System.Valid, System.Allocs, System.CountIn, System.IsOn, System.Opens, Mallocs, Copies, Frees, System.Pages, OperationAt, Lead, Start;
    CallStanding(x, b, g, l.call);
    if OperationAt(x, t, l.call, l.op).Return? {
      AtStart(x, l.call + 1, b, g, i);
    }
  }

  lemma OnItsGeneration(x: System, p: nat, b: nat, g: nat)
    requires x.Valid() && p < |x.calls| && x.IsOn(p, b, g)
    ensures x.calls[p].buffer == b && x.Gen(p) == g && b < |x.producer| == |x.consumer|
    ensures x.producer[b] != x.consumer[b]
  {
    hide System.Valid;
    CallValid(x, p);
  }

  // What one operation of the producer changes, and where it stands when it does.

  /** In an allocation of the generation: the waits of its pages. */
  lemma OwnMalloc(x: System, l: Place, b: nat, g: nat, i: nat)
    requires x.Valid() && Within(x, l, b, g, Malloc) && IsPageOf(x, b, g, i)
    ensures var t := x.producer[b];
            var o, m := OperationAt(x, t, l.call, l.op), After(x, t, l);
            && m.call <= |x.calls|
            && WriteWaits(x, m, b, g, i) == WriteWaits(x, l, b, g, i) + One(o == WaitWrite(b, g, i))
            && Fills(x, m, b, g, i) == Fills(x, l, b, g, i)
            && ReadSends(x, m, b, g, i) == ReadSends(x, l, b, g, i)
            && o != Fill(b, g, i) && o != SendRead(b, g, i)
            && (o == WaitWrite(b, g, i) ==> WriteWaits(x, l, b, g, i) == ReadSends(x, l, b, g, i))
            && (o == Allocate(b, g) ==> WriteWaits(x, l, b, g, i) == 0 && !Allocated(x, l, b, g))
  {
    hide System.Valid, System.Allocs, System.CountIn, System.IsOn, System.Opens, System.Gen, Mallocs, Copies, Frees, System.Pages, Lead;
    OnItsGeneration(x, l.call, b, g);
    CallStanding(x, b, g, l.call);
    RoundsWhole(0);
    if OperationAt(x, x.producer[b], l.call, l.op).Return? {
      AtStart(x, l.call + 1, b, g, i);
    }
  }

  /** In a copy: the fills, then the sends for reading. */
  lemma OwnCopy(x: System, l: Place, b: nat, g: nat, i: nat)
    requires x.Valid() && Within(x, l, b, g, Copy) && IsPageOf(x, b, g, i)
    ensures var t := x.producer[b];
            var o, m := OperationAt(x, t, l.call, l.op), After(x, t, l);
            && m.call <= |x.calls|
            && WriteWaits(x, m, b, g, i) == WriteWaits(x, l, b, g, i)
            && Fills(x, m, b, g, i) == Fills(x, l, b, g, i) + One(o == Fill(b, g, i))
            && ReadSends(x, m, b, g, i) == ReadSends(x, l, b, g, i) + One(o == SendRead(b, g, i))
            && !o.WaitWrite? && !o.Allocate? && !o.Release?
            && (o == Fill(b, g, i) ==>
                  WriteWaits(x, l, b, g, i) == ReadSends(x, l, b, g, i) + 1 && Fills(x, l, b, g, i) == ReadSends(x, l, b, g, i))
            && (o == SendRead(b, g, i) ==>
                  WriteWaits(x, l, b, g, i) == Fills(x, l, b, g, i) == ReadSends(x, l, b, g, i) + 1)
  {
    hide System.Valid, System.Allocs, System.CountIn, System.IsOn, System.Opens, System.Gen, Mallocs, Copies, Frees, System.Pages, Lead;
    OnItsGeneration(x, l.call, b, g);
    CallStanding(x, b, g, l.call);
    if OperationAt(x, x.producer[b], l.call, l.op).Return? {
      AtStart(x, l.call + 1, b, g, i);
    }
  }

  /** In a release the producer only unmaps. */
  lemma OwnFree(x: System, l: Place, b: nat, g: nat, i: nat)
    requires x.Valid() && Within(x, l, b, g, Free) && IsPageOf(x, b, g, i)
    ensures var t := x.producer[b];
            var o, m := OperationAt(x, t, l.call, l.op), After(x, t, l);
            && m.call <= |x.calls| && (o == Unmap(b, g) || o == Return)
            && WriteWaits(x, m, b, g, i) == WriteWaits(x, l, b, g, i)
            && Fills(x, m, b, g, i) == Fills(x, l, b, g, i)
            && ReadSends(x, m, b, g, i) == ReadSends(x, l, b, g, i)
  {
    hide System.Valid, System.Allocs, System.CountIn, System.IsOn, System.Opens, System.Gen, Mallocs, Copies, Frees, System.Pages, Lead;
    OnItsGeneration(x, l.call, b, g);
    CallStanding(x, b, g, l.call);
    AtStart(x, l.call + 1, b, g, i);
  }

  /** In the allocation that replaces the generation: the waits of its pages, then its release. */
  lemma ClosingStep(x: System, l: Place, b: nat, g: nat, i: nat)
    requires x.Valid() && Closing(x, l, b, g) && IsPageOf(x, b, g, i)
    ensures var t := x.producer[b];
            var o, m := OperationAt(x, t, l.call, l.op), After(x, t, l);
            && m.call <= |x.calls|
            && WriteWaits(x, m, b, g, i) == WriteWaits(x, l, b, g, i) + One(o == WaitWrite(b, g, i))
            && Fills(x, m, b, g, i) == Fills(x, l, b, g, i)
            && ReadSends(x, m, b, g, i) == ReadSends(x, l, b, g, i)
            && !o.Fill? && !o.SendRead? && o != Allocate(b, g)
            && (o == WaitWrite(b, g, i) ==> WriteWaits(x, l, b, g, i) == ReadSends(x, l, b, g, i))
            && (o == Release(b, g) ==> WriteWaits(x, l, b, g, i) == ReadSends(x, l, b, g, i) + 1)
  {
    CallValid(x, l.call);
    CallStanding(x, b, g, l.call);
    ClosingGen(x, l, b, g);
    hide System.Valid, System.Allocs, System.CountIn, System.IsOn, System.Opens, System.Gen, Mallocs, Copies, Frees, System.Pages;
    if OperationAt(x, x.producer[b], l.call, l.op).Return? {
      AtStart(x, l.call + 1, b, g, i);
    }
  }

  lemma ClosingGen(x: System, l: Place, b: nat, g: nat)
    requires Closing(x, l, b, g)
    ensures x.Gen(l.call) == g + 1 && !x.IsOn(l.call, b, g)
  {
  }

  // The same for the consumer, whose calls are all on their own generation.

  lemma ConsumerCopy(x: System, l: Place, b: nat, g: nat, i: nat)
    requires x.Valid() && Within(x, l, b, g, Copy) && IsPageOf(x, b, g, i)
    ensures var t := x.consumer[b];
            var o, m := OperationAt(x, t, l.call, l.op), After(x, t, l);
            && m.call <= |x.calls|
            && ReadWaits(x, m, b, g, i) == ReadWaits(x, l, b, g, i) + One(o == WaitRead(b, g, i))
            && Fetches(x, m, b, g, i) == Fetches(x, l, b, g, i) + One(o == Fetch(b, g, i))
            && WriteSends(x, m, b, g, i) == WriteSends(x, l, b, g, i)
            && o != SendWrite(b, g, i)
            && (o == WaitRead(b, g, i) ==> ReadWaits(x, l, b, g, i) == WriteSends(x, l, b, g, i))
            && (o == Fetch(b, g, i) ==>
                  ReadWaits(x, l, b, g, i) == Fetches(x, l, b, g, i) + 1 == WriteSends(x, l, b, g, i) + 1)
  {
    hide System.Valid, System.Allocs, System.CountIn, System.IsOn, System.Opens, System.Gen, Mallocs, Copies, Frees, System.Pages, Lead;
    OnItsGeneration(x, l.call, b, g);
    CallStanding(x, b, g, l.call);
    if OperationAt(x, x.consumer[b], l.call, l.op).Return? {
      AtStart(x, l.call + 1, b, g, i);
    }
  }

  lemma ConsumerFree(x: System, l: Place, b: nat, g: nat, i: nat)
    requires x.Valid() && Within(x, l, b, g, Free) && IsPageOf(x, b, g, i)
    ensures var t := x.consumer[b];
            var o, m := OperationAt(x, t, l.call, l.op), After(x, t, l);
            && m.call <= |x.calls|
            && ReadWaits(x, m, b, g, i) == ReadWaits(x, l, b, g, i)
            && Fetches(x, m, b, g, i) == Fetches(x, l, b, g, i)
            && WriteSends(x, m, b, g, i) == WriteSends(x, l, b, g, i) + One(o == SendWrite(b, g, i))
            && o != WaitRead(b, g, i) && o != Fetch(b, g, i)
            && (o == SendWrite(b, g, i) ==>
                  ReadWaits(x, l, b, g, i) == Fetches(x, l, b, g, i) == WriteSends(x, l, b, g, i) + 1)
  {
    hide System.Valid, System.Allocs, System.CountIn, System.IsOn, System.Opens, System.Gen, Mallocs, Copies, Frees, System.Pages, Lead;
    OnItsGeneration(x, l.call, b, g);
    CallStanding(x, b, g, l.call);
    if OperationAt(x, x.consumer[b], l.call, l.op).Return? {
      AtStart(x, l.call + 1, b, g, i);
    }
  }

  lemma ConsumerMalloc(x: System, l: Place, b: nat, g: nat, i: nat)
    requires x.Valid() && l.call < |x.calls| && x.calls[l.call].buffer == b && x.calls[l.call].kind == Malloc
    requires IsPageOf(x, b, g, i)
    ensures var t := x.consumer[b];
            var o, m := OperationAt(x, t, l.call, l.op), After(x, t, l);
            && m.call <= |x.calls| && (o == Map(b, x.Gen(l.call)) || o == Return)
            && ReadWaits(x, m, b, g, i) == ReadWaits(x, l, b, g, i)
            && Fetches(x, m, b, g, i) == Fetches(x, l, b, g, i)
            && WriteSends(x, m, b, g, i) == WriteSends(x, l, b, g, i)
  {
    hide System.Valid, System.Allocs, System.CountIn, System.IsOn, System.Opens, System.Gen, Mallocs, Copies, Frees, System.Pages, Lead;
    CallValid(x, l.call);
    CallStanding(x, b, g, l.call);
    AtStart(x, l.call + 1, b, g, i);
  }

  // ----- the counts of a page together -----

  /** On one page: waits for writing, fills and sends for reading by the producer; waits for
      reading, fetches and sends for writing by the consumer; and whether it is allocated. */
  datatype Counts = Counts(al: nat, ww: nat, f: nat, rs: nat, rw: nat, g: nat, ws: nat)

  function CountsAt(x: System, p: Place, c: Place, b: nat, g: nat, i: nat): Counts
    requires p.call <= |x.calls| && c.call <= |x.calls| && x.pageSize > 0
  {
    Counts(One(Allocated(x, p, b, g)), WriteWaits(x, p, b, g, i), Fills(x, p, b, g, i), ReadSends(x, p, b, g, i),
           ReadWaits(x, c, b, g, i), Fetches(x, c, b, g, i), WriteSends(x, c, b, g, i))
  }

  function Counted(k: Counts, o: Operation, b: nat, g: nat, i: nat): Counts {
    Counts(k.al + One(o == Allocate(b, g)),
           k.ww + One(o == WaitWrite(b, g, i)), k.f + One(o == Fill(b, g, i)), k.rs + One(o == SendRead(b, g, i)),
           k.rw + One(o == WaitRead(b, g, i)), k.g + One(o == Fetch(b, g, i)), k.ws + One(o == SendWrite(b, g, i)))
  }

  /** The order of the counts along each of the two tasks. */
  ghost predicate Ordered(k: Counts) {
    k.rs <= k.f <= k.ww <= k.rs + 1 && k.ws <= k.g <= k.rw <= k.ws + 1
  }

  /** Where the counts stand when operation o comes up. */
  ghost predicate Standing(k: Counts, o: Operation, b: nat, g: nat, i: nat) {
    && (o == Allocate(b, g) ==> k.al == 0 && k.ww == 0)
    && (o == WaitWrite(b, g, i) ==> k.ww == k.rs)
    && (o == Fill(b, g, i) ==> k.ww == k.rs + 1 && k.f == k.rs)
    && (o == SendRead(b, g, i) ==> k.ww == k.f == k.rs + 1)
    && (o == Release(b, g) ==> k.ww == k.rs + 1)
    && (o == WaitRead(b, g, i) ==> k.rw == k.ws)
    && (o == Fetch(b, g, i) ==> k.rw == k.g + 1 == k.ws + 1)
    && (o == SendWrite(b, g, i) ==> k.rw == k.g == k.ws + 1)
  }

  lemma ProducerOrder(x: System, l: Place, b: nat, g: nat, i: nat)
    requires x.Valid() && l.call <= |x.calls| && IsPageOf(x, b, g, i)
    ensures ReadSends(x, l, b, g, i) <= Fills(x, l, b, g, i) <= WriteWaits(x, l, b, g, i) <= ReadSends(x, l, b, g, i) + 1
  {
    hide System.Valid, System.Allocs, System.CountIn, System.IsOn, System.Opens, System.Gen, Mallocs, Copies, Frees, System.Pages, Lead;
    if l.call < |x.calls| {
      CallStanding(x, b, g, l.call);
      RoundOrder(x.CountIn(b, g, l.call));
      if Closing(x, l, b, g) {
        ClosingGen(x, l, b, g);
      }
    } else {
      if x.Allocs(b, l.call) > g {
        AtEnd(x, b, g);
      }
      RoundOrder(x.CountIn(b, g, l.call));
    }
  }

  /** At the end of the program every earlier generation has had whole rounds. */
  lemma AtEnd(x: System, b: nat, g: nat)
    requires x.Valid() && g > 0 && x.Allocs(b, |x.calls|) > g
    ensures var n := x.CountIn(b, g, |x.calls|); Mallocs(n) == Copies(n) == Frees(n)
  {
    hide System.Valid;
    EarlierAreWhole(x, b, g, |x.calls|);
    RoundsWhole(x.CountIn(b, g, |x.calls|));
  }

  lemma ConsumerOrder(x: System, l: Place, b: nat, g: nat, i: nat)
    requires x.Valid() && l.call <= |x.calls| && IsPageOf(x, b, g, i)
    ensures WriteSends(x, l, b, g, i) <= Fetches(x, l, b, g, i) <= ReadWaits(x, l, b, g, i) <= WriteSends(x, l, b, g, i) + 1
  {
    hide System.Valid, System.Allocs, System.CountIn, System.IsOn, System.Opens, System.Gen, Mallocs, Copies, Frees, System.Pages, Lead;
    RoundOrder(x.CountIn(b, g, l.call));
    if l.call < |x.calls| {
      CallStanding(x, b, g, l.call);
    }
  }

  // ----- the generation allocated -----

  /** What the producer's place says of the allocation of buffer b. */
  function CurrentAt(x: System, l: Place, b: nat): nat
    requires l.call <= |x.calls| && x.pageSize > 0
  {
    var m := x.Allocs(b, l.call);
    if l.call < |x.calls| && x.calls[l.call].buffer == b && x.Opens(l.call) then
      if l.op < Lead(x, l.call) then m else if l.op == Lead(x, l.call) then 0 else m + 1
    else m
  }

  lemma CurrentIff(x: System, l: Place, b: nat, g: nat)
    requires l.call <= |x.calls| && x.pageSize > 0 && g > 0
    ensures CurrentAt(x, l, b) == g <==> Allocated(x, l, b, g) && !Released(x, l, b, g)
  {
    hide System.Allocs, System.Opens, System.Pages;
  }

  /** One step of the producer: only a release and an allocation change what is allocated. */
  lemma CurrentStep(x: System, l: Place, b: nat, g: nat)
    requires x.Valid() && l.call < |x.calls| && b < |x.producer| && g > 0
    ensures var t := x.producer[b];
            var o, m := OperationAt(x, t, l.call, l.op), After(x, t, l);
            && m.call <= |x.calls|
            && One(Allocated(x, m, b, g)) == One(Allocated(x, l, b, g)) + One(o == Allocate(b, g))
            && CurrentAt(x, m, b) ==
               (if o.Release? && o.b == b then 0 else if o.Allocate? && o.b == b then o.g else CurrentAt(x, l, b))
  {
    hide System.Valid, System.Allocs, System.CountIn, System.IsOn, System.Opens, System.Gen, Mallocs, Copies, Frees, System.Pages;
    CallValid(x, l.call);
    CallStanding(x, b, g, l.call);
    GenIs(x, l.call);
    if x.calls[l.call].buffer == b && x.Opens(l.call) {
      OpeningStep(x, l, b, g);
    }
    if l.call + 1 < |x.calls| && x.calls[l.call + 1].buffer == b && x.Opens(l.call + 1) {
      LeadAtStart(x, l.call + 1);
    }
  }

  lemma GenIs(x: System, p: nat)
    requires p < |x.calls|
    ensures x.Gen(p) == x.Allocs(x.calls[p].buffer, p) + One(x.Opens(p))
  {
  }

  /** An allocation with no generation to replace starts by allocating. */
  lemma LeadAtStart(x: System, p: nat)
    requires p < |x.calls| && x.pageSize > 0
    ensures Lead(x, p) == 0 <==> x.Allocs(x.calls[p].buffer, p) == 0
  {
  }

  lemma OpeningStep(x: System, l: Place, b: nat, g: nat)
    requires x.Valid() && l.call < |x.calls| && x.calls[l.call].buffer == b && x.Opens(l.call) && g > 0
    ensures b < |x.producer|
    ensures var o, lead := OperationAt(x, x.producer[b], l.call, l.op), Lead(x, l.call);
            && (o.Return? ==> l.op > lead)
            && (o.Release? <==> l.op + 1 == lead) && (o.Allocate? <==> l.op == lead)
            && (o.Release? || o.Allocate? ==> o.b == b)
            && (o.Allocate? ==> o.g == x.Allocs(b, l.call) + 1)
  {
    hide System.Valid, System.Allocs, System.CountIn, System.IsOn, System.Opens, System.Gen, Mallocs, Copies, Frees, System.Pages;
    CallValid(x, l.call);
    GenIs(x, l.call);
    CallStanding(x, b, g, l.call);
  }

  // ----- one step of any task, seen on one page -----

  /** The operation is one of the page, or of its whole generation. */
  predicate IsAbout(o: Operation, b: nat, g: nat, i: nat) {
    !o.Return? && o.b == b && o.g == g && (OnPage(o) ==> o.page == i)
  }

  lemma ElsewhereOperation(x: System, t: nat, l: Place, b: nat, g: nat, i: nat)
    requires x.Valid() && l.call < |x.calls| && !x.IsOn(l.call, b, g) && !Closing(x, l, b, g)
    ensures !IsAbout(OperationAt(x, t, l.call, l.op), b, g, i)
  {
    hide System.Valid, System.Allocs, System.Opens, System.Pages;
  }

  /** Producers do not read, consumers do not write, and other tasks do nothing to a buffer. */
  lemma RoleOperation(x: System, t: nat, l: Place, b: nat)
    requires x.Valid() && l.call < |x.calls| && b < |x.producer|
    ensures b < |x.consumer| && x.producer[b] != x.consumer[b]
    ensures var o := OperationAt(x, t, l.call, l.op);
            && (o.Return? || o.b == x.calls[l.call].buffer)
            && (!o.Return? && o.b == b ==> t == x.producer[b] || t == x.consumer[b])
            && (!o.Return? && o.b == b && t == x.producer[b] ==> !o.WaitRead? && !o.Fetch? && !o.SendWrite?)
            && (!o.Return? && o.b == b && t == x.consumer[b] ==>
                  o.WaitRead? || o.Fetch? || o.SendWrite? || o.Map? || o.Unmap?)
  {
    hide System.Valid, System.Allocs, System.Opens, System.Pages, System.Gen, System.IsOn, Lead;
    CallValid(x, l.call);
    TasksDiffer(x, b);
  }

  lemma TasksDiffer(x: System, b: nat)
    requires x.Valid() && b < |x.producer|
    ensures b < |x.consumer| && x.producer[b] != x.consumer[b]
    ensures x.producer[b] < x.tasks && x.consumer[b] < x.tasks && x.pageSize > 0
  {
    assert x.HasTasks(b);
  }

  lemma ProducerStep(x: System, l: Place, c: Place, b: nat, g: nat, i: nat)
    requires x.Valid() && l.call < |x.calls| && c.call <= |x.calls| && IsPageOf(x, b, g, i)
    ensures var t := x.producer[b];
            var o, m := OperationAt(x, t, l.call, l.op), After(x, t, l);
            && m.call <= |x.calls|
            && CountsAt(x, m, c, b, g, i) == Counted(CountsAt(x, l, c, b, g, i), o, b, g, i)
            && Standing(CountsAt(x, l, c, b, g, i), o, b, g, i)
  {
    hide System.Valid, System.Allocs, System.CountIn, System.IsOn, System.Opens, System.Gen, System.Pages, Lead;
    CurrentStep(x, l, b, g);
    RoleOperation(x, x.producer[b], l, b);
    hide WriteWaits, Fills, ReadSends, ReadWaits, Fetches, WriteSends, Allocated, Released, CurrentAt, After, OperationAt, Within, Closing;
    if Within(x, l, b, g, Malloc) {
      OwnMalloc(x, l, b, g, i);
      MallocOperation(x, l, b, g);
    } else if Within(x, l, b, g, Copy) {
      OwnCopy(x, l, b, g, i);
    } else if Within(x, l, b, g, Free) {
      OwnFree(x, l, b, g, i);
    } else if Closing(x, l, b, g) {
      ClosingStep(x, l, b, g, i);
    } else {
      NotWithin(x, l, b, g);
      ElsewhereStep(x, x.producer[b], l, b, g, i);
      ElsewhereOperation(x, x.producer[b], l, b, g, i);
    }
  }

  lemma NotWithin(x: System, l: Place, b: nat, g: nat)
    requires l.call < |x.calls|
    requires !Within(x, l, b, g, Malloc) && !Within(x, l, b, g, Copy) && !Within(x, l, b, g, Free)
    ensures !x.IsOn(l.call, b, g)
  {
    hide System.IsOn;
  }

  /** An allocation of a generation does not release it. */
  lemma MallocOperation(x: System, l: Place, b: nat, g: nat)
    requires x.Valid() && Within(x, l, b, g, Malloc) && b < |x.producer|
    ensures OperationAt(x, x.producer[b], l.call, l.op) != Release(b, g)
  {
    hide System.Valid, System.Allocs, System.Opens, System.Pages;
  }

  lemma ConsumerStep(x: System, l: Place, p: Place, b: nat, g: nat, i: nat)
    requires x.Valid() && l.call < |x.calls| && p.call <= |x.calls| && IsPageOf(x, b, g, i)
    ensures var t := x.consumer[b];
            var o, m := OperationAt(x, t, l.call, l.op), After(x, t, l);
            && m.call <= |x.calls|
            && CountsAt(x, p, m, b, g, i) == Counted(CountsAt(x, p, l, b, g, i), o, b, g, i)
            && Standing(CountsAt(x, p, l, b, g, i), o, b, g, i)
  {
    hide System.Valid, System.Allocs, System.CountIn, System.IsOn, System.Opens, System.Gen, System.Pages, Lead;
    RoleOperation(x, x.consumer[b], l, b);
    hide WriteWaits, Fills, ReadSends, ReadWaits, Fetches, WriteSends, Allocated, Released, CurrentAt, After, OperationAt, Within, Closing;
    if Within(x, l, b, g, Copy) {
      ConsumerCopy(x, l, b, g, i);
    } else if Within(x, l, b, g, Free) {
      ConsumerFree(x, l, b, g, i);
    } else if x.calls[l.call].buffer == b && x.calls[l.call].kind == Malloc {
      ConsumerMalloc(x, l, b, g, i);
    } else {
      NotWithinOrClosing(x, l, b, g);
      ElsewhereStep(x, x.consumer[b], l, b, g, i);
      ElsewhereOperation(x, x.consumer[b], l, b, g, i);
    }
  }

  lemma NotWithinOrClosing(x: System, l: Place, b: nat, g: nat)
    requires l.call < |x.calls| && !Within(x, l, b, g, Copy) && !Within(x, l, b, g, Free)
    requires x.calls[l.call].buffer != b || x.calls[l.call].kind != Malloc
    ensures !x.IsOn(l.call, b, g) && !Closing(x, l, b, g)
  {
    hide System.Allocs;
  }

  function Moved(x: System, u: nat, l: Place, t: nat, m: Place): Place
    requires x.Valid() && (u == t ==> m.call < |x.calls|)
  {
    if u == t then After(x, t, m) else l
  }

  lemma CountsStep(x: System, t: nat, l: Place, p: Place, c: Place, b: nat, g: nat, i: nat)
    requires x.Valid() && l.call < |x.calls| && p.call <= |x.calls| && c.call <= |x.calls| && IsPageOf(x, b, g, i)
    requires (t == x.producer[b] ==> p == l) && (t == x.consumer[b] ==> c == l)
    ensures var o := OperationAt(x, t, l.call, l.op);
            var p', c' := Moved(x, x.producer[b], p, t, l), Moved(x, x.consumer[b], c, t, l);
            && p'.call <= |x.calls| && c'.call <= |x.calls|
            && CountsAt(x, p', c', b, g, i) == Counted(CountsAt(x, p, c, b, g, i), o, b, g, i)
            && Standing(CountsAt(x, p, c, b, g, i), o, b, g, i)
  {
    hide System.Valid, After, OperationAt, CountsAt;
    RoleOperation(x, t, l, b);
    if t == x.producer[b] {
      ProducerStep(x, l, c, b, g, i);
    } else if t == x.consumer[b] {
      ConsumerStep(x, l, p, b, g, i);
    }
  }

  lemma CountsOrdered(x: System, p: Place, c: Place, b: nat, g: nat, i: nat)
    requires x.Valid() && p.call <= |x.calls| && c.call <= |x.calls| && IsPageOf(x, b, g, i)
    ensures Ordered(CountsAt(x, p, c, b, g, i))
  {
    hide System.Valid, WriteWaits, Fills, ReadSends, ReadWaits, Fetches, WriteSends, Allocated;
    ProducerOrder(x, p, b, g, i);
    ConsumerOrder(x, c, b, g, i);
  }

  // ----- the invariant -----

  /** The tokens of a page follow from the requests made on it so far: an allocated page has
      one, and the counts are in the order of the hand-off. */
  ghost predicate TokensFollow(h: Tokens, k: Counts) {
    && h == Tokens(k.al + k.ws - k.ww, k.ww - k.rs, k.rs - k.rw, k.rw - k.ws)
    && k.ws <= k.rw <= k.rs <= k.ww <= k.ws + k.al
  }

  /** The logs hold one entry for each fill and each fetch, the memory holds the latest fill, and
      fetches returned what was filled in the same round, except in the first round of an
      allocation that replaced another. */
  ghost predicate LogsFollow(s: State, id: PageId, k: Counts)
    requires id in s.memory
  {
    && (forall r: nat :: (id, r) in s.written <==> r < k.f)
    && (forall r: nat :: (id, r) in s.fetched <==> r < k.g)
    && (forall r: nat | r < k.g && r < k.f && (id.1 == 1 || r > 0) :: s.fetched[(id, r)] == s.written[(id, r)])
    && (k.f > 0 ==> s.memory[id] == s.written[(id, k.f - 1)])
  }

  ghost predicate PageInv(x: System, s: State, b: nat, g: nat, i: nat)
    requires x.Valid() && Shaped(x, s) && IsPageOf(x, b, g, i)
  {
    TasksDiffer(x, b);
    var k := CountsAt(x, s.at[x.producer[b]], s.at[x.consumer[b]], b, g, i);
    TokensFollow(s.tokens[(b, g, i)], k) && LogsFollow(s, (b, g, i), k)
  }

  ghost predicate BufferInv(x: System, s: State, b: nat)
    requires x.Valid() && Shaped(x, s) && b < |x.producer|
  {
    TasksDiffer(x, b);
    s.current[b] == CurrentAt(x, s.at[x.producer[b]], b)
  }

  /** The operations of call p before its return. */
  function Length(x: System, t: nat, p: nat): nat
    requires x.Valid() && p < |x.calls|
  {
    CallValid(x, p);
    var b, n := x.calls[p].buffer, x.Pages(x.calls[p].buffer, x.Gen(p));
    if t == x.producer[b] then
      if x.calls[p].kind == Malloc then Start(x, p) + n + 1 else if x.calls[p].kind == Copy then 2 * n else 1
    else if t == x.consumer[b] then
      if x.calls[p].kind == Malloc then 1 else if x.calls[p].kind == Copy then 2 * n else n + 1
    else 0
  }

  lemma ReturnsAtLength(x: System, t: nat, p: nat, i: nat)
    requires x.Valid() && p < |x.calls|
    ensures OperationAt(x, t, p, i).Return? <==> i >= Length(x, t, p)
  {
    hide System.Valid, System.Allocs, System.Opens, System.Pages, System.Gen;
    CallValid(x, p);
  }

  ghost predicate InPlace(x: System, t: nat, l: Place)
    requires x.Valid() && l.call <= |x.calls|
  {
    if l.call < |x.calls| then l.op <= Length(x, t, l.call) else l.op == 0
  }

  /** The calls whose effect on the pointer into buffer b is complete. */
  function Done(x: System, t: nat, l: Place, b: nat): (p: nat)
    requires x.Valid() && l.call <= |x.calls|
    ensures p <= |x.calls|
  {
    if l.call < |x.calls| && x.calls[l.call].buffer == b && l.op >= Length(x, t, l.call) then l.call + 1 else l.call
  }

  /** Producers address the generation in use; so do consumers, but for the first round of a
      generation that replaced another one. */
  ghost predicate MapInv(x: System, s: State, b: nat)
    requires x.Valid() && Shaped(x, s) && b < |x.producer|
  {
    TasksDiffer(x, b);
    var p, c := x.producer[b], x.consumer[b];
    && s.mapped[(p, b)] == x.InUse(b, Done(x, p, s.at[p], b))
    && (!x.Fresh(b, Done(x, c, s.at[c], b)) ==> s.mapped[(c, b)] == x.InUse(b, Done(x, c, s.at[c], b)))
  }

  ghost predicate Inv(x: System, s: State)
    requires x.Valid()
  {
    && Shaped(x, s)
    && (forall t | t in s.at :: InPlace(x, t, s.at[t]))
    && (forall b: nat | b < |x.producer| :: BufferInv(x, s, b))
    && (forall b: nat | b < |x.producer| :: MapInv(x, s, b))
    && forall b: nat, g: nat, i: nat | IsPageOf(x, b, g, i) :: PageInv(x, s, b, g, i)
  }

  // ----- every request reaches the allocation it means -----

  /** The page of a request exists. */
  lemma OperationPage(x: System, t: nat, p: nat, i: nat)
    requires x.Valid() && p < |x.calls|
    ensures var o := OperationAt(x, t, p, i);
            && (!o.Return? ==> o.b < |x.producer| && 0 < o.g <= x.Allocs(o.b, |x.calls|))
            && (OnPage(o) ==> IsPageOf(x, o.b, o.g, o.page))
  {
    hide System.Valid, System.Allocs, System.Opens, System.Pages, System.Gen;
    CallValid(x, p);
    CallGen(x, p);
    GenIs(x, p);
    AllocsGrow(x, x.calls[p].buffer, p, |x.calls|);
    AllocsGrow(x, x.calls[p].buffer, p + 1, |x.calls|);
  }

  /** The producer's own place says what is allocated when it asks for a page. */
  lemma ProducerReaches(x: System, l: Place, b: nat)
    requires x.Valid() && l.call < |x.calls| && b < |x.producer|
    ensures var o := OperationAt(x, x.producer[b], l.call, l.op);
            !o.Return? && !o.Allocate? && o.b == b ==> o.g == CurrentAt(x, l, b)
  {
    hide System.Valid, System.Allocs, System.Opens, System.Pages, System.Gen;
    CallValid(x, l.call);
    TasksDiffer(x, b);
    OpensIff(x, l.call);
    GenIs(x, l.call);
    CallGen(x, l.call);
  }

  /** A replaced generation has had all its waits: one more than its rounds. */
  lemma ClosedTotal(x: System, l: Place, b: nat, g: nat, i: nat)
    requires x.Valid() && l.call <= |x.calls| && IsPageOf(x, b, g, i) && Closed(x, l, b, g, i)
    ensures var n := x.CountIn(b, g, |x.calls|); n % 3 == 0 && WriteWaits(x, l, b, g, i) >= Frees(n) + 1
  {
    hide System.Valid, System.Allocs, System.CountIn, System.IsOn, System.Opens, System.Gen, System.Pages, Lead;
    var p := l.call;
    var q := if x.Allocs(b, p) > g then p else p + 1;
    if q == p + 1 {
      CallStanding(x, b, g, p);
      ClosingGen(x, l, b, g);
    }
    CountInGrows(x, b, g, q, |x.calls|);
    AllocsGrow(x, b, q, |x.calls|);
    EarlierAreWhole(x, b, g, |x.calls|);
    RoundsWhole(x.CountIn(b, g, |x.calls|));
  }

  /** A consumer in a round of a generation has not sent all its pages back. */
  lemma ConsumerBehind(x: System, c: Place, b: nat, g: nat, i: nat)
    requires x.Valid() && c.call < |x.calls| && IsPageOf(x, b, g, i)
    requires IsUse(OperationAt(x, x.consumer[b], c.call, c.op), b, g, i)
    ensures x.Allocs(b, c.call) == g && Behind(x, c, b, g, i)
  {
    hide System.Valid, System.Allocs, System.CountIn, System.Opens, System.Pages, Lead, Mallocs, Copies, Frees;
    TasksDiffer(x, b);
    CallValid(x, c.call);
    CallStanding(x, b, g, c.call);
    CountInGrows(x, b, g, c.call + 1, |x.calls|);
    FreesBelow(x.CountIn(b, g, c.call), x.CountIn(b, g, |x.calls|));
    assert WriteSends(x, c, b, g, i) == Frees(x.CountIn(b, g, c.call));
  }

  /** The operation is on the page. */
  predicate IsUse(o: Operation, b: nat, g: nat, i: nat) {
    OnPage(o) && Own(o) == (b, g, i)
  }

  /** Were the generation replaced, the consumer would still owe its page. */
  ghost predicate Behind(x: System, c: Place, b: nat, g: nat, i: nat)
    requires c.call <= |x.calls|
  {
    var n := x.CountIn(b, g, |x.calls|);
    n % 3 == 0 ==> WriteSends(x, c, b, g, i) < Frees(n)
  }

  lemma FreesBelow(m: nat, n: nat)
    ensures m < n && n % 3 == 0 ==> Frees(m) < Frees(n)
  {
  }

  /** So the producer has not replaced it. */
  lemma NotReleased(x: System, p: Place, c: Place, b: nat, g: nat, i: nat)
    requires x.Valid() && p.call <= |x.calls| && c.call <= |x.calls| && IsPageOf(x, b, g, i)
    requires Behind(x, c, b, g, i)
    requires WriteWaits(x, p, b, g, i) <= WriteSends(x, c, b, g, i) + 1
    ensures !Closed(x, p, b, g, i) && !Released(x, p, b, g)
  {
    hide System.Valid, System.Allocs, System.CountIn, System.Opens, WriteWaits, WriteSends, Frees, System.Pages;
    if Closed(x, p, b, g, i) {
      ClosedTotal(x, p, b, g, i);
    }
  }

  /** A consumer's request reaches its own generation whenever it can be carried out. */
  lemma ConsumerReaches(x: System, p: Place, c: Place, b: nat, g: nat, i: nat)
    requires x.Valid() && p.call <= |x.calls| && c.call < |x.calls| && IsPageOf(x, b, g, i)
    requires IsUse(OperationAt(x, x.consumer[b], c.call, c.op), b, g, i)
    requires var k := CountsAt(x, p, c, b, g, i); k.ws <= k.rw <= k.rs <= k.ww <= k.ws + k.al
    ensures !Released(x, p, b, g) && !Closed(x, p, b, g, i)
    ensures Allocated(x, p, b, g) ==> CurrentAt(x, p, b) == g
    ensures !OperationAt(x, x.consumer[b], c.call, c.op).WaitRead? ==> CurrentAt(x, p, b) == g
  {
    hide System.Valid, System.Allocs, System.CountIn, System.Opens, OperationAt, Allocated, Released, Closed, CurrentAt;
    hide WriteWaits, Fills, ReadSends, ReadWaits, Fetches, WriteSends, After;
    ConsumerBehind(x, c, b, g, i);
    NotReleased(x, p, c, b, g, i);
    CurrentIff(x, p, b, g);
    RoleOperation(x, x.consumer[b], c, b);
    ConsumerStep(x, c, p, b, g, i);
  }

  lemma {:induction false} SendsWithin(x: System, l: Place, b: nat, g: nat, i: nat)
    requires x.Valid() && l.call <= |x.calls| && IsPageOf(x, b, g, i)
    ensures ReadSends(x, l, b, g, i) <= Copies(x.CountIn(b, g, |x.calls|))
  {
    hide System.Valid, System.Allocs, System.CountIn, System.IsOn, System.Opens, System.Pages, Copies;
    CountInGrows(x, b, g, l.call, |x.calls|);
    CountsMonotone(x.CountIn(b, g, l.call), x.CountIn(b, g, |x.calls|));
    if l.call < |x.calls| {
      CallStanding(x, b, g, l.call);
      CountInGrows(x, b, g, l.call + 1, |x.calls|);
      CountsMonotone(x.CountIn(b, g, l.call + 1), x.CountIn(b, g, |x.calls|));
    }
  }

  /** A page with a token to read, on the generation that is allocated, is of the generation
      that the waiting consumer means. */
  lemma ReadTokenIsMeant(x: System, p: Place, c: Place, b: nat, g: nat, i: nat, h: nat)
    requires x.Valid() && p.call <= |x.calls| && c.call < |x.calls| && IsPageOf(x, b, g, i) && IsPageOf(x, b, h, i)
    requires OperationAt(x, x.consumer[b], c.call, c.op) == WaitRead(b, g, i)
    requires var k := CountsAt(x, p, c, b, g, i); k.ws <= k.rw <= k.rs <= k.ww <= k.ws + k.al
    requires CurrentAt(x, p, b) == h && ReadSends(x, p, b, h, i) > ReadWaits(x, c, b, h, i)
    ensures h == g
  {
    hide System.Valid, System.Allocs, System.CountIn, System.Opens, System.Pages, OperationAt;
    ConsumerReaches(x, p, c, b, g, i);
    ConsumerBehind(x, c, b, g, i);
    if h < g {
      EarlierAllRead(x, p, c, b, g, i, h);
    } else if h > g {
      LaterMeansReleased(x, p, b, g, i, h);
    }
  }

  lemma EarlierAllRead(x: System, p: Place, c: Place, b: nat, g: nat, i: nat, h: nat)
    requires x.Valid() && p.call <= |x.calls| && c.call < |x.calls| && IsPageOf(x, b, h, i)
    requires h < g && x.Allocs(b, c.call) == g
    ensures ReadSends(x, p, b, h, i) <= ReadWaits(x, c, b, h, i)
  {
    hide System.Valid, System.Allocs, System.CountIn, System.Opens, System.Pages, ReadSends;
    SendsWithin(x, p, b, h, i);
    CountInGrows(x, b, h, c.call, |x.calls|);
  }

  lemma LaterMeansReleased(x: System, p: Place, b: nat, g: nat, i: nat, h: nat)
    requires x.pageSize > 0 && p.call <= |x.calls| && IsPageOf(x, b, g, i)
    requires h > g && CurrentAt(x, p, b) == h
    ensures Closed(x, p, b, g, i)
  {
    hide System.Allocs, System.Opens, System.Pages;
  }

  /** The request of task t reaches the page it means. */
  ghost predicate ReachesMeant(s: State, o: Operation) {
    (OnPage(o) ==> Reached(s, o.b, o.page) == (o.b, o.g, o.page)) && (o.Release? ==> o.b in s.current && s.current[o.b] == o.g)
  }

  lemma ConsumerMeant(x: System, s: State, t: nat)
    requires x.Valid() && Inv(x, s) && Enabled(x, s, t)
    requires var o := Current(x, s, t); OnPage(o) && o.b < |x.consumer| && t == x.consumer[o.b]
    ensures ReachesMeant(s, Current(x, s, t))
  {
    hide System.Valid, InPlace, OperationAt, CountsAt, CurrentAt, LogsFollow;
    var o, c := Current(x, s, t), s.at[t];
    var b, g, i := o.b, o.g, o.page;
    OperationPage(x, t, c.call, c.op);
    TasksDiffer(x, b);
    RoleOperation(x, t, c, b);
    var p := s.at[x.producer[b]];
    assert PageInv(x, s, b, g, i) && BufferInv(x, s, b);
    if o.WaitRead? {
      var h := s.current[b];
      assert IsPageOf(x, b, h, i) && PageInv(x, s, b, h, i);
      TokenToRead(x, p, c, b, h, i, s.tokens[(b, h, i)]);
      ReadTokenMeant(x, p, c, b, g, i, h, s.tokens[(b, g, i)]);
    } else {
      HeldMeant(x, p, c, b, g, i, s.tokens[(b, g, i)]);
    }
  }

  lemma TokenToRead(x: System, p: Place, c: Place, b: nat, h: nat, i: nat, tokens: Tokens)
    requires x.pageSize > 0 && p.call <= |x.calls| && c.call <= |x.calls|
    requires TokensFollow(tokens, CountsAt(x, p, c, b, h, i)) && tokens.toRead > 0
    ensures ReadSends(x, p, b, h, i) > ReadWaits(x, c, b, h, i)
  {
    hide ReadSends, ReadWaits, WriteWaits, Fills, Fetches, WriteSends, Allocated;
  }

  lemma ReadTokenMeant(x: System, p: Place, c: Place, b: nat, g: nat, i: nat, h: nat, tokens: Tokens)
    requires x.Valid() && p.call <= |x.calls| && c.call < |x.calls| && IsPageOf(x, b, g, i) && IsPageOf(x, b, h, i)
    requires OperationAt(x, x.consumer[b], c.call, c.op) == WaitRead(b, g, i)
    requires TokensFollow(tokens, CountsAt(x, p, c, b, g, i))
    requires CurrentAt(x, p, b) == h && ReadSends(x, p, b, h, i) > ReadWaits(x, c, b, h, i)
    ensures h == g
  {
    hide System.Valid, OperationAt, CountsAt, CurrentAt, ReadSends, ReadWaits;
    ReadTokenIsMeant(x, p, c, b, g, i, h);
  }

  lemma HeldMeant(x: System, p: Place, c: Place, b: nat, g: nat, i: nat, tokens: Tokens)
    requires x.Valid() && p.call <= |x.calls| && c.call < |x.calls| && IsPageOf(x, b, g, i)
    requires var o := OperationAt(x, x.consumer[b], c.call, c.op); IsUse(o, b, g, i) && !o.WaitRead?
    requires TokensFollow(tokens, CountsAt(x, p, c, b, g, i))
    ensures CurrentAt(x, p, b) == g
  {
    hide System.Valid, OperationAt, CountsAt, CurrentAt;
    ConsumerReaches(x, p, c, b, g, i);
  }

  lemma Meant(x: System, s: State, t: nat)
    requires x.Valid() && Inv(x, s) && Enabled(x, s, t)
    ensures ReachesMeant(s, Current(x, s, t))
  {
    hide System.Valid, InPlace, OperationAt, PageInv, CurrentAt;
    var o, l := Current(x, s, t), s.at[t];
    OperationPage(x, t, l.call, l.op);
    if OnPage(o) || o.Release? {
      RoleOperation(x, t, l, o.b);
      assert BufferInv(x, s, o.b);
      if t == x.producer[o.b] {
        ProducerReaches(x, l, o.b);
      } else {
        ConsumerMeant(x, s, t);
      }
    }
  }
}
