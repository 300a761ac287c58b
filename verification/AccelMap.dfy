// The run-time that maps host areas to areas of accelerator memory: an area is allocated when
// its host pointer is first seen, and kept. Pointers are numbers; the memories hold bytes.

module AccelMap {

  type Memory = map<int, int>

  function Byte(m: Memory, a: int): int {
    if a in m then m[a] else 0
  }

  /** n bytes at `from` of src copied to `to`. */
  function Copied(dst: Memory, to: int, src: Memory, from: int, n: nat): (m: Memory)
    ensures forall a :: Byte(m, a) == if to <= a < to + n then Byte(src, from + (a - to)) else Byte(dst, a)
  {
    if n == 0 then dst
    else
      var m := Copied(dst, to, src, from, n - 1);
      var r := m[to + n - 1 := Byte(src, from + n - 1)];
      assert forall a :: Byte(r, a) == if a == to + n - 1 then Byte(src, from + n - 1) else Byte(m, a);
      r
  }

  /** memory_mapping, the areas that have been allocated with their sizes, and both memories. */
  datatype State = State(mapping: map<int, int>, areas: map<int, nat>, accel: Memory, host: Memory)

  predicate Apart(p: int, n: nat, q: int, m: nat) {
    p != q && (p + n <= q || q + m <= p)
  }

  /** What the allocator promises of a new area. */
  predicate IsFree(areas: map<int, nat>, p: int, n: nat) {
    forall q | q in areas :: Apart(p, n, q, areas[q])
  }

  lemma {:induction false} SomeBound(areas: map<int, nat>) returns (b: int)
    ensures forall q | q in areas :: q + areas[q] < b
    decreases |areas|
  {
    if q :| q in areas {
      var c := SomeBound(areas - {q});
      b := if q + areas[q] < c then c else q + areas[q] + 1;
      assert forall p | p in areas && p != q :: p in areas - {q};
    } else {
      b := 0;
    }
  }

  // ----- the calls -----

  datatype Call = Resolve(h: int, n: nat) | CopyTo(h: int, n: nat) | CopyFrom(h: int, n: nat)

  /** P4A_runtime_host_ptr_to_accel_ptr: a known pointer keeps its area, a new one gets a free
      area of the size asked for. */
  ghost predicate Resolved(s: State, h: int, n: nat, s': State) {
    if h in s.mapping then s' == s
    else
      exists a :: IsFree(s.areas, a, n) && s' == s.(mapping := s.mapping[h := a], areas := s.areas[a := n])
  }

  /** A call that returns; a copy from the accelerator needs a mapping, or the program stops. */
  ghost predicate Step(s: State, c: Call, s': State) {
    match c
    case Resolve(h, n) => Resolved(s, h, n, s')
    case CopyTo(h, n) =>
      && Resolved(s, h, n, s'.(accel := s.accel))
      && h in s'.mapping
      && s'.accel == Copied(s.accel, s'.mapping[h], s.host, h, n)
    case CopyFrom(h, n) =>
      h in s.mapping && s' == s.(host := Copied(s.host, h, s.accel, s.mapping[h], n))
  }

  class Runtime {
    var mapping: map<int, int>
    var areas: map<int, nat>
    var accel: Memory
    var host: Memory

    ghost function Now(): State
      reads this
    {
      State(mapping, areas, accel, host)
    }

    /** P4A_accel_malloc, as far as the run-time relies on it. */
    method AccelMalloc(n: nat) returns (p: int)
      modifies this`areas
      ensures IsFree(old(areas), p, n) && areas == old(areas)[p := n]
    {
      ghost var b := SomeBound(areas);
      assert IsFree(areas, b, n);
      p :| IsFree(areas, p, n);
      areas := areas[p := n];
    }

    method HostToAccel(h: int, size: nat) returns (a: int)
      modifies this`mapping, this`areas
      ensures Step(old(Now()), Resolve(h, size), Now()) && h in mapping && a == mapping[h]
    {
      if h in mapping {
        a := mapping[h];
      } else {
        a := AccelMalloc(size);
        mapping := mapping[h := a];
      }
    }

    method CopyToAccel(h: int, size: nat)
      modifies this
      ensures Step(old(Now()), CopyTo(h, size), Now())
    {
      var a := HostToAccel(h, size);
      accel := Copied(accel, a, host, h, size);
    }

    /** P4A_runtime_copy_from_accel; without a mapping it aborts, here by returning false. */
    method CopyFromAccel(h: int, size: nat) returns (ok: bool)
      modifies this`host
      ensures ok <==> h in mapping
      ensures if ok then Step(old(Now()), CopyFrom(h, size), Now()) else Now() == old(Now())
    {
      ok := h in mapping;
      if ok {
        host := Copied(host, h, accel, mapping[h], size);
      }
    }
  }

  // ----- every run -----

  /** The mapping is injective, onto areas that do not overlap. */
  ghost predicate Inv(s: State) {
    && (forall h | h in s.mapping :: s.mapping[h] in s.areas)
    && (forall h, k | h in s.mapping && k in s.mapping && h != k :: s.mapping[h] != s.mapping[k])
    && (forall p, q | p in s.areas && q in s.areas && p != q :: Apart(p, s.areas[p], q, s.areas[q]))
  }

  /** No entry of the mapping, and no area, ever changes. */
  ghost predicate Extends(s: State, s': State) {
    && (forall h | h in s.mapping :: h in s'.mapping && s'.mapping[h] == s.mapping[h])
    && (forall p | p in s.areas :: p in s'.areas && s'.areas[p] == s.areas[p])
  }

  lemma ResolvedKeepsInv(s: State, h: int, n: nat, s': State)
    requires Inv(s) && Resolved(s, h, n, s')
    ensures Inv(s') && Extends(s, s') && h in s'.mapping && s'.accel == s.accel && s'.host == s.host
    ensures h !in s.mapping ==> s'.areas[s'.mapping[h]] == n
  {
    if h !in s.mapping {
      var a :| IsFree(s.areas, a, n) && s' == s.(mapping := s.mapping[h := a], areas := s.areas[a := n]);
      assert a !in s.areas;
    }
  }

  lemma StepKeepsInv(s: State, c: Call, s': State)
    requires Inv(s) && Step(s, c, s')
    ensures Inv(s') && Extends(s, s') && c.h in s'.mapping
    ensures c.h !in s.mapping ==> s'.areas[s'.mapping[c.h]] == c.n
  {
    match c {
      case Resolve(h, n) => ResolvedKeepsInv(s, h, n, s');
      case CopyTo(h, n) => ResolvedKeepsInv(s, h, n, s'.(accel := s.accel));
      case CopyFrom(h, n) =>
    }
  }

  ghost predicate StepAt(ss: seq<State>, cs: seq<Call>, k: nat)
    requires k < |cs| && k + 1 < |ss|
  {
    Step(ss[k], cs[k], ss[k + 1])
  }

  ghost predicate IsRun(ss: seq<State>, cs: seq<Call>) {
    |ss| == |cs| + 1 && forall k | 0 <= k < |cs| :: StepAt(ss, cs, k)
  }

  /** In every run from the empty mapping the mapping stays injective onto areas that do not
      overlap, and what is mapped stays mapped to the same area. */
  lemma {:induction false} RunsKeepMapping(ss: seq<State>, cs: seq<Call>)
    requires IsRun(ss, cs) && Inv(ss[0])
    ensures Inv(ss[|cs|]) && Extends(ss[0], ss[|cs|])
  {
    hide Step, Inv;
    var k := |cs| - 1;
    if cs != [] {
      forall i | 0 <= i < k ensures StepAt(ss[..|cs|], cs[..k], i) {
        assert StepAt(ss, cs, i);
      }
      RunsKeepMapping(ss[..|cs|], cs[..k]);
      assert StepAt(ss, cs, k);
      StepKeepsInv(ss[k], cs[k], ss[k + 1]);
    }
  }

  /** From the start of the program, before any call, the mapping stays injective. */
  lemma RunsFromStart(ss: seq<State>, cs: seq<Call>)
    requires IsRun(ss, cs) && ss[0].mapping == map[] && ss[0].areas == map[]
    ensures forall k | 0 <= k <= |cs| :: Inv(ss[k])
    ensures forall k | 0 <= k <= |cs| :: Extends(ss[k], ss[|cs|])
  {
    forall k | 0 <= k <= |cs|
      ensures Inv(ss[k]) && Extends(ss[k], ss[|cs|])
    {
      RunParts(ss, cs, k);
      RunsKeepMapping(ss[..k + 1], cs[..k]);
      RunsKeepMapping(ss[k..], cs[k..]);
    }
  }

  lemma RunParts(ss: seq<State>, cs: seq<Call>, k: nat)
    requires IsRun(ss, cs) && k <= |cs|
    ensures IsRun(ss[..k + 1], cs[..k]) && IsRun(ss[k..], cs[k..])
  {
    hide Step;
    var ts, ds := ss[..k + 1], cs[..k];
    forall i | 0 <= i < k ensures StepAt(ts, ds, i) {
      assert StepAt(ss, cs, i);
    }
    var us, es := ss[k..], cs[k..];
    forall i | 0 <= i < |cs| - k ensures StepAt(us, es, i) {
      assert StepAt(ss, cs, k + i);
    }
  }

  /** The request does not exceed the size that its pointer was first seen with. */
  ghost predicate Within(s: State, c: Call) {
    c.h in s.mapping && s.mapping[c.h] in s.areas ==> c.n <= s.areas[s.mapping[c.h]]
  }

  /** The area of h holds the n bytes that another memory has at h. */
  ghost predicate Holds(s: State, h: int, src: Memory, n: nat) {
    h in s.mapping && forall a | h <= a < h + n :: Byte(s.accel, s.mapping[h] + (a - h)) == Byte(src, a)
  }

  lemma CopyToHolds(s: State, h: int, n: nat, s': State)
    requires Inv(s) && Step(s, CopyTo(h, n), s')
    ensures Holds(s', h, s.host, n)
  {
  }

  /** A call on another pointer that keeps to its area leaves the area of h alone. */
  lemma OthersKeepArea(s: State, c: Call, s': State, h: int, src: Memory, n: nat)
    requires Inv(s) && Step(s, c, s') && Within(s, c) && c.h != h
    requires Holds(s, h, src, n) && n <= s.areas[s.mapping[h]]
    ensures Holds(s', h, src, n) && s'.areas[s'.mapping[h]] == s.areas[s.mapping[h]]
  {
    StepKeepsInv(s, c, s');
    if c.CopyTo? {
      var a, p := s'.mapping[h], s'.mapping[c.h];
      assert c.n <= s'.areas[p];
      assert Apart(a, s'.areas[a], p, s'.areas[p]);
    }
  }

  lemma {:induction false} OthersKeepAreaRun(ss: seq<State>, cs: seq<Call>, h: int, src: Memory, n: nat)
    requires IsRun(ss, cs) && Inv(ss[0]) && Holds(ss[0], h, src, n) && n <= ss[0].areas[ss[0].mapping[h]]
    requires forall k | 0 <= k < |cs| :: cs[k].h != h && Within(ss[k], cs[k])
    ensures Holds(ss[|cs|], h, src, n)
    decreases |cs|
  {
    if cs != [] {
      assert StepAt(ss, cs, 0);
      StepKeepsInv(ss[0], cs[0], ss[1]);
      OthersKeepArea(ss[0], cs[0], ss[1], h, src, n);
      hide Step, Inv, Holds, Within;
      forall k | 0 <= k < |cs| - 1
        ensures StepAt(ss[1..], cs[1..], k) && cs[1..][k].h != h && Within(ss[1..][k], cs[1..][k])
      {
        assert StepAt(ss, cs, k + 1);
        assert cs[k + 1].h != h && Within(ss[k + 1], cs[k + 1]);
      }
      OthersKeepAreaRun(ss[1..], cs[1..], h, src, n);
    }
  }

  lemma SizeKept(s: State, h: int, n: nat, s': State)
    requires Inv(s) && Step(s, CopyTo(h, n), s') && Within(s, CopyTo(h, n))
    ensures Inv(s') && h in s'.mapping && s'.mapping[h] in s'.areas && n <= s'.areas[s'.mapping[h]]
  {
    StepKeepsInv(s, CopyTo(h, n), s');
  }

  lemma CopyBack(s: State, h: int, src: Memory, n: nat, s': State)
    requires Holds(s, h, src, n) && Step(s, CopyFrom(h, n), s')
    ensures forall a :: Byte(s'.host, a) == if h <= a < h + n then Byte(src, a) else Byte(s.host, a)
  {
  }

  /** A copy to the accelerator, then any calls on other pointers, then the copy back: the host
      area holds what it held at first, whatever has happened to it between, and the rest of
      the host is as the other calls left it. No request may exceed its pointer's first size. */
  lemma CopyRoundTrip(s: State, h: int, n: nat, ss: seq<State>, cs: seq<Call>, e: State)
    requires Inv(s) && Within(s, CopyTo(h, n)) && IsRun(ss, cs) && Step(s, CopyTo(h, n), ss[0])
    requires forall k | 0 <= k < |cs| :: cs[k].h != h && Within(ss[k], cs[k])
    requires Step(ss[|cs|], CopyFrom(h, n), e)
    ensures forall a :: Byte(e.host, a) == if h <= a < h + n then Byte(s.host, a) else Byte(ss[|cs|].host, a)
  {
    hide Inv, Within, Step, Holds;
    CopyToHolds(s, h, n, ss[0]);
    SizeKept(s, h, n, ss[0]);
    OthersKeepAreaRun(ss, cs, h, s.host, n);
    CopyBack(ss[|cs|], h, s.host, n, e);
  }

  /** The bytes of the area of k are what they were. */
  ghost predicate AreaKept(s: State, s': State, k: int)
    requires k in s.mapping && s.mapping[k] in s.areas
  {
    var p := s.mapping[k];
    forall a | p <= a < p + s.areas[p] :: Byte(s'.accel, a) == Byte(s.accel, a)
  }

  /** A copy of n bytes to a pointer that was first seen with m bytes never touches the area of
      another pointer. */
  ghost predicate LeavesOthers(h: int, m: nat, n: nat) {
    forall s, s', k | CopiesBeside(s, s', h, m, n, k) :: AreaKept(s, s', k)
  }

  ghost predicate CopiesBeside(s: State, s': State, h: int, m: nat, n: nat, k: int) {
    && Inv(s) && h in s.mapping && s.areas[s.mapping[h]] == m
    && k in s.mapping && k != h && Step(s, CopyTo(h, n), s')
  }

  /** Requests that are harmless for an area of m bytes. The areas of others start at another
      address, so one byte is harmless even for an area of none. */
  function Harmless(m: nat): nat {
    if m == 0 then 1 else m
  }

  lemma WithinLeavesOthers(s: State, s': State, h: int, m: nat, n: nat, k: int)
    requires CopiesBeside(s, s', h, m, n, k) && n <= Harmless(m)
    ensures AreaKept(s, s', k)
  {
    var a, p := s.mapping[k], s.mapping[h];
    assert Apart(a, s.areas[a], p, s.areas[p]);
    hide Inv;
  }

  /** Two areas side by side: a larger request writes the first byte of the second. */
  lemma LargerReachesOthers(h: int, m: nat, n: nat) returns (s: State, s': State, k: int)
    requires n > Harmless(m)
    ensures CopiesBeside(s, s', h, m, n, k) && !AreaKept(s, s', k)
  {
    var d := Harmless(m);
    k := h + 1;
    s := State(map[h := 0, k := d], map[0 := m, d := 1], map[], map[h + d := 7]);
    s' := s.(accel := Copied(s.accel, 0, s.host, h, n));
    assert Step(s, CopyTo(h, n), s');
    assert Inv(s);
    hide Inv, Step, Copied;
    assert Byte(s'.accel, d) == Byte(s.host, h + d) == 7;
    assert Byte(s.accel, d) == 0;
  }

  /** The condition is needed: a request leaves all other areas alone, in every state, exactly
      when it does not exceed the size that its pointer was first seen with. */
  lemma LeavesOthersIff(h: int, m: nat, n: nat)
    ensures LeavesOthers(h, m, n) <==> n <= Harmless(m)
  {
    if n <= Harmless(m) {
      forall s, s', k | CopiesBeside(s, s', h, m, n, k)
        ensures AreaKept(s, s', k)
      {
        WithinLeavesOthers(s, s', h, m, n, k);
      }
    } else {
      var s, s', k := LargerReachesOthers(h, m, n);
    }
  }

  /** The smallest case: sizes 1 and 2. */
  lemma LargerRequestOverwrites()
    ensures exists s, s', k :: CopiesBeside(s, s', 0, 1, 2, k) && !AreaKept(s, s', k)
  {
    var s, s', k := LargerReachesOthers(0, 1, 2);
  }
}
