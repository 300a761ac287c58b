// The validation's worklist of directories: batches of at most one directory per processor,
// each tested by a process of its own that appends the subdirectories it finds to a shared
// list, in whatever order the processes get to it.

module Worklist {

  /** What a path names: a directory with the subdirectories that are still to be tested, or
      nothing. */
  datatype Entry = Directory(path: string, subs: seq<Entry>) | Missing(path: string)

  /** The paths of all directories of a forest, once for each occurrence. */
  function All(ds: seq<Entry>): multiset<string> {
    if ds == [] then multiset{}
    else All(ds[..|ds| - 1]) + AllIn(ds[|ds| - 1])
  }

  function AllIn(d: Entry): multiset<string> {
    if d.Missing? then multiset{} else multiset{d.path} + All(d.subs)
  }

  /** The number of entries of a forest. */
  function Size(ds: seq<Entry>): nat {
    if ds == [] then 0
    else Size(ds[..|ds| - 1]) + SizeOf(ds[|ds| - 1])
  }

  function SizeOf(d: Entry): nat {
    if d.Missing? then 1 else 1 + Size(d.subs)
  }

  lemma {:induction false} AllConcat(ds: seq<Entry>, es: seq<Entry>)
    ensures All(ds + es) == All(ds) + All(es) && Size(ds + es) == Size(ds) + Size(es)
    decreases |es|
  {
    hide AllIn, SizeOf;
    if es == [] {
      assert ds + es == ds;
    } else {
      var k := |es| - 1;
      assert (ds + es)[..|ds| + k] == ds + es[..k];
      AllConcat(ds, es[..k]);
      MoreAtEnd(All(ds), All(es[..k]), AllIn(es[k]));
    }
  }

  lemma MoreAtEnd(a: multiset<string>, b: multiset<string>, c: multiset<string>)
    ensures (a + b) + c == a + (b + c)
  {
  }

  lemma AllFirst(ds: seq<Entry>)
    requires ds != []
    ensures All(ds) == AllIn(ds[0]) + All(ds[1..]) && Size(ds) == SizeOf(ds[0]) + Size(ds[1..])
  {
    assert ds == ds[..1] + ds[1..];
    AllConcat(ds[..1], ds[1..]);
    assert ds[..1][..0] == [];
    assert All(ds[..1]) == All([]) + AllIn(ds[0]);
    assert Size(ds[..1]) == Size([]) + SizeOf(ds[0]);
  }

  lemma OneTaken(ds: seq<Entry>, i: nat)
    requires i < |ds|
    ensures All(ds[..i + 1]) == All(ds[..i]) + AllIn(ds[i]) && Size(ds[..i + 1]) == Size(ds[..i]) + SizeOf(ds[i])
  {
    assert ds[..i + 1][..i] == ds[..i];
  }

  lemma OneTested(tested: seq<string>, dirSublist: seq<Entry>, d: Entry)
    requires d.Directory?
    ensures multiset(tested + [d.path]) + All(dirSublist + d.subs) == multiset(tested) + All(dirSublist) + AllIn(d)
    ensures Size(dirSublist + d.subs) + 1 == Size(dirSublist) + SizeOf(d)
  {
    AllConcat(dirSublist, d.subs);
    hide All, Size;
    Reshare(multiset(tested), multiset{d.path}, All(d.subs), All(dirSublist), AllIn(d));
  }

  // ----- every directory once -----

  /** Where a directory is in a forest: its place in the list, and so on among its parents'. */
  type Address = seq<nat>

  predicate IsDirectory(ds: seq<Entry>, a: Address)
    decreases |a|
  {
    && a != [] && a[0] < |ds| && ds[a[0]].Directory?
    && (|a| == 1 || IsDirectory(ds[a[0]].subs, a[1..]))
  }

  function PathAt(ds: seq<Entry>, a: Address): string
    requires IsDirectory(ds, a)
    decreases |a|
  {
    if |a| == 1 then ds[a[0]].path else PathAt(ds[a[0]].subs, a[1..])
  }

  /** A listing of all directories of a forest, each once. */
  ghost predicate IsListing(ds: seq<Entry>, places: seq<Address>) {
    && (forall k | 0 <= k < |places| :: IsDirectory(ds, places[k]))
    && (forall j, k | 0 <= j < k < |places| :: places[j] != places[k])
    && (forall a | IsDirectory(ds, a) :: a in places)
  }

  function PathsAt(ds: seq<Entry>, places: seq<Address>): (r: seq<string>)
    requires forall k | 0 <= k < |places| :: IsDirectory(ds, places[k])
    ensures |r| == |places|
  {
    seq(|places|, k requires 0 <= k < |places| => PathAt(ds, places[k]))
  }

  /** These paths are those of all directories, missing paths aside, each as often as it names
      one. */
  ghost predicate AreAllPaths(paths: multiset<string>, ds: seq<Entry>) {
    exists places :: IsListing(ds, places) && paths == multiset(PathsAt(ds, places))
  }

  function Below(i: nat, places: seq<Address>): (r: seq<Address>)
    ensures |r| == |places| && forall k | 0 <= k < |r| :: r[k] == [i] + places[k]
  {
    seq(|places|, k requires 0 <= k < |places| => [i] + places[k])
  }

  lemma BelowIs(ds: seq<Entry>, i: nat, a: Address)
    requires i < |ds| && ds[i].Directory?
    ensures a != [] ==> (IsDirectory(ds, [i] + a) <==> IsDirectory(ds[i].subs, a))
    ensures IsDirectory(ds[i].subs, a) ==> PathAt(ds, [i] + a) == PathAt(ds[i].subs, a)
  {
    assert ([i] + a)[1..] == a;
  }

  /** The directories of a longer list that are in its front. */
  lemma InFront(ds: seq<Entry>, k: nat, a: Address)
    requires k < |ds|
    ensures IsDirectory(ds[..k], a) <==> IsDirectory(ds, a) && a[0] < k
    ensures IsDirectory(ds[..k], a) ==> PathAt(ds[..k], a) == PathAt(ds, a)
  {
  }

  /** The listing of the last entry: nothing of a missing one, a directory before those in it. */
  lemma LastListing(ds: seq<Entry>, front: seq<Address>, inner: seq<Address>) returns (places: seq<Address>)
    requires ds != []
    requires var k := |ds| - 1;
             && IsListing(ds[..k], front)
             && (ds[k].Directory? ==> IsListing(ds[k].subs, inner))
    ensures IsListing(ds, places)
    ensures var k := |ds| - 1;
            multiset(PathsAt(ds, places)) ==
            multiset(PathsAt(ds[..k], front))
            + if ds[k].Directory? then multiset{ds[k].path} + multiset(PathsAt(ds[k].subs, inner)) else multiset{}
  {
    var k := |ds| - 1;
    places := front;
    forall j | 0 <= j < |front|
      ensures IsDirectory(ds, front[j]) && front[j][0] < k && PathAt(ds, front[j]) == PathAt(ds[..k], front[j])
    {
      InFront(ds, k, front[j]);
    }
    if ds[k].Directory? {
      LastPlaces(ds, front, inner);
      places := front + ([[k]] + Below(k, inner));
      assert PathsAt(ds, places) == PathsAt(ds[..k], front) + ([ds[k].path] + PathsAt(ds[k].subs, inner)) by {
        LastPaths(ds, front, inner);
      }
    } else {
      assert PathsAt(ds, places) == PathsAt(ds[..k], front);
      forall a | IsDirectory(ds, a)
        ensures a in places
      {
        InFront(ds, k, a);
      }
    }
  }

  lemma LastPlaces(ds: seq<Entry>, front: seq<Address>, inner: seq<Address>)
    requires ds != [] && ds[|ds| - 1].Directory?
    requires IsListing(ds[..|ds| - 1], front) && IsListing(ds[|ds| - 1].subs, inner)
    ensures IsListing(ds, front + ([[|ds| - 1]] + Below(|ds| - 1, inner)))
  {
    hide IsDirectory;
    var k := |ds| - 1;
    var last := [[k]] + Below(k, inner);
    forall j | 0 <= j < |front|
      ensures IsDirectory(ds, front[j]) && front[j] != [] && front[j][0] < k
    {
      InFront(ds, k, front[j]);
      NotEmpty(ds, front[j]);
    }
    LastIsThere(ds, inner);
    LastOnce(ds, inner);
    forall a | IsDirectory(ds, a)
      ensures a in front + last
    {
      NotEmpty(ds, a);
      InFront(ds, k, a);
      if a[0] == k {
        LastHas(ds, inner, a);
      }
    }
  }

  lemma NotEmpty(ds: seq<Entry>, a: Address)
    requires IsDirectory(ds, a)
    ensures a != [] && a[0] < |ds|
  {
  }

  lemma LastIsThere(ds: seq<Entry>, inner: seq<Address>)
    requires ds != [] && ds[|ds| - 1].Directory? && IsListing(ds[|ds| - 1].subs, inner)
    ensures var last := [[|ds| - 1]] + Below(|ds| - 1, inner);
            forall j | 0 <= j < |last| :: IsDirectory(ds, last[j]) && last[j] != [] && last[j][0] == |ds| - 1
  {
    var last := [[|ds| - 1]] + Below(|ds| - 1, inner);
    forall j | 0 <= j < |last|
      ensures IsDirectory(ds, last[j])
    {
      if j > 0 {
        BelowIs(ds, |ds| - 1, inner[j - 1]);
      }
    }
  }

  lemma LastOnce(ds: seq<Entry>, inner: seq<Address>)
    requires ds != [] && ds[|ds| - 1].Directory? && IsListing(ds[|ds| - 1].subs, inner)
    ensures var last := [[|ds| - 1]] + Below(|ds| - 1, inner);
            forall i, j | 0 <= i < j < |last| :: last[i] != last[j]
  {
    var k := |ds| - 1;
    var last := [[k]] + Below(k, inner);
    forall i, j | 0 <= i < j < |last|
      ensures last[i] != last[j]
    {
      if i > 0 {
        assert inner[i - 1] == last[i][1..] && inner[j - 1] == last[j][1..];
      } else {
        NotEmpty(ds[k].subs, inner[j - 1]);
        assert |last[j]| > 1;
      }
    }
  }

  lemma LastHas(ds: seq<Entry>, inner: seq<Address>, a: Address)
    requires ds != [] && ds[|ds| - 1].Directory? && IsListing(ds[|ds| - 1].subs, inner)
    requires IsDirectory(ds, a) && a[0] == |ds| - 1
    ensures a in [[|ds| - 1]] + Below(|ds| - 1, inner)
  {
    var k := |ds| - 1;
    var last := [[k]] + Below(k, inner);
    assert a == [k] + a[1..];
    if |a| == 1 {
      assert a == last[0];
    } else {
      assert IsDirectory(ds[k].subs, a[1..]);
      assert a[1..] in inner;
      var j :| 0 <= j < |inner| && inner[j] == a[1..];
      assert a == last[j + 1];
    }
  }

  lemma LastPaths(ds: seq<Entry>, front: seq<Address>, inner: seq<Address>)
    requires ds != [] && ds[|ds| - 1].Directory?
    requires IsListing(ds[..|ds| - 1], front) && IsListing(ds[|ds| - 1].subs, inner)
    requires IsListing(ds, front + ([[|ds| - 1]] + Below(|ds| - 1, inner)))
    ensures var k := |ds| - 1;
            PathsAt(ds, front + ([[k]] + Below(k, inner))) ==
            PathsAt(ds[..k], front) + ([ds[k].path] + PathsAt(ds[k].subs, inner))
  {
    var k := |ds| - 1;
    var places := front + ([[k]] + Below(k, inner));
    var paths := PathsAt(ds[..k], front) + ([ds[k].path] + PathsAt(ds[k].subs, inner));
    forall j | 0 <= j < |places|
      ensures PathAt(ds, places[j]) == paths[j]
    {
      if j < |front| {
        InFront(ds, k, front[j]);
      } else if j > |front| {
        BelowIs(ds, k, inner[j - |front| - 1]);
      }
    }
  }

  /** All gives the paths of all directories. */
  lemma {:induction false} AllAreAllPaths(ds: seq<Entry>) returns (places: seq<Address>)
    ensures IsListing(ds, places) && All(ds) == multiset(PathsAt(ds, places))
    decreases Size(ds)
  {
    if ds == [] {
      places := [];
    } else {
      var k := |ds| - 1;
      assert Size(ds) == Size(ds[..k]) + SizeOf(ds[k]) && SizeOf(ds[k]) > 0;
      var front := AllAreAllPaths(ds[..k]);
      var inner := [];
      if ds[k].Directory? {
        inner := AllAreAllPaths(ds[k].subs);
      }
      hide IsListing, PathsAt;
      places := LastListing(ds, front, inner);
    }
  }

  /** What has been tested and what is still below it are the first i entries. */
  ghost predicate Shared(dirlist: seq<Entry>, i: nat, tested: seq<string>, dirSublist: seq<Entry>)
    requires i <= |dirlist|
  {
    && All(dirlist[..i]) == multiset(tested) + All(dirSublist)
    && Size(dirSublist) + i == Size(dirlist[..i])
  }

  lemma SharedNext(dirlist: seq<Entry>, i: nat, tested: seq<string>, dirSublist: seq<Entry>)
    requires i < |dirlist| && Shared(dirlist, i, tested, dirSublist)
    ensures var d := dirlist[i];
            if d.Directory? then Shared(dirlist, i + 1, tested + [d.path], dirSublist + d.subs)
            else Shared(dirlist, i + 1, tested, dirSublist)
  {
    OneTaken(dirlist, i);
    hide All, Size;
    var d := dirlist[i];
    if d.Directory? {
      OneTested(tested, dirSublist, d);
    }
  }

  /** recursive_dir_test: tests the directories of its list; the subdirectories are its share of
      the new list. */
  method RecursiveDirTest(dirlist: seq<Entry>) returns (tested: seq<string>, dirSublist: seq<Entry>)
    ensures All(dirlist) == multiset(tested) + All(dirSublist)
    ensures Size(dirSublist) + |dirlist| == Size(dirlist)
  {
    tested, dirSublist := [], [];
    assert dirlist[..0] == [] && Shared(dirlist, 0, tested, dirSublist);
    for i := 0 to |dirlist|
      invariant Shared(dirlist, i, tested, dirSublist)
    {
      hide *;
      var d := dirlist[i];
      SharedNext(dirlist, i, tested, dirSublist);
      if d.Directory? {
        dirSublist := dirSublist + d.subs;
        tested := tested + [d.path];
      }
    }
    hide All, Size;
    assert dirlist[..|dirlist|] == dirlist;
  }

  /** The forests still to be appended by the processes of a batch. */
  function AllPending(pending: seq<seq<Entry>>): multiset<string> {
    if pending == [] then multiset{}
    else AllPending(pending[..|pending| - 1]) + All(pending[|pending| - 1])
  }

  function SizePending(pending: seq<seq<Entry>>): nat {
    if pending == [] then 0
    else SizePending(pending[..|pending| - 1]) + Size(pending[|pending| - 1])
  }

  lemma {:induction false} PendingNext(pending: seq<seq<Entry>>, p: nat)
    requires p < |pending| && pending[p] != []
    ensures AllPending(pending) == AllPending(pending[p := pending[p][1..]]) + AllIn(pending[p][0])
    ensures SizePending(pending) == SizePending(pending[p := pending[p][1..]]) + SizeOf(pending[p][0])
    decreases |pending|
  {
    hide All, AllIn, Size, SizeOf;
    var k := |pending| - 1;
    AllFirst(pending[p]);
    if p < k {
      PendingNext(pending[..k], p);
      assert pending[p := pending[p][1..]][..k] == pending[..k][p := pending[p][1..]];
    } else {
      assert pending[p := pending[p][1..]][..k] == pending[..k];
    }
  }

  lemma {:induction false} NothingPending(pending: seq<seq<Entry>>)
    requires forall p | 0 <= p < |pending| :: pending[p] == []
    ensures AllPending(pending) == multiset{} && SizePending(pending) == 0
  {
    if pending != [] {
      NothingPending(pending[..|pending| - 1]);
    }
  }

  /** The entries of all lists together. */
  function Entries(pending: seq<seq<Entry>>): multiset<Entry> {
    if pending == [] then multiset{}
    else Entries(pending[..|pending| - 1]) + multiset(pending[|pending| - 1])
  }

  lemma {:induction false} EntriesNext(pending: seq<seq<Entry>>, p: nat)
    requires p < |pending| && pending[p] != []
    ensures Entries(pending) == Entries(pending[p := pending[p][1..]]) + multiset{pending[p][0]}
    decreases |pending|
  {
    var k := |pending| - 1;
    var next := pending[p := pending[p][1..]];
    FirstEntry(pending[p]);
    if p < k {
      EntriesNext(pending[..k], p);
      assert next[..k] == pending[..k][p := pending[p][1..]];
    } else {
      assert next[..k] == pending[..k];
    }
  }

  lemma FirstEntry(ds: seq<Entry>)
    requires ds != []
    ensures multiset(ds) == multiset{ds[0]} + multiset(ds[1..])
  {
    assert ds == [ds[0]] + ds[1..];
  }

  lemma {:induction false} NoEntries(pending: seq<seq<Entry>>)
    requires forall p | 0 <= p < |pending| :: pending[p] == []
    ensures Entries(pending) == multiset{}
  {
    if pending != [] {
      NoEntries(pending[..|pending| - 1]);
    }
  }

  lemma AppendOne(ds: seq<Entry>, d: Entry)
    ensures All(ds + [d]) == All(ds) + AllIn(d) && Size(ds + [d]) == Size(ds) + SizeOf(d) && SizeOf(d) > 0
  {
    assert (ds + [d])[..|ds|] == ds;
  }

  lemma AppendNone(shares: seq<seq<Entry>>)
    ensures All([]) + AllPending(shares) == AllPending(shares) && Size([]) == 0
  {
  }

  /** The processes append one entry at a time; which one comes next is anybody's guess. */
  method Append(shares: seq<seq<Entry>>) returns (newDirs: seq<Entry>)
    ensures multiset(newDirs) == Entries(shares)
    ensures All(newDirs) == AllPending(shares) && Size(newDirs) == SizePending(shares)
  {
    newDirs := [];
    var pending := shares;
    hide All, AllPending, Size, SizePending, Entries;
    AppendNone(shares);
    while exists p :: 0 <= p < |pending| && pending[p] != []
      invariant multiset(newDirs) + Entries(pending) == Entries(shares)
      invariant All(newDirs) + AllPending(pending) == AllPending(shares)
      invariant Size(newDirs) + SizePending(pending) == SizePending(shares)
      decreases SizePending(pending)
    {
      var p :| 0 <= p < |pending| && pending[p] != [];
      PendingNext(pending, p);
      EntriesNext(pending, p);
      AppendOne(newDirs, pending[p][0]);
      newDirs := newDirs + [pending[p][0]];
      pending := pending[p := pending[p][1..]];
    }
    NothingPending(pending);
    NoEntries(pending);
  }

  lemma TakeOneMore(ds: seq<Entry>, j: nat)
    requires j < |ds|
    ensures All(ds[..j + 1]) == All(ds[..j]) + All([ds[j]]) && Size(ds[..j + 1]) == Size(ds[..j]) + Size([ds[j]])
  {
    assert ds[..j + 1] == ds[..j] + [ds[j]];
    AllConcat(ds[..j], [ds[j]]);
  }

  lemma OneMorePending(pending: seq<seq<Entry>>, s: seq<Entry>)
    ensures AllPending(pending + [s]) == AllPending(pending) + All(s)
    ensures SizePending(pending + [s]) == SizePending(pending) + Size(s)
  {
    assert (pending + [s])[..|pending|] == pending;
  }

  /** Runs one process for each directory of a batch. */
  method RunBatch(batch: seq<Entry>) returns (tested: seq<string>, newDirs: seq<Entry>)
    ensures All(batch) == multiset(tested) + All(newDirs)
    ensures Size(newDirs) + |batch| == Size(batch)
  {
    tested := [];
    var shares := [];
    assert All(batch[..0]) == AllPending(shares) && SizePending(shares) == Size(batch[..0]);
    hide All, Size, AllPending, SizePending;
    for j := 0 to |batch|
      invariant All(batch[..j]) == multiset(tested) + AllPending(shares)
      invariant SizePending(shares) + j == Size(batch[..j])
    {
      TakeOneMore(batch, j);
      var t, s := RecursiveDirTest([batch[j]]);
      OneMorePending(shares, s);
      assert multiset(tested + t) == multiset(tested) + multiset(t);
      tested, shares := tested + t, shares + [s];
    }
    assert batch[..|batch|] == batch;
    newDirs := Append(shares);
  }

  /** What a batch leaves to be tested, and how much smaller it is. */
  lemma AfterBatch(dirList: seq<Entry>, i: nat, j: nat, newDirs: seq<Entry>)
    requires i <= j <= |dirList|
    ensures (dirList + newDirs)[j..] == dirList[j..] + newDirs
    ensures All((dirList + newDirs)[j..]) == All(dirList[j..]) + All(newDirs)
    ensures All(dirList[i..]) == All(dirList[i..j]) + All(dirList[j..])
    ensures Size((dirList + newDirs)[j..]) + Size(dirList[i..j]) == Size(dirList[i..]) + Size(newDirs)
  {
    hide All, Size;
    assert dirList[i..] == dirList[i..j] + dirList[j..];
    AllConcat(dirList[i..j], dirList[j..]);
    AllConcat(dirList[j..], newDirs);
  }

  lemma Reshare(tested: multiset<string>, t: multiset<string>, n: multiset<string>, rest: multiset<string>, batch: multiset<string>)
    requires batch == t + n
    ensures tested + (batch + rest) == (tested + t) + (rest + n)
  {
  }

  /** A batch tested moves its directories from the list to those tested. */
  lemma BatchDone(dirList: seq<Entry>, i: nat, j: nat, newDirs: seq<Entry>, tested: seq<string>, t: seq<string>,
                  dirs: seq<Entry>)
    requires i < j <= |dirList| && SoFar(dirList, i, tested, dirs)
    requires All(dirList[i..j]) == multiset(t) + All(newDirs) && Size(newDirs) + (j - i) == Size(dirList[i..j])
    ensures SoFar(dirList + newDirs, j, tested + t, dirs) && Left(dirList + newDirs, j) < Left(dirList, i)
  {
    hide All, Size;
    AfterBatch(dirList, i, j, newDirs);
    assert multiset(tested + t) == multiset(tested) + multiset(t);
    Reshare(multiset(tested), multiset(t), All(newDirs), All(dirList[j..]), All(dirList[i..j]));
  }

  /** dir_subdir_test: terminates for every forest, number of processors and interleaving, and
      tests every directory exactly as often as it occurs. */
  method DirSubdirTest(dirs: seq<Entry>, nbCpu: nat) returns (tested: seq<string>)
    requires nbCpu > 0
    ensures multiset(tested) == All(dirs)
    ensures AreAllPaths(multiset(tested), dirs)
  {
    var dirList, i := dirs, 0;
    tested := [];
    Unstarted(dirs);
    hide All, Size, SoFar, Left, AreAllPaths;
    while i < |dirList|
      invariant 0 <= i <= |dirList| && SoFar(dirList, i, tested, dirs)
      decreases Left(dirList, i)
    {
      var batch := NextBatch(dirList, i, nbCpu);
      var t, newDirs := RunBatch(batch);
      BatchDone(dirList, i, i + |batch|, newDirs, tested, t, dirs);
      i := i + |batch|;
      dirList, tested := dirList + newDirs, tested + t;
    }
    Finished(dirList, i, tested, dirs);
  }

  /** What has been tested and what is left make up the whole forest. */
  ghost predicate SoFar(dirList: seq<Entry>, i: nat, tested: seq<string>, dirs: seq<Entry>)
    requires i <= |dirList|
  {
    multiset(tested) + All(dirList[i..]) == All(dirs)
  }

  ghost function Left(dirList: seq<Entry>, i: nat): nat
    requires i <= |dirList|
  {
    Size(dirList[i..])
  }

  lemma Unstarted(dirs: seq<Entry>)
    ensures SoFar(dirs, 0, [], dirs)
  {
    assert dirs[0..] == dirs;
  }

  lemma Finished(dirList: seq<Entry>, i: nat, tested: seq<string>, dirs: seq<Entry>)
    requires i == |dirList| && SoFar(dirList, i, tested, dirs)
    ensures multiset(tested) == All(dirs) && AreAllPaths(multiset(tested), dirs)
  {
    assert dirList[i..] == [] && All([]) == multiset{};
    hide All, IsListing, PathsAt;
    var places := AllAreAllPaths(dirs);
  }

  /** The loop that fills dir_list_temp. */
  method NextBatch(dirList: seq<Entry>, i: nat, nbCpu: nat) returns (batch: seq<Entry>)
    requires i < |dirList| && nbCpu > 0
    ensures 0 < |batch| <= nbCpu && i + |batch| <= |dirList| && batch == dirList[i..i + |batch|]
  {
    batch := [];
    for j := 0 to nbCpu
      invariant |batch| <= j && i + |batch| <= |dirList| && batch == dirList[i..i + |batch|]
      invariant j > 0 ==> |batch| > 0
    {
      if i + |batch| < |dirList| {
        batch := batch + [dirList[i + |batch|]];
      }
    }
  }
}
