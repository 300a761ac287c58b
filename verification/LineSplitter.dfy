// Reading the output of a process line by line, whatever pieces the reads return it in.

module LineSplitter {

  /** Python's s.split("\\n"). */
  function Split(s: string): (r: seq<string>)
    ensures |r| > 0
  {
    if s == "" then [""]
    else
      var r, c := Split(s[..|s| - 1]), s[|s| - 1];
      if c == '\n' then r + [""] else r[..|r| - 1] + [r[|r| - 1] + [c]]
  }

  /** Python's "\\n".join(ls). */
  function Join(ls: seq<string>): string {
    if ls == [] then ""
    else if |ls| == 1 then ls[0]
    else Join(ls[..|ls| - 1]) + "\n" + ls[|ls| - 1]
  }

  lemma JoinNext(ls: seq<string>, l: string)
    ensures Join(ls + [l]) == if ls == [] then l else Join(ls) + "\n" + l
  {
    assert (ls + [l])[..|ls|] == ls;
  }

  /** One more character. */
  lemma SplitNext(s: string, c: char)
    ensures var r := Split(s);
            Split(s + [c]) == if c == '\n' then r + [""] else r[..|r| - 1] + [r[|r| - 1] + [c]]
  {
    assert (s + [c])[..|s|] == s;
  }

  /** Splitting gives pieces without line breaks that join to the text again. */
  lemma JoinOfSplit(s: string)
    ensures Join(Split(s)) == s
    ensures forall k | 0 <= k < |Split(s)| :: '\n' !in Split(s)[k]
  {
    JoinBack(s);
    NoBreaks(s);
  }

  lemma {:induction false} NoBreaks(s: string)
    ensures forall k | 0 <= k < |Split(s)| :: '\n' !in Split(s)[k]
  {
    if s != "" {
      NoBreaks(s[..|s| - 1]);
    }
  }

  lemma {:induction false} JoinBack(s: string)
    ensures Join(Split(s)) == s
  {
    if s != "" {
      hide Split, Join;
      var k := |s| - 1;
      var r := Split(s[..k]);
      assert s == s[..k] + [s[k]] && r == r[..|r| - 1] + [r[|r| - 1]];
      JoinBack(s[..k]);
      SplitNext(s[..k], s[k]);
      if s[k] == '\n' {
        JoinNext(r, "");
      } else {
        JoinLonger(r[..|r| - 1], r[|r| - 1], s[k]);
      }
    }
  }

  lemma JoinLonger(front: seq<string>, last: string, c: char)
    ensures Join(front + [last + [c]]) == Join(front + [last]) + [c]
  {
    hide Join;
    JoinNext(front, last);
    JoinNext(front, last + [c]);
    if front != [] {
      assert (Join(front) + "\n") + (last + [c]) == ((Join(front) + "\n") + last) + [c];
    }
  }

  /** The complete lines of a text, and what comes after the last line break. */
  function Lines(s: string): seq<string> {
    Split(s)[..|Split(s)| - 1]
  }

  function Tail(s: string): string {
    Split(s)[|Split(s)| - 1]
  }

  /** Text that arrives later continues the unterminated tail. */
  lemma {:induction false} LinesContinue(a: string, b: string)
    ensures Lines(a + b) == Lines(a) + Lines(Tail(a) + b)
    ensures Tail(a + b) == Tail(Tail(a) + b)
    decreases |b|
  {
    hide Lines, Tail;
    if b == "" {
      assert a + b == a && Tail(a) + b == Tail(a);
      TailIsLine(a);
      assert Lines(a) + [] == Lines(a);
    } else {
      var k := |b| - 1;
      assert b == b[..k] + [b[k]];
      LinesContinue(a, b[..k]);
      ContinueNext(a, b[..k], b[k]);
    }
  }

  lemma ContinueNext(a: string, b: string, c: char)
    requires Lines(a + b) == Lines(a) + Lines(Tail(a) + b) && Tail(a + b) == Tail(Tail(a) + b)
    ensures Lines(a + (b + [c])) == Lines(a) + Lines(Tail(a) + (b + [c]))
    ensures Tail(a + (b + [c])) == Tail(Tail(a) + (b + [c]))
  {
    hide Lines, Tail;
    assert a + (b + [c]) == (a + b) + [c] && Tail(a) + (b + [c]) == (Tail(a) + b) + [c];
    Extend(a + b, c);
    Extend(Tail(a) + b, c);
    if c == '\n' {
      assert (Lines(a) + Lines(Tail(a) + b)) + [Tail(a + b)] == Lines(a) + (Lines(Tail(a) + b) + [Tail(a + b)]);
    }
  }

  /** One more character. */
  lemma Extend(s: string, c: char)
    ensures Lines(s + [c]) == if c == '\n' then Lines(s) + [Tail(s)] else Lines(s)
    ensures Tail(s + [c]) == if c == '\n' then "" else Tail(s) + [c]
  {
    assert (s + [c])[..|s|] == s;
    var r := Split(s);
    assert r == r[..|r| - 1] + [r[|r| - 1]];
  }

  lemma {:induction false} OneLine(s: string)
    requires '\n' !in s
    ensures Split(s) == [s]
  {
    if s != "" {
      OneLine(s[..|s| - 1]);
      assert s == s[..|s| - 1] + [s[|s| - 1]];
    }
  }

  lemma TailIsLine(s: string)
    ensures '\n' !in Tail(s) && Lines(Tail(s)) == [] && Tail(Tail(s)) == Tail(s)
  {
    JoinOfSplit(s);
    OneLine(Tail(s));
  }

  /** The lines that are not empty. */
  function NonEmpty(ls: seq<string>): seq<string> {
    if ls == [] then []
    else NonEmpty(ls[..|ls| - 1]) + if ls[|ls| - 1] == "" then [] else [ls[|ls| - 1]]
  }

  lemma {:induction false} NonEmptyConcat(ls: seq<string>, ms: seq<string>)
    ensures NonEmpty(ls + ms) == NonEmpty(ls) + NonEmpty(ms)
    decreases |ms|
  {
    if ms == [] {
      assert ls + ms == ls;
    } else {
      var k := |ms| - 1;
      assert (ls + ms)[..|ls| + k] == ls + ms[..k];
      NonEmptyConcat(ls, ms[..k]);
    }
  }

  /** Lines that join to nothing have nothing to hand over. */
  lemma JoinsToNothing(ls: seq<string>)
    requires Join(ls) == ""
    ensures NonEmpty(ls) == []
  {
    if |ls| == 1 {
      assert ls[..0] == [];
    }
  }

  /** A text without its line breaks. */
  function Letters(s: string): string {
    if s == "" then ""
    else Letters(s[..|s| - 1]) + if s[|s| - 1] == '\n' then "" else [s[|s| - 1]]
  }

  function Concat(ls: seq<string>): string {
    if ls == [] then "" else Concat(ls[..|ls| - 1]) + ls[|ls| - 1]
  }

  lemma {:induction false} LettersConcat(a: string, b: string)
    ensures Letters(a + b) == Letters(a) + Letters(b)
    decreases |b|
  {
    if b == "" {
      assert a + b == a;
    } else {
      var k := |b| - 1;
      assert (a + b)[..|a| + k] == a + b[..k];
      LettersConcat(a, b[..k]);
    }
  }

  lemma {:induction false} LettersOfLine(s: string)
    requires '\n' !in s
    ensures Letters(s) == s
  {
    if s != "" {
      LettersOfLine(s[..|s| - 1]);
    }
  }

  lemma {:induction false} LettersOfJoin(ls: seq<string>)
    requires forall k | 0 <= k < |ls| :: '\n' !in ls[k]
    ensures Letters(Join(ls)) == Concat(ls)
  {
    if |ls| == 1 {
      LettersOfLine(ls[0]);
      assert ls[..0] == [];
    } else if |ls| > 1 {
      var k := |ls| - 1;
      LettersOfJoin(ls[..k]);
      LettersConcat(Join(ls[..k]) + "\n", ls[k]);
      LettersConcat(Join(ls[..k]), "\n");
      LettersOfLine(ls[k]);
      assert "\n"[..0] == "";
    }
  }

  lemma {:induction false} ConcatAppend(ls: seq<string>, ms: seq<string>)
    ensures Concat(ls + ms) == Concat(ls) + Concat(ms)
    decreases |ms|
  {
    if ms == [] {
      assert ls + ms == ls;
    } else {
      var k := |ms| - 1;
      assert (ls + ms)[..|ls| + k] == ls + ms[..k];
      ConcatAppend(ls, ms[..k]);
    }
  }

  /** Putting the kept chunk in front of the first piece is splitting the chunk and the text. */
  lemma FirstPiece(fed: seq<string>, newOut: string)
    ensures var chunk := Tail(Concat(fed));
            [chunk + Split(newOut)[0]] + Split(newOut)[1..] == Batch(fed, newOut) + [Tail(chunk + newOut)]
  {
    hide Concat;
    TailIsLine(Concat(fed));
    PieceInFront(Tail(Concat(fed)), newOut);
  }

  lemma {:induction false} PieceInFront(chunk: string, s: string)
    requires '\n' !in chunk
    ensures Split(chunk + s) == [chunk + Split(s)[0]] + Split(s)[1..]
    decreases |s|
  {
    if s == "" {
      assert chunk + s == chunk;
      OneLine(chunk);
    } else {
      hide Split;
      var k := |s| - 1;
      assert chunk + s == (chunk + s[..k]) + [s[k]] && s == s[..k] + [s[k]];
      PieceInFront(chunk, s[..k]);
      SplitNext(chunk + s[..k], s[k]);
      SplitNext(s[..k], s[k]);
      InFront(chunk, Split(s[..k]), s[k]);
    }
  }

  /** One more character, on the pieces with and without the chunk in front. */
  lemma InFront(chunk: string, r: seq<string>, c: char)
    requires |r| > 0
    ensures var q := [chunk + r[0]] + r[1..];
            && q + [""] == [chunk + (r + [""])[0]] + (r + [""])[1..]
            && var p := r[..|r| - 1] + [r[|r| - 1] + [c]];
               q[..|q| - 1] + [q[|q| - 1] + [c]] == [chunk + p[0]] + p[1..]
  {
    var q := [chunk + r[0]] + r[1..];
    var p := r[..|r| - 1] + [r[|r| - 1] + [c]];
    if |r| == 1 {
      assert p == [r[0] + [c]] && q == [chunk + r[0]];
      assert (chunk + r[0]) + [c] == chunk + (r[0] + [c]);
    }
  }

  // ----- reading in pieces -----

  /** The lines that a piece completes after the pieces fed before. */
  function Batch(fed: seq<string>, piece: string): seq<string> {
    Lines(Tail(Concat(fed)) + piece)
  }

  /** A piece whose batch joins to nothing: its lines are dropped and the loop stops. */
  predicate Silent(fed: seq<string>, piece: string) {
    Join(Batch(fed, piece)) == ""
  }

  /** The lines handed over, and the text collected, after the pieces fed so far. */
  function Handled(fed: seq<string>): seq<string> {
    if fed == [] then []
    else
      var k := |fed| - 1;
      Handled(fed[..k]) + if Silent(fed[..k], fed[k]) then [] else Batch(fed[..k], fed[k])
  }

  function Collected(fed: seq<string>): string {
    if fed == [] then ""
    else
      var k := |fed| - 1;
      Collected(fed[..k]) + Join(Batch(fed[..k], fed[k]))
  }

  /** How many of the pieces one call takes: up to the first silent one. */
  function Consumed(fed: seq<string>, pieces: seq<string>): (n: nat)
    ensures n <= |pieces| && (pieces != [] ==> n > 0)
    decreases |pieces|
  {
    if pieces == [] then 0
    else if Silent(fed, pieces[0]) then 1
    else 1 + Consumed(fed + [pieces[0]], pieces[1..])
  }

  lemma LastFed(fed: seq<string>)
    requires fed != []
    ensures var k := |fed| - 1; Lines(Concat(fed)) == Lines(Concat(fed[..k])) + Batch(fed[..k], fed[k])
  {
    var k := |fed| - 1;
    LinesContinue(Concat(fed[..k]), fed[k]);
  }

  /** However the stream is cut, the handler gets the lines of the whole stream in order, empty
      ones aside. */
  lemma {:induction false} HandledAreLines(fed: seq<string>)
    ensures NonEmpty(Handled(fed)) == NonEmpty(Lines(Concat(fed)))
  {
    if fed != [] {
      var k := |fed| - 1;
      var batch := Batch(fed[..k], fed[k]);
      HandledAreLines(fed[..k]);
      LastFed(fed);
      HandledNext(fed);
      hide Batch, Lines, Concat, Handled, NonEmpty, Join;
      NonEmptyConcat(Lines(Concat(fed[..k])), batch);
      NonEmptyConcat(Handled(fed[..k]), batch);
      if Silent(fed[..k], fed[k]) {
        JoinsToNothing(batch);
        assert NonEmpty(Lines(Concat(fed[..k]))) + [] == NonEmpty(Lines(Concat(fed[..k])));
      }
    }
  }

  lemma HandledNext(fed: seq<string>)
    requires fed != []
    ensures var k := |fed| - 1;
            Handled(fed) == if Silent(fed[..k], fed[k]) then Handled(fed[..k]) else Handled(fed[..k]) + Batch(fed[..k], fed[k])
  {
  }

  /** A batch is silent when it completes no line, or one empty line. */
  lemma SilentIff(fed: seq<string>, piece: string)
    ensures Silent(fed, piece) <==> Batch(fed, piece) == [] || Batch(fed, piece) == [""]
    ensures Batch(fed, piece) == [] <==> '\n' !in piece
  {
    hide Lines, Tail;
    LinesNone(Tail(Concat(fed)) + piece);
    TailIsLine(Concat(fed));
  }

  lemma {:induction false} LinesNone(s: string)
    ensures Lines(s) == [] <==> '\n' !in s
  {
    if s != "" {
      var k := |s| - 1;
      LinesNone(s[..k]);
      assert s == s[..k] + [s[k]];
      Extend(s[..k], s[k]);
    }
  }

  /** One call takes all the pieces exactly when none but the last is silent. */
  lemma {:induction false} AllConsumedIff(fed: seq<string>, pieces: seq<string>)
    ensures Consumed(fed, pieces) == |pieces| <==>
            forall k | 0 <= k < |pieces| - 1 :: !Silent(fed + pieces[..k], pieces[k])
    decreases |pieces|
  {
    hide Silent;
    if |pieces| > 1 {
      AllConsumedIff(fed + [pieces[0]], pieces[1..]);
      assert fed + pieces[..0] == fed;
      forall k | 0 <= k < |pieces| - 2
        ensures fed + [pieces[0]] + pieces[1..][..k] == fed + pieces[..k + 1]
      {
      }
      AllButFirst(fed, pieces);
    }
  }

  lemma AllButFirst(fed: seq<string>, pieces: seq<string>)
    requires |pieces| > 1
    ensures (forall k | 0 <= k < |pieces| - 1 :: !Silent(fed + pieces[..k], pieces[k])) <==>
            !Silent(fed, pieces[0]) &&
            forall k | 0 <= k < |pieces| - 2 :: !Silent(fed + [pieces[0]] + pieces[1..][..k], pieces[1..][k])
  {
    hide Silent;
    assert fed + pieces[..0] == fed;
    forall k | 0 < k < |pieces| - 1
      ensures fed + pieces[..k] == fed + [pieces[0]] + pieces[1..][..k - 1] && pieces[k] == pieces[1..][k - 1]
    {
    }
    if forall k | 0 <= k < |pieces| - 1 :: !Silent(fed + pieces[..k], pieces[k]) {
      forall k | 0 <= k < |pieces| - 2
        ensures !Silent(fed + [pieces[0]] + pieces[1..][..k], pieces[1..][k])
      {
        assert !Silent(fed + pieces[..k + 1], pieces[k + 1]);
      }
    }
  }

  /** One read_output, from the pieces fed before and those on offer: it feeds u and leaves the
      rest. It does not go on after a silent piece, and stops only there or at the end. */
  ghost predicate Reads(was: seq<string>, pieces: seq<string>, u: seq<string>, left: seq<string>) {
    && u + left == pieces
    && (forall k | 0 <= k < |u| - 1 :: !Silent(was + u[..k], u[k]))
    && (left == [] || EndsSilent(was, u))
  }

  ghost predicate EndsSilent(was: seq<string>, u: seq<string>) {
    u != [] && Silent(was + u[..|u| - 1], u[|u| - 1])
  }

  lemma {:induction false} ConsumedReads(was: seq<string>, pieces: seq<string>)
    ensures var n := Consumed(was, pieces); Reads(was, pieces, pieces[..n], pieces[n..])
    decreases |pieces|
  {
    hide Silent;
    assert was + pieces[..0] == was;
    if pieces != [] && !Silent(was, pieces[0]) {
      var rest := pieces[1..];
      var m := Consumed(was + [pieces[0]], rest);
      ConsumedReads(was + [pieces[0]], rest);
      assert pieces[..m + 1] == [pieces[0]] + rest[..m] && pieces[m + 1..] == rest[m..];
      ReadsOn(was, pieces[0], rest, rest[..m], rest[m..]);
    }
  }

  /** A piece that is not silent in front of what is read. */
  lemma ReadsOn(was: seq<string>, p: string, rest: seq<string>, u: seq<string>, left: seq<string>)
    requires !Silent(was, p) && Reads(was + [p], rest, u, left)
    ensures Reads(was, [p] + rest, [p] + u, left)
  {
    hide Silent;
    var v := [p] + u;
    forall k | 0 <= k < |v| - 1
      ensures !Silent(was + v[..k], v[k])
    {
      if k == 0 {
        assert was + v[..0] == was;
      } else {
        assert was + v[..k] == (was + [p]) + u[..k - 1];
        assert !Silent((was + [p]) + u[..k - 1], u[k - 1]);
      }
    }
    if EndsSilent(was + [p], u) {
      assert was + v[..|v| - 1] == (was + [p]) + u[..|u| - 1];
    }
  }

  /** There is only one way to read. */
  lemma ReadsUnique(was: seq<string>, pieces: seq<string>, u: seq<string>, left: seq<string>, v: seq<string>, rest: seq<string>)
    requires Reads(was, pieces, u, left) && Reads(was, pieces, v, rest)
    ensures u == v && left == rest
  {
    hide Silent;
    assert u == pieces[..|u|] && v == pieces[..|v|] && left == pieces[|u|..] && rest == pieces[|v|..];
    if |u| < |v| {
      EarlierSilent(was, pieces, u, left, v, rest);
      assert false;
    } else if |v| < |u| {
      EarlierSilent(was, pieces, v, rest, u, left);
      assert false;
    }
  }

  /** Where reading stops before all of v, a piece of v before its last is silent. */
  lemma EarlierSilent(was: seq<string>, pieces: seq<string>, u: seq<string>, left: seq<string>, v: seq<string>, rest: seq<string>)
    requires Reads(was, pieces, u, left) && v + rest == pieces && |u| < |v|
    ensures u != [] && Silent(was + v[..|u| - 1], v[|u| - 1])
  {
    hide Silent;
    assert u == pieces[..|u|] && v == pieces[..|v|];
    assert |left| > 0;
    assert v[..|u| - 1] == u[..|u| - 1];
  }

  // ----- the text collected -----

  /** How many pieces complete a line. */
  function Breaking(fed: seq<string>): nat {
    if fed == [] then 0
    else
      var k := |fed| - 1;
      Breaking(fed[..k]) + if '\n' in fed[k] then 1 else 0
  }

  lemma {:induction false} JoinAppend(ls: seq<string>, ms: seq<string>)
    requires ms != []
    ensures Join(ls + ms) == if ls == [] then Join(ms) else Join(ls) + "\n" + Join(ms)
    decreases |ms|
  {
    hide Join;
    var k := |ms| - 1;
    assert ls + ms == (ls + ms[..k]) + [ms[k]] && ms == ms[..k] + [ms[k]];
    JoinNext(ls + ms[..k], ms[k]);
    JoinNext(ms[..k], ms[k]);
    if k == 0 {
      assert ls + ms[..0] == ls;
    } else {
      JoinAppend(ls, ms[..k]);
      JoinSums(Join(ls), Join(ms[..k]), ms[k]);
    }
  }

  lemma JoinSums(a: string, b: string, c: string)
    ensures (a + "\n" + b) + "\n" + c == a + "\n" + (b + "\n" + c)
  {
  }

  /** The text collected lacks one line break for every piece but the first that completes a
      line. */
  lemma {:induction false} CollectedLength(fed: seq<string>)
    ensures |Collected(fed)| + (if Breaking(fed) == 0 then 0 else Breaking(fed) - 1) == |Join(Lines(Concat(fed)))|
    ensures Breaking(fed) == 0 <==> Lines(Concat(fed)) == []
    ensures Breaking(fed) <= 1 ==> Collected(fed) == Join(Lines(Concat(fed)))
  {
    if fed != [] {
      var k := |fed| - 1;
      CollectedLength(fed[..k]);
      LastFed(fed);
      SilentIff(fed[..k], fed[k]);
      hide Batch, Lines, Concat, Join;
      var before, batch := Lines(Concat(fed[..k])), Batch(fed[..k], fed[k]);
      JoinOfNone();
      if batch == [] {
        assert before + batch == before;
      } else {
        JoinAppend(before, batch);
        if before == [] {
          assert "" + Join(batch) == Join(batch);
        }
      }
    } else {
      assert Lines("") == [];
    }
  }

  lemma JoinOfNone()
    ensures Join([]) == ""
  {
  }

  /** It is the stream's complete lines exactly when they arrived in one piece. */
  lemma CollectedIff(fed: seq<string>)
    ensures Collected(fed) == Join(Lines(Concat(fed))) <==> Breaking(fed) <= 1
  {
    CollectedLength(fed);
  }

  lemma {:induction false} CollectedLetters(fed: seq<string>)
    ensures Letters(Collected(fed)) == Concat(Lines(Concat(fed)))
  {
    if fed != [] {
      var k := |fed| - 1;
      var batch := Batch(fed[..k], fed[k]);
      CollectedLetters(fed[..k]);
      LastFed(fed);
      JoinOfSplit(Tail(Concat(fed[..k])) + fed[k]);
      assert forall i | 0 <= i < |batch| :: '\n' !in batch[i];
      hide Batch, Lines, Concat, Letters;
      LettersOfJoin(batch);
      LettersConcat(Collected(fed[..k]), Join(batch));
      ConcatAppend(Lines(Concat(fed[..k])), batch);
    }
  }

  lemma BreakingPieces(p: string, q: string)
    requires '\n' in p && '\n' in q
    ensures Breaking([p, q]) == 2
  {
    assert [p, q][..1] == [p] && [p][..0] == [];
    assert Breaking([p][..0]) == 0;
    assert Breaking([p]) == 1;
  }

  /** The smallest loss: two lines in two pieces are collected as one. */
  lemma TwoPiecesLoseBreak()
    ensures Collected(["a\n", "b\n"]) != Join(Lines(Concat(["a\n", "b\n"])))
  {
    var fed := ["a\n", "b\n"];
    BreakingPieces("a\n", "b\n");
    CollectedIff(fed);
  }

  /** One more piece. */
  lemma FeedOne(fed: seq<string>, piece: string)
    ensures Tail(Concat(fed + [piece])) == Tail(Tail(Concat(fed)) + piece)
    ensures Handled(fed + [piece]) == if Silent(fed, piece) then Handled(fed) else Handled(fed) + Batch(fed, piece)
    ensures Collected(fed + [piece]) == Collected(fed) + Join(Batch(fed, piece))
    ensures Silent(fed, piece) ==> Collected(fed + [piece]) == Collected(fed)
  {
    assert (fed + [piece])[..|fed|] == fed;
    LinesContinue(Concat(fed), piece);
    HandledNext(fed + [piece]);
    hide Handled, Tail, Batch;
  }

  /** The loop has taken the first n pieces, and will take as many more as a call would. */
  ghost predicate Taken(was: seq<string>, fed: seq<string>, pieces: seq<string>, n: nat, more: bool)
    requires n <= |pieces|
  {
    && fed == was + pieces[..n]
    && Consumed(was, pieces) == n + if more then Consumed(fed, pieces[n..]) else 0
  }

  lemma TakenNone(fed: seq<string>, pieces: seq<string>)
    ensures Taken(fed, fed, pieces, 0, true)
  {
    assert fed + pieces[..0] == fed && pieces[0..] == pieces;
  }

  lemma TakenNext(was: seq<string>, fed: seq<string>, pieces: seq<string>, n: nat)
    requires n < |pieces| && Taken(was, fed, pieces, n, true)
    ensures Taken(was, fed + [pieces[n]], pieces, n + 1, !Silent(fed, pieces[n]))
  {
    hide Silent;
    assert pieces[n..][1..] == pieces[n + 1..];
    assert (was + pieces[..n]) + [pieces[n]] == was + pieces[..n + 1];
  }

  lemma TakenAll(was: seq<string>, fed: seq<string>, pieces: seq<string>, n: nat, more: bool)
    requires n <= |pieces| && Taken(was, fed, pieces, n, more) && (more ==> n == |pieces|)
    ensures n == Consumed(was, pieces) && fed == was + pieces[..n]
  {
  }

  // ----- the runner -----

  class Runner {
    const hasHandler: bool
    var outLineChunk: string
    var out: string
    var handled: seq<string>
    ghost var fed: seq<string>

    /** After the pieces fed so far. */
    ghost predicate Valid()
      reads this
    {
      && outLineChunk == Tail(Concat(fed))
      && handled == (if hasHandler then Handled(fed) else [])
      && out == Collected(fed)
    }

    constructor (hasHandler: bool)
      ensures Valid() && fed == [] && this.hasHandler == hasHandler
    {
      this.hasHandler := hasHandler;
      outLineChunk, out, handled, fed := "", "", [], [];
    }

    /** One turn of the loop on what a read returned; false stands for its break. */
    method Feed(newOut: string) returns (more: bool)
      requires Valid()
      modifies this
      ensures Valid() && fed == old(fed) + [newOut]
      ensures more <==> !Silent(old(fed), newOut)
    {
      hide Handled, Collected, Concat, Join, Split, Tail, Batch;
      var lines := Split(newOut);
      FirstPiece(fed, newOut);
      FeedOne(fed, newOut);
      lines := [outLineChunk + lines[0]] + lines[1..];
      outLineChunk := lines[|lines| - 1];
      lines := lines[..|lines| - 1];
      var text := Join(lines);
      fed := fed + [newOut];
      if text != "" {
        out := out + text;
        if hasHandler {
          handled := handled + lines;
        }
        more := true;
      } else {
        more := false;
      }
    }

    /** The standard output's half of read_output. The pieces are what the process has to offer
        until a read would block. */
    method ReadOutput(pieces: seq<string>) returns (used: nat)
      requires Valid()
      modifies this
      ensures Valid() && used == Consumed(old(fed), pieces) && fed == old(fed) + pieces[..used]
      ensures Reads(old(fed), pieces, pieces[..used], pieces[used..])
    {
      ghost var start := fed;
      used := 0;
      var more := true;
      TakenNone(fed, pieces);
      hide Valid, Silent, Taken, Reads;
      while more && used < |pieces|
        invariant 0 <= used <= |pieces| && Valid() && Taken(start, fed, pieces, used, more)
        decreases |pieces| - used
      {
        TakenNext(start, fed, pieces, used);
        more := Feed(pieces[used]);
        used := used + 1;
      }
      TakenAll(start, fed, pieces, used, more);
      ConsumedReads(start, pieces);
    }

    /** The polling loop: at every turn some pieces have arrived, and those that the last call
        left are still there. */
    method Poll(arrivals: seq<seq<string>>) returns (pending: seq<string>)
      requires Valid()
      modifies this
      ensures Valid() && PolledTo(old(fed), [], arrivals, fed, pending)
    {
      ghost var start := fed;
      pending := [];
      hide Valid, Consumed, Reads;
      for k := 0 to |arrivals|
        invariant Valid() && PolledTo(start, [], arrivals[..k], fed, pending)
      {
        assert arrivals[..k + 1][..k] == arrivals[..k];
        ghost var was, left := fed, pending;
        pending := pending + arrivals[k];
        var used := ReadOutput(pending);
        pending := pending[used..];
        assert IsTurn(was, left, arrivals[k], fed, pending) by {
          assert fed == was + (left + arrivals[k])[..used];
        }
      }
      assert arrivals[..|arrivals|] == arrivals;
    }

    /** run and wait: polling while the process runs, then one more read of what is left and of
        the last pieces. They all reach the lines if and only if none of them before the last
        one is silent. */
    method RunAndWait(arrivals: seq<seq<string>>, last: seq<string>)
      returns (unread: seq<string>, ghost was: seq<string>, pending: seq<string>)
      requires Valid()
      modifies this
      ensures Valid() && PolledTo(old(fed), [], arrivals, was, pending) && IsTurn(was, pending, last, fed, unread)
      ensures fed + unread == old(fed) + (Flat(arrivals) + last)
      ensures unread == [] <==>
              forall k | 0 <= k < |pending + last| - 1 :: !Silent(was + (pending + last)[..k], (pending + last)[k])
    {
      hide Valid, Consumed, Silent, Reads, PolledTo, IsTurn, Flat;
      ghost var start := fed;
      pending := Poll(arrivals);
      was := fed;
      PolledKeepsAll(start, [], arrivals, was, pending);
      var used := ReadOutput(pending + last);
      unread := (pending + last)[used..];
      LastTurn(was, pending, last, used);
      assert was + pending == start + Flat(arrivals);
      hide *;
      AppendLast(start, [], Flat(arrivals), last);
    }
  }

  // ----- polling -----

  /** One turn: the pieces left before and those that have arrived since are on offer. */
  ghost predicate IsTurn(was: seq<string>, left: seq<string>, t: seq<string>, was': seq<string>, left': seq<string>) {
    exists u :: was' == was + u && Reads(was, left + t, u, left')
  }

  lemma LastTurn(was: seq<string>, left: seq<string>, t: seq<string>, n: nat)
    requires n <= |left + t| && Reads(was, left + t, (left + t)[..n], (left + t)[n..])
    ensures IsTurn(was, left, t, was + (left + t)[..n], (left + t)[n..])
    ensures (was + (left + t)[..n]) + (left + t)[n..] == (was + left) + t
    ensures (left + t)[n..] == [] <==> forall k | 0 <= k < |left + t| - 1 :: !Silent(was + (left + t)[..k], (left + t)[k])
  {
    hide Silent, Reads;
    assert IsTurn(was, left, t, was + (left + t)[..n], (left + t)[n..]);
    TurnKeepsAll(was, left, t, was + (left + t)[..n], (left + t)[n..]);
    ReadsAllIff(was, left + t, n);
  }

  /** Nothing is left exactly when no piece before the last is silent. */
  lemma ReadsAllIff(was: seq<string>, pieces: seq<string>, n: nat)
    requires n <= |pieces| && Reads(was, pieces, pieces[..n], pieces[n..])
    ensures pieces[n..] == [] <==> forall k | 0 <= k < |pieces| - 1 :: !Silent(was + pieces[..k], pieces[k])
  {
    hide Silent;
    var u := pieces[..n];
    forall k | 0 <= k < |u|
      ensures u[..k] == pieces[..k] && u[k] == pieces[k]
    {
    }
    if n == |pieces| {
      assert u == pieces;
    } else {
      assert pieces[n..] != [] && Silent(was + pieces[..n - 1], pieces[n - 1]);
    }
  }

  /** Polling over these arrivals, one turn each, leads to these pieces fed and left. */
  ghost predicate PolledTo(was: seq<string>, left: seq<string>, arrivals: seq<seq<string>>, was': seq<string>, left': seq<string>)
    decreases |arrivals|
  {
    if arrivals == [] then was' == was && left' == left
    else
      var k := |arrivals| - 1;
      exists w, l :: PolledTo(was, left, arrivals[..k], w, l) && IsTurn(w, l, arrivals[k], was', left')
  }

  /** The arrivals fix what is fed and what is left. */
  lemma {:induction false} PolledUnique(was: seq<string>, left: seq<string>, arrivals: seq<seq<string>>,
                                        w: seq<string>, l: seq<string>, w': seq<string>, l': seq<string>)
    requires PolledTo(was, left, arrivals, w, l) && PolledTo(was, left, arrivals, w', l')
    ensures w == w' && l == l'
    decreases |arrivals|
  {
    if arrivals != [] {
      var k := |arrivals| - 1;
      var v, m :| PolledTo(was, left, arrivals[..k], v, m) && IsTurn(v, m, arrivals[k], w, l);
      var v', m' :| PolledTo(was, left, arrivals[..k], v', m') && IsTurn(v', m', arrivals[k], w', l');
      PolledUnique(was, left, arrivals[..k], v, m, v', m');
      hide Reads;
      var u :| w == v + u && Reads(v, m + arrivals[k], u, l);
      var u' :| w' == v + u' && Reads(v, m + arrivals[k], u', l');
      ReadsUnique(v, m + arrivals[k], u, l, u', l');
    }
  }

  /** Everything that has arrived, in order. */
  function Flat(arrivals: seq<seq<string>>): seq<string> {
    if arrivals == [] then [] else Flat(arrivals[..|arrivals| - 1]) + arrivals[|arrivals| - 1]
  }

  /** Polling loses, repeats and reorders nothing. */
  lemma {:induction false} PolledKeepsAll(was: seq<string>, left: seq<string>, arrivals: seq<seq<string>>,
                                          w: seq<string>, l: seq<string>)
    requires PolledTo(was, left, arrivals, w, l)
    ensures w + l == was + (left + Flat(arrivals))
    decreases |arrivals|
  {
    if arrivals == [] {
      assert left + [] == left;
    } else {
      var k := |arrivals| - 1;
      var v, m :| PolledTo(was, left, arrivals[..k], v, m) && IsTurn(v, m, arrivals[k], w, l);
      PolledKeepsAll(was, left, arrivals[..k], v, m);
      TurnKeepsAll(v, m, arrivals[k], w, l);
      hide *;
      AppendLast(was, left, Flat(arrivals[..k]), arrivals[k]);
      assert Flat(arrivals) == Flat(arrivals[..k]) + arrivals[k] by { FlatNext(arrivals); }
    }
  }

  lemma FlatNext(arrivals: seq<seq<string>>)
    requires arrivals != []
    ensures Flat(arrivals) == Flat(arrivals[..|arrivals| - 1]) + arrivals[|arrivals| - 1]
  {
  }

  lemma AppendLast(was: seq<string>, left: seq<string>, f: seq<string>, t: seq<string>)
    ensures (was + (left + f)) + t == was + (left + (f + t))
  {
  }

  lemma TurnKeepsAll(was: seq<string>, left: seq<string>, t: seq<string>, was': seq<string>, left': seq<string>)
    requires IsTurn(was, left, t, was', left')
    ensures was' + left' == (was + left) + t
  {
    hide Silent;
    var u :| was' == was + u && Reads(was, left + t, u, left');
    assert (was + u) + left' == was + (u + left');
    assert was + (left + t) == (was + left) + t;
  }

  /** The smallest output that is not read to its end: the last read stops after a piece without
      a line break. */
  lemma PartialLineStops()
    ensures Silent([], "a") && Consumed([], ["a", "\n"]) == 1
  {
    SilentIff([], "a");
    hide Silent, Batch;
    assert ["a", "\n"][0] == "a";
  }
}
