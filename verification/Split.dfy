/**
 The splitting and joining of im_str. Positions are 64-bit unsigned, and the splitting loop
 computes with npos, the largest of them, as if it were a position; what comes out of the
 wrap-around decides when splitting can be undone.
 */
module Split {
  import opened Wrappers

  const WORD: int := 0x1_0000_0000_0000_0000
  const NPOS: int := WORD - 1
  /** No object is larger than the largest pointer difference. */
  const MAX_SIZE: int := 0x7FFF_FFFF_FFFF_FFFF

  /** A std::size_t; sums and differences wrap around. */
  type Size = n: int | 0 <= n < WORD

  function Add(a: Size, b: Size): Size { if a + b < WORD then a + b else a + b - WORD }
  function Sub(a: Size, b: Size): Size { if b <= a then a - b else a - b + WORD }
  datatype Mode = Drop | Before | After
  /** split_full and substr are noexcept, so an exception inside them ends the program. */
  datatype Result = Terminated | Slices(pieces: seq<string>)

  // ---------- std::string_view ----------

  function Find(s: string, c: char, pos: Size): (r: Size)
    requires |s| <= MAX_SIZE
    ensures r != NPOS ==> pos <= r < |s| && s[r] == c && (forall k | pos <= k < r :: s[k] != c)
    ensures r == NPOS ==> forall k | pos <= k < |s| :: s[k] != c
    decreases |s| - pos
  {
    if pos >= |s| then NPOS else if s[pos] == c then pos else Find(s, c, pos + 1)
  }

  function FindLast(s: string, c: char): (r: Size)
    requires |s| <= MAX_SIZE
    ensures r != NPOS ==> r < |s| && s[r] == c && (forall k | r < k < |s| :: s[k] != c)
    ensures r == NPOS ==> forall k | 0 <= k < |s| :: s[k] != c
  {
    if s == "" then NPOS else if s[|s| - 1] == c then |s| - 1 else FindLast(s[..|s| - 1], c)
  }

  function Substr(s: string, pos: Size, count: Size): Option<string> {
    if pos > |s| then None
    else if count < |s| - pos then Some(s[pos..pos + count])
    else Some(s[pos..])
  }

  function CountFrom(s: string, c: char, pos: nat): nat
    decreases |s| - pos
  {
    if pos >= |s| then 0 else If(s[pos] == c) + CountFrom(s, c, pos + 1)
  }

  method Count(s: string, c: char) returns (n: nat)
    ensures n == CountFrom(s, c, 0)
  {
    n := 0;
    for i := 0 to |s|
      invariant n + CountFrom(s, c, i) == CountFrom(s, c, 0)
    {
      if s[i] == c { n := n + 1; }
    }
  }

  // ---------- what splitting is meant to compute ----------

  /** s from start on, cut at every d, which is dropped or stays with the piece after or before the cut. */
  function Pieces(s: string, d: char, m: Mode, start: nat): (p: seq<string>)
    requires start + If(m == Before) <= |s| <= MAX_SIZE
    ensures p != []
    decreases |s| - start
  {
    var f := Find(s, d, start + If(m == Before));
    if f == NPOS then [s[start..]]
    else [s[start..f + If(m == After)]] + Pieces(s, d, m, f + If(m != Before))
  }

  lemma {:induction false} CountSkips(s: string, d: char, from: nat, to: nat)
    requires from <= to <= |s| && forall k | from <= k < to :: s[k] != d
    ensures CountFrom(s, d, from) == CountFrom(s, d, to)
    decreases |s| - from
  {
    if from < to { CountSkips(s, d, from + 1, to); }
  }

  function Concat(p: seq<string>): string {
    if p == [] then "" else p[0] + Concat(p[1..])
  }

  function Join(p: seq<string>, d: char): string {
    if p == [] then "" else if |p| == 1 then p[0] else p[0] + [d] + Join(p[1..], d)
  }

  lemma JoinCons(x: string, p: seq<string>, d: char)
    ensures Join([x] + p, d) == if p == [] then x else x + [d] + Join(p, d)
  {
    assert ([x] + p)[1..] == p;
  }

  lemma ConcatCons(x: string, p: seq<string>)
    ensures Concat([x] + p) == x + Concat(p)
  {
    assert ([x] + p)[1..] == p;
  }

  lemma {:induction false} JoinSnoc(p: seq<string>, x: string, d: char)
    requires p != []
    ensures Join(p + [x], d) == Join(p, d) + [d] + x
  {
    if |p| == 1 {
      JoinCons(p[0], [x], d);
      assert p + [x] == [p[0]] + [x];
    } else {
      JoinSnoc(p[1..], x, d);
      JoinCons(p[0], p[1..] + [x], d);
      assert p + [x] == [p[0]] + (p[1..] + [x]);
    }
  }

  lemma {:induction false} ConcatSnoc(p: seq<string>, x: string)
    ensures Concat(p + [x]) == Concat(p) + x
  {
    if p == [] {
      ConcatCons(x, []);
      assert p + [x] == [x] + [];
    } else {
      ConcatSnoc(p[1..], x);
      ConcatCons(p[0], p[1..] + [x]);
      assert p + [x] == [p[0]] + (p[1..] + [x]);
    }
  }

  lemma {:induction false} ConcatSplit(p: seq<string>, i: nat)
    requires i <= |p|
    ensures Concat(p) == Concat(p[..i]) + Concat(p[i..])
    decreases |p| - i
  {
    if i == |p| {
      assert p[..i] == p && p[i..] == [];
    } else {
      ConcatSplit(p, i + 1);
      ConcatSnoc(p[..i], p[i]);
      assert p[..i + 1] == p[..i] + [p[i]];
      ConcatCons(p[i], p[i + 1..]);
      assert p[i..] == [p[i]] + p[i + 1..];
    }
  }

  lemma {:induction false} PiecesStep(s: string, d: char, m: Mode, start: nat) returns (f: nat)
    requires start + If(m == Before) <= |s| <= MAX_SIZE
    ensures f == Find(s, d, start + If(m == Before))
    ensures f == NPOS ==> Pieces(s, d, m, start) == [s[start..]]
    ensures f != NPOS ==>
      Pieces(s, d, m, start) == [s[start..f + If(m == After)]] + Pieces(s, d, m, f + If(m != Before))
  {
    f := Find(s, d, start + If(m == Before));
    if f != NPOS { PiecesCut(s, d, m, start, f); }
  }

  lemma {:induction false} PiecesCut(s: string, d: char, m: Mode, start: nat, f: nat)
    requires start + If(m == Before) <= |s| <= MAX_SIZE
    requires f == Find(s, d, start + If(m == Before)) && f != NPOS
    ensures Pieces(s, d, m, start) == [s[start..f + If(m == After)]] + Pieces(s, d, m, f + If(m != Before))
  {
    hide Find, CountFrom;
  }

  /** One piece more than there are delimiters to cut at. */
  lemma {:induction false} PiecesLength(s: string, d: char, m: Mode, start: nat)
    requires start + If(m == Before) <= |s| <= MAX_SIZE
    ensures |Pieces(s, d, m, start)| == 1 + CountFrom(s, d, start + If(m == Before))
    decreases |s| - start
  {
    hide Pieces, Find;
    var f := PiecesStep(s, d, m, start);
    CountSkips(s, d, start + If(m == Before), if f == NPOS then |s| else f);
    if f != NPOS { PiecesLength(s, d, m, f + If(m != Before)); }
  }

  lemma {:induction false} DropPiecesJoin(s: string, d: char, start: nat)
    requires start <= |s| <= MAX_SIZE
    ensures Join(Pieces(s, d, Drop, start), d) == s[start..]
    decreases |s| - start
  {
    hide Pieces, Find, CountFrom;
    var f := PiecesStep(s, d, Drop, start);
    if f != NPOS {
      DropPiecesJoin(s, d, f + 1);
      JoinCons(s[start..f], Pieces(s, d, Drop, f + 1), d);
      assert s[start..] == s[start..f] + [d] + s[f + 1..];
    }
  }

  lemma {:induction false} DropPiecesHaveNoDelimiter(s: string, d: char, start: nat, i: nat)
    requires start <= |s| <= MAX_SIZE && i < |Pieces(s, d, Drop, start)|
    ensures d !in Pieces(s, d, Drop, start)[i]
    decreases |s| - start
  {
    hide Pieces, Find, CountFrom;
    var f := PiecesStep(s, d, Drop, start);
    if f != NPOS && i > 0 { DropPiecesHaveNoDelimiter(s, d, f + 1, i - 1); }
  }

  lemma {:induction false} KeptPiecesConcat(s: string, d: char, m: Mode, start: nat)
    requires m != Drop && start + If(m == Before) <= |s| <= MAX_SIZE
    ensures Concat(Pieces(s, d, m, start)) == s[start..]
    decreases |s| - start
  {
    hide Pieces, Find, CountFrom;
    var f := PiecesStep(s, d, m, start);
    if f == NPOS {
      ConcatCons(s[start..], []);
    } else {
      var next := f + If(m == After);
      KeptPiecesConcat(s, d, m, next);
      ConcatCons(s[start..next], Pieces(s, d, m, next));
      assert s[start..] == s[start..next] + s[next..];
    }
  }

  lemma {:induction false} PieceCharsAreInString(s: string, d: char, m: Mode, start: nat, i: nat)
    requires start + If(m == Before) <= |s| <= MAX_SIZE && i < |Pieces(s, d, m, start)|
    ensures forall c | c in Pieces(s, d, m, start)[i] :: c in s
    decreases |s| - start
  {
    hide Pieces, Find, CountFrom;
    var f := PiecesStep(s, d, m, start);
    if f != NPOS && i > 0 { PieceCharsAreInString(s, d, m, f + If(m != Before), i - 1); }
  }

  /** Every piece but the last ends at its only d; the last has none. */
  lemma {:induction false} AfterPiecesEndAtDelimiter(s: string, d: char, start: nat, i: nat)
    requires start <= |s| <= MAX_SIZE && i < |Pieces(s, d, After, start)|
    ensures var p := Pieces(s, d, After, start);
      if i == |p| - 1 then d !in p[i] else p[i] != "" && p[i][|p[i]| - 1] == d && d !in p[i][..|p[i]| - 1]
    decreases |s| - start
  {
    hide Pieces, Find, CountFrom;
    var f := PiecesStep(s, d, After, start);
    if f != NPOS {
      if i == 0 {
        assert s[start..f + 1][..f - start] == s[start..f];
      } else {
        AfterPiecesEndAtDelimiter(s, d, f + 1, i - 1);
      }
    }
  }

  /** Every piece but the first starts at its only d; the first has d at most at its start. */
  lemma {:induction false} BeforePiecesStartAtDelimiter(s: string, d: char, start: nat, i: nat)
    requires start + 1 <= |s| <= MAX_SIZE && i < |Pieces(s, d, Before, start)|
    ensures var p := Pieces(s, d, Before, start);
      p[i] != "" && d !in p[i][1..] && p[i][0] == if i == 0 then s[start] else d
    decreases |s| - start
  {
    hide Pieces, Find, CountFrom;
    var f := PiecesStep(s, d, Before, start);
    if f == NPOS {
      assert s[start..][1..] == s[start + 1..];
    } else if i == 0 {
      assert s[start..f][1..] == s[start + 1..f];
    } else {
      BeforePiecesStartAtDelimiter(s, d, f, i - 1);
    }
  }

  /** A string in front that ends at a cut does not change how the rest is split. */
  lemma {:induction false} PiecesShift(a: string, t: string, d: char, start: nat)
    requires start <= |t| && |a| + |t| <= MAX_SIZE
    ensures Pieces(a + t, d, Drop, |a| + start) == Pieces(t, d, Drop, start)
    decreases |t| - start
  {
    hide Pieces, Find, CountFrom;
    var f := PiecesStep(t, d, Drop, start);
    var g := PiecesStep(a + t, d, Drop, |a| + start);
    FindShift(a, t, d, start);
    if f == NPOS {
      assert (a + t)[|a| + start..] == t[start..];
    } else {
      assert (a + t)[|a| + start..g] == t[start..f];
      PiecesShift(a, t, d, f + 1);
    }
  }

  lemma {:induction false} FindShift(a: string, t: string, d: char, pos: nat)
    requires pos <= |t| && |a| + |t| <= MAX_SIZE
    ensures Find(a + t, d, |a| + pos) == if Find(t, d, pos) == NPOS then NPOS else |a| + Find(t, d, pos)
    decreases |t| - pos
  {
    if pos < |t| {
      assert (a + t)[|a| + pos] == t[pos];
      FindShift(a, t, d, pos + 1);
    }
  }

  lemma {:induction false} PiecesOfJoin(p: seq<string>, d: char)
    requires p != [] && (forall i | 0 <= i < |p| :: d !in p[i]) && |Join(p, d)| <= MAX_SIZE
    ensures Pieces(Join(p, d), d, Drop, 0) == p
  {
    hide Pieces, Find, CountFrom;
    var s := Join(p, d);
    var f := PiecesStep(s, d, Drop, 0);
    if |p| == 1 {
      assert forall k | 0 <= k < |p[0]| :: s[k] != d;
      assert s[0..] == p[0];
    } else {
      var head, t := p[0] + [d], Join(p[1..], d);
      assert s == head + t;
      assert s[|p[0]|] == d;
      assert forall k | 0 <= k < |p[0]| :: s[k] == p[0][k] && s[k] != d;
      assert s[0..f] == p[0];
      PiecesOfJoin(p[1..], d);
      PiecesShift(head, t, d, 0);
    }
  }

  // ---------- split_full ----------

  /** The result of split_full. */
  function SplitOf(s: string, d: char, m: Mode): Result
    requires |s| <= MAX_SIZE
  {
    if s == "" then Slices([])
    else if m == Before && s[0] == d then Terminated
    else if m == After && d !in s then Slices([""])
    else Slices(Pieces(s, d, m, 0))
  }

  lemma CountStep(s: string, d: char, pos: nat)
    requires pos < |s|
    ensures CountFrom(s, d, pos) == If(s[pos] == d) + CountFrom(s, d, pos + 1)
  {
  }

  lemma FoundIffIn(s: string, d: char)
    requires |s| <= MAX_SIZE
    ensures Find(s, d, 0) == NPOS <==> d !in s
  {
  }

  /** The slice that one round of the loop takes. */
  function Slice(s: string, m: Mode, start: Size, found: Size): Option<string> {
    Substr(s, start, Add(Sub(found, start), If(m == After)))
  }

  /** Up to npos itself the wrapped arithmetic is right, except that a piece from 0 to npos + 1 is empty. */
  lemma SliceToEnd(s: string, m: Mode, start: nat)
    requires start <= |s| <= MAX_SIZE
    ensures Slice(s, m, start, NPOS) == Some(if m == After && start == 0 then "" else s[start..])
  {
  }

  lemma SliceToCut(s: string, m: Mode, start: nat, f: nat)
    requires start <= f < |s| <= MAX_SIZE
    ensures Slice(s, m, start, f) == Some(s[start..f + If(m == After)])
  {
    assert s[start..] == s[start..|s|];
  }

  lemma SliceIsNextPiece(s: string, d: char, m: Mode, start: nat)
    requires start + If(m == Before) <= |s| <= MAX_SIZE
    ensures var found := Find(s, d, Add(start, If(m == Before)));
      var p, next := Pieces(s, d, m, start), Add(found, If(m != Before));
      && Slice(s, m, start, found) == Some(if m == After && start == 0 && found == NPOS then "" else p[0])
      && (found == NPOS ==> |p| == 1)
      && (found != NPOS ==> 0 < next && next + If(m == Before) <= |s| && Pieces(s, d, m, next) == p[1..])
  {
    hide Pieces, Find, CountFrom, Slice;
    var f := PiecesStep(s, d, m, start);
    if f == NPOS {
      SliceToEnd(s, m, start);
    } else {
      SliceToCut(s, m, start, f);
    }
  }

  /** The slices that the loop makes: the pieces, unless the only one is taken from 0 to npos + 1. */
  ghost function Made(s: string, d: char, m: Mode): (p: seq<string>)
    requires 0 < |s| <= MAX_SIZE
    ensures |p| == |Pieces(s, d, m, 0)|
  {
    PiecesLength(s, d, m, 0);
    if m == After && Find(s, d, 0) == NPOS then [""] else Pieces(s, d, m, 0)
  }

  /** The loop invariant of split_full: done are the slices so far, and start is where the next one begins. */
  ghost predicate Progress(s: string, d: char, m: Mode, start: Size, done: seq<string>)
    requires 0 < |s| <= MAX_SIZE
  {
    var p := Pieces(s, d, m, 0);
    && |done| <= |p|
    && done == Made(s, d, m)[..|done|]
    && if |done| == |p| then start == Add(NPOS, If(m != Before)) else
        start + If(m == Before) <= |s| && Pieces(s, d, m, start) == p[|done|..] && (start == 0 <==> done == [])
  }

  lemma Advance(s: string, d: char, m: Mode, start: Size, done: seq<string>)
    requires 0 < |s| <= MAX_SIZE && Progress(s, d, m, start, done) && |done| < |Pieces(s, d, m, 0)|
    ensures var found := Find(s, d, Add(start, If(m == Before)));
      var slice := Slice(s, m, start, found);
      slice.Some? && Progress(s, d, m, Add(found, If(m != Before)), done + [slice.value])
  {
    hide Pieces, Find, CountFrom, Slice;
    SliceIsNextPiece(s, d, m, start);
    var p := Pieces(s, d, m, 0);
    assert p[|done|..][0] == p[|done|] && p[|done|..][1..] == p[|done| + 1..];
    assert Made(s, d, m)[..|done| + 1] == Made(s, d, m)[..|done|] + [Made(s, d, m)[|done|]];
  }

  lemma Start(s: string, d: char, m: Mode)
    requires 0 < |s| <= MAX_SIZE
    ensures Progress(s, d, m, 0, [])
  {
    assert Pieces(s, d, m, 0)[0..] == Pieces(s, d, m, 0);
  }

  lemma Finished(s: string, d: char, m: Mode, start: Size, done: seq<string>)
    requires 0 < |s| <= MAX_SIZE && Progress(s, d, m, start, done) && |done| == |Pieces(s, d, m, 0)|
    requires m == Before ==> s[0] != d
    ensures Slices(done) == SplitOf(s, d, m)
  {
    hide Pieces, Find;
    FoundIffIn(s, d);
    assert Made(s, d, m)[..|done|] == Made(s, d, m);
  }

  /** After the last piece the next one would start at npos. */
  lemma Overrun(s: string, d: char, m: Mode, start: Size, done: seq<string>)
    requires 0 < |s| <= MAX_SIZE && Progress(s, d, m, start, done) && |done| == |Pieces(s, d, m, 0)|
    requires m == Before
    ensures forall found :: Slice(s, m, start, found) == None
  {
  }

  /** The array has one element too many exactly if it is split before a delimiter at the very start. */
  lemma NumberOfPieces(s: string, d: char, m: Mode)
    requires 0 < |s| <= MAX_SIZE
    ensures 1 + CountFrom(s, d, 0) == |Pieces(s, d, m, 0)| + If(m == Before && s[0] == d)
  {
    PiecesLength(s, d, m, 0);
    CountStep(s, d, 0);
  }

  /** The array is sized first and then filled slice by slice. */
  method SplitFull(s: string, d: char, m: Mode) returns (r: Result)
    requires |s| <= MAX_SIZE
    ensures r == SplitOf(s, d, m)
  {
    if s == "" {
      return Slices([]);
    }
    hide Pieces, Find, CountFrom, Slice, Progress;
    var n := Count(s, d);
    var ret := new string[1 + n](_ => "");
    NumberOfPieces(s, d, m);
    Start(s, d, m);
    var start: Size := 0;
    var i := 0;
    while i < ret.Length
      invariant i <= ret.Length && i <= |Pieces(s, d, m, 0)|
      invariant Progress(s, d, m, start, ret[..i])
    {
      var found := Find(s, d, Add(start, If(m == Before)));
      var slice := Slice(s, m, start, found);
      if i < |Pieces(s, d, m, 0)| {
        Advance(s, d, m, start, ret[..i]);
      } else {
        Overrun(s, d, m, start, ret[..i]);
      }
      if slice == None {
        return Terminated;
      }
      ret[i] := slice.value;
      start := Add(found, If(m != Before));
      i := i + 1;
      assert ret[..i] == ret[..i - 1] + [slice.value];
    }
    assert ret[..] == ret[..i];
    Finished(s, d, m, start, ret[..]);
    return Slices(ret[..]);
  }

  // ---------- splitting undone ----------

  /** Drop always works: no delimiter is left inside a piece, and joining gives the string. */
  lemma DropRoundTrip(s: string, d: char)
    requires |s| <= MAX_SIZE
    ensures SplitOf(s, d, Drop).Slices?
    ensures var p := SplitOf(s, d, Drop).pieces;
      && Join(p, d) == s && (forall i | 0 <= i < |p| :: d !in p[i])
      && |p| == if s == "" then 0 else 1 + CountFrom(s, d, 0)
  {
    hide Pieces, CountFrom, Join;
    if s == "" {
      EmptyJoin(d);
    } else {
      PiecesLength(s, d, Drop, 0);
      DropPiecesJoin(s, d, 0);
      assert s[0..] == s;
      forall i | 0 <= i < |Pieces(s, d, Drop, 0)| ensures d !in Pieces(s, d, Drop, 0)[i] {
        DropPiecesHaveNoDelimiter(s, d, 0, i);
      }
    }
  }

  lemma EmptyJoin(d: char)
    ensures Join([], d) == ""
  {
  }

  /**
   Splitting what was joined from pieces without the delimiter gives these pieces back, except for a single
   empty piece, since the empty string is not split into one piece but into none.
   */
  lemma SplitUndoesJoin(p: seq<string>, d: char)
    requires (forall i | 0 <= i < |p| :: d !in p[i]) && |Join(p, d)| <= MAX_SIZE
    ensures SplitOf(Join(p, d), d, Drop) == Slices(p) <==> p != [""]
  {
    hide Pieces;
    if p != [] && p != [""] {
      assert Join(p, d) != "";
      PiecesOfJoin(p, d);
    }
  }

  /** After loses the string exactly if it is not empty and has no delimiter, although it promises a copy of it. */
  lemma AfterConcatIffDelimiter(s: string, d: char)
    requires |s| <= MAX_SIZE
    ensures SplitOf(s, d, After).Slices?
    ensures |SplitOf(s, d, After).pieces| == if s == "" then 0 else 1 + CountFrom(s, d, 0)
    ensures Concat(SplitOf(s, d, After).pieces) == s <==> s == "" || d in s
  {
    if s != "" {
      FoundIffIn(s, d);
      PiecesLength(s, d, After, 0);
      KeptPiecesConcat(s, d, After, 0);
      assert s[0..] == s;
      ConcatCons("", []);
    }
  }

  /** Before ends the program exactly if the string starts with the delimiter. */
  lemma BeforeConcatUnlessLeadingDelimiter(s: string, d: char)
    requires |s| <= MAX_SIZE
    ensures SplitOf(s, d, Before) == Terminated <==> s != "" && s[0] == d
    ensures SplitOf(s, d, Before) != Terminated ==>
      var p := SplitOf(s, d, Before).pieces;
      Concat(p) == s && |p| == if s == "" then 0 else 1 + CountFrom(s, d, 0)
  {
    if s != "" {
      NumberOfPieces(s, d, Before);
      KeptPiecesConcat(s, d, Before, 0);
      assert s[0..] == s;
    }
  }

  // ---------- split_at, split_on_first, split_on_last ----------

  /** None stands for the end of the program: substr throws beyond the end of the string. */
  function SplitAt(s: string, i: Size, m: Mode): Option<(string, string)>
    requires |s| <= MAX_SIZE
  {
    if i == NPOS then Some((s, "")) else
      var first, second := Substr(s, 0, Add(i, If(m == After))), Substr(s, Add(i, If(m != Before)), NPOS);
      if first == None || second == None then None else Some((first.value, second.value))
  }

  function SplitOnFirst(s: string, d: char, m: Mode): Option<(string, string)>
    requires |s| <= MAX_SIZE
  {
    SplitAt(s, Find(s, d, 0), m)
  }

  function SplitOnLast(s: string, d: char, m: Mode): Option<(string, string)>
    requires |s| <= MAX_SIZE
  {
    SplitAt(s, FindLast(s, d), m)
  }

  /** Cutting inside the string. */
  lemma SplitAtInside(s: string, i: nat, m: Mode)
    requires i < |s| <= MAX_SIZE
    ensures SplitAt(s, i, m) == Some((s[..i + If(m == After)], s[i + If(m != Before)..]))
  {
    var j, k := i + If(m == After), i + If(m != Before);
    assert s[..j] == s[0..j] && s[0..] == s && s[..|s|] == s;
    assert Add(i, If(m == After)) == j && Add(i, If(m != Before)) == k;
    assert Substr(s, 0, j) == Some(s[..j]);
    assert Substr(s, k, NPOS) == Some(s[k..]);
  }

  lemma FindFromOne(s: string, d: char)
    requires 0 < |s| <= MAX_SIZE
    ensures s[0] != d ==> Find(s, d, 0) == Find(s, d, 1)
  {
  }

  /** Pieces put together again, with the delimiters that Drop took away. */
  function Rejoined(p: seq<string>, d: char, m: Mode): string {
    if m == Drop then Join(p, d) else Concat(p)
  }

  lemma FirstOfPieces(s: string, d: char, m: Mode)
    requires 0 < |s| <= MAX_SIZE && (m == Before ==> s[0] != d)
    ensures var p := Pieces(s, d, m, 0); SplitOnFirst(s, d, m) == Some((p[0], Rejoined(p[1..], d, m)))
  {
    hide Find, CountFrom, Pieces, Substr;
    var f := PiecesStep(s, d, m, 0);
    FindFromOne(s, d);
    assert s[0..] == s;
    if f != NPOS {
      var next := f + If(m != Before);
      SplitAtInside(s, f, m);
      assert s[0..f + If(m == After)] == s[..f + If(m == After)];
      if m == Drop {
        DropPiecesJoin(s, d, next);
      } else {
        KeptPiecesConcat(s, d, m, next);
      }
    }
  }

  /**
   split_on_first gives the first piece of split_full and all the others together, exactly unless the pieces are
   attached After a delimiter that does not occur; there split_full loses the string and split_on_first does not.
   */
  lemma SplitOnFirstIsFirstPiece(s: string, d: char, m: Mode)
    requires 0 < |s| <= MAX_SIZE && SplitOf(s, d, m) != Terminated
    ensures var p := SplitOf(s, d, m).pieces;
      && p != []
      && (SplitOnFirst(s, d, m) == Some((p[0], Rejoined(p[1..], d, m))) <==> !(m == After && d !in s))
    ensures d !in s ==> SplitOnFirst(s, d, m) == Some((s, ""))
  {
    hide Pieces, CountFrom, Find;
    FoundIffIn(s, d);
    FirstOfPieces(s, d, m);
  }

  /** Where split_full ends the program, split_on_first splits in front of the string; the empty string is not split. */
  lemma SplitOnFirstElsewhere(s: string, d: char, m: Mode)
    requires |s| <= MAX_SIZE
    ensures s == "" ==> SplitOnFirst(s, d, m) == Some(("", ""))
    ensures SplitOf(s, d, m) == Terminated ==> SplitOnFirst(s, d, m) == Some(("", s))
  {
    if SplitOf(s, d, m) == Terminated { SplitAtInside(s, 0, m); }
  }

  lemma LastIs(s: string, d: char, l: nat)
    requires l < |s| <= MAX_SIZE && s[l] == d && forall k | l < k < |s| :: s[k] != d
    ensures FindLast(s, d) == l
  {
    hide FindLast;
  }

  lemma SplitOnLastAt(a: string, x: string, d: char, m: Mode)
    requires d !in x && |a| + 1 + |x| <= MAX_SIZE
    ensures SplitOnLast(a + [d] + x, d, m) ==
      Some((if m == After then a + [d] else a, if m == Before then [d] + x else x))
  {
    hide SplitAt, FindLast;
    var s, l := a + [d] + x, |a|;
    AroundDelimiter(a, x, d);
    LastIs(s, d, l);
    SplitAtInside(s, l, m);
  }

  lemma AroundDelimiter(a: string, x: string, d: char)
    ensures var s, l := a + [d] + x, |a|;
      && s[..l] == a && s[l..] == [d] + x && s[..l + 1] == a + [d] && s[l + 1..] == x
      && s[l] == d && (d !in x ==> forall k | l < k < |s| :: s[k] != d)
  {
    var s, l := a + [d] + x, |a|;
    assert forall k | l < k < |s| :: s[k] == x[k - l - 1];
  }

  lemma LastOfDropped(s: string, d: char)
    requires |s| <= MAX_SIZE && d in s
    ensures var p := Pieces(s, d, Drop, 0); var n := |p| - 1;
      n > 0 && SplitOnLast(s, d, Drop) == Some((Join(p[..n], d), p[n]))
  {
    hide Pieces, CountFrom, Find, SplitOnLast;
    var p := Pieces(s, d, Drop, 0);
    var n := |p| - 1;
    var f := PiecesStep(s, d, Drop, 0);
    FoundIffIn(s, d);
    DropPiecesJoin(s, d, 0);
    assert s[0..] == s;
    JoinSnoc(p[..n], p[n], d);
    assert p[..n] + [p[n]] == p;
    DropPiecesHaveNoDelimiter(s, d, 0, n);
    SplitOnLastAt(Join(p[..n], d), p[n], d, Drop);
  }

  /** The string before its last piece, for pieces that keep their delimiters. */
  lemma AllButLast(s: string, d: char, m: Mode)
    requires m != Drop && |s| <= MAX_SIZE && d in s && (m == Before ==> s[0] != d)
    ensures var p := Pieces(s, d, m, 0); var n := |p| - 1;
      n > 0 && s == Concat(p[..n]) + p[n] && Concat(p[..n]) == Concat(p[..n - 1]) + p[n - 1]
  {
    hide Pieces, CountFrom, Find, Concat;
    var p := Pieces(s, d, m, 0);
    var n := |p| - 1;
    var f := PiecesStep(s, d, m, 0);
    FoundIffIn(s, d);
    FindFromOne(s, d);
    KeptPiecesConcat(s, d, m, 0);
    assert s[0..] == s;
    ConcatSnoc(p[..n], p[n]);
    assert p[..n] + [p[n]] == p;
    ConcatSnoc(p[..n - 1], p[n - 1]);
    assert p[..n - 1] + [p[n - 1]] == p[..n];
  }

  lemma LastOfKept(s: string, d: char, m: Mode)
    requires m != Drop && |s| <= MAX_SIZE && d in s && (m == Before ==> s[0] != d)
    ensures var p := Pieces(s, d, m, 0); var n := |p| - 1;
      n > 0 && SplitOnLast(s, d, m) == Some((Concat(p[..n]), p[n]))
  {
    hide Pieces, CountFrom, Find, SplitOnLast, Concat;
    var p := Pieces(s, d, m, 0);
    var n := |p| - 1;
    AllButLast(s, d, m);
    var a, x := Concat(p[..n]), p[n];
    if m == After {
      AfterPiecesEndAtDelimiter(s, d, 0, n);
      AfterPiecesEndAtDelimiter(s, d, 0, n - 1);
      var e := |a| - 1;
      assert a == a[..e] + [d];
      SplitOnLastAt(a[..e], x, d, m);
    } else {
      BeforePiecesStartAtDelimiter(s, d, 0, n);
      assert x == [d] + x[1..];
      assert s == a + [d] + x[1..];
      SplitOnLastAt(a, x[1..], d, m);
    }
  }

  /** split_on_last gives the last piece of split_full, and all the others together, exactly if there is a delimiter. */
  lemma SplitOnLastIsLastPiece(s: string, d: char, m: Mode)
    requires 0 < |s| <= MAX_SIZE && SplitOf(s, d, m) != Terminated
    ensures var p := SplitOf(s, d, m).pieces; var n := |p| - 1;
      && n >= 0
      && (SplitOnLast(s, d, m) == Some((Rejoined(p[..n], d, m), p[n])) <==> d in s)
    ensures d !in s ==> SplitOnLast(s, d, m) == Some((s, ""))
  {
    hide Pieces, CountFrom, Find, FindLast;
    if d in s {
      if m == Drop { LastOfDropped(s, d); } else { LastOfKept(s, d, m); }
    } else {
      FoundIffIn(s, d);
      assert FindLast(s, d) == NPOS;
      var f := PiecesStep(s, d, m, 0);
      FindFromOne(s, d);
      assert s[0..] == s;
    }
  }

  /** Where split_full ends the program, split_on_last splits before the last delimiter. */
  lemma SplitOnLastElsewhere(s: string, d: char, m: Mode)
    requires |s| <= MAX_SIZE
    ensures s == "" ==> SplitOnLast(s, d, m) == Some(("", ""))
    ensures SplitOf(s, d, m) == Terminated ==>
      FindLast(s, d) < |s| && SplitOnLast(s, d, m) == Some((s[..FindLast(s, d)], s[FindLast(s, d)..]))
  {
    if SplitOf(s, d, m) == Terminated {
      SplitAtInside(s, FindLast(s, d), m);
    }
  }

  // ---------- concat ----------

  const INT_MAX: int := 0x7FFF_FFFF

  method AddTo(data: array<char>, at: nat, str: string) returns (next: nat)
    requires at + |str| <= data.Length
    modifies data
    ensures next == at + |str|
    ensures data[..at] == old(data[..at]) && data[at..next] == str && data[next..] == old(data[next..])
  {
    for k := 0 to |str|
      invariant data[..at] == old(data[..at]) && data[at..at + k] == str[..k]
      invariant data[at + |str|..] == old(data[at + |str|..])
    {
      data[at + k] := str[k];
      assert data[at..at + k + 1] == data[at..at + k] + [data[at + k]];
    }
    next := at + |str|;
  }

  lemma NextPart(args: seq<string>, i: nat)
    requires i < |args|
    ensures Concat(args[..i + 1]) == Concat(args[..i]) + args[i] && |Concat(args[..i + 1])| <= |Concat(args)|
  {
    ConcatSplit(args, i + 1);
    ConcatSnoc(args[..i], args[i]);
    assert args[..i + 1] == args[..i] + [args[i]];
  }

  /**
   The terminator is written first; the parts fill the buffer exactly and leave it in place. null stands for the
   failing assertion of the allocation, which takes an int.
   */
  method RangeHelper(args: seq<string>) returns (data: array?<char>, size: nat)
    ensures size == |Concat(args)| && (data == null <==> size > INT_MAX)
    ensures data != null ==> fresh(data) && data.Length == size + 1
    ensures data != null ==> data[..size] == Concat(args) && data[size] == '\0'
  {
    assert Concat(args[..0]) == "";
    hide Concat;
    size := 0;
    for i := 0 to |args|
      invariant size == |Concat(args[..i])|
    {
      size := size + |args[i]|;
      NextPart(args, i);
    }
    assert args[..|args|] == args;
    if size > INT_MAX {
      return null, size;
    }
    data := new char[size + 1](_ => ' ');
    data[size] := '\0';
    var at := 0;
    for i := 0 to |args|
      invariant at == |Concat(args[..i])| <= size && data[..at] == Concat(args[..i])
      invariant data[size] == '\0'
    {
      NextPart(args, i);
      var next := AddTo(data, at, args[i]);
      assert data[..next] == data[..at] + data[at..next];
      assert data[next..][size - next] == '\0';
      at := next;
    }
  }
}
