/**
  `NewSolver.GetValidBoards`: a depth-first search over the border squares
  that tries "mine" (9) before "covered" (-1) on each square, prunes a branch
  as soon as `IsValid` rejects the partial board, and at full depth keeps the
  board when every clue next to the border is fulfilled and the board is
  valid. The search can be cut short from outside: `MineSolver.Running`
  turning false, and the ten-second stopwatch (which sets `wasStopped`).
 */
module Enumeration {
  import opened Boards
  import opened Oracles

  /**
    The two outside aborts, as answers that may depend on where the search is:
    `running(path)` is `MineSolver.Running` on entry to the call for `path`,
    `timedOut(path)` is "the stopwatch shows more than ten seconds" there.
   */
  datatype Aborts = Aborts(running: seq<int> -> bool, timedOut: seq<int> -> bool)

  /** Aborts that never fire. */
  function NoAborts(): Aborts {
    Aborts(_ => true, _ => false)
  }

  /**
    What the search leaves behind: the boards added to `valids` and the
    `wasStopped` flag, or a crash (the empty border, where the leaf reads the
    still-null `currentBoard`).
   */
  datatype Outcome = Crashed | Found(valids: seq<Grid>, stopped: bool)

  function Pow2(n: nat): (r: nat)
    ensures r >= 1
  {
    if n == 0 then 1 else 2 * Pow2(n - 1)
  }

  /** The board after writing vs[k] into ps[k] for each k in order. */
  function Apply(b: Grid, ps: seq<Point>, vs: seq<int>): (r: Grid)
    requires |ps| == |vs|
    requires forall p | p in ps :: b.InBounds(p)
    decreases |ps|
    ensures r.cols == b.cols && r.rows == b.rows
    ensures forall q | b.InBounds(q) :: r.InBounds(q)
  {
    if ps == [] then b
    else
      var n := |ps| - 1;
      assert forall p | p in ps[..n] :: p in ps;
      assert ps[n] in ps;
      var prev := Apply(b, ps[..n], vs[..n]);
      assert prev.InBounds(ps[n]);
      Set(prev, ps[n], vs[n])
  }

  /** On distinct squares, each written square holds its value and the rest are untouched. */
  lemma {:induction false} ApplyCells(b: Grid, ps: seq<Point>, vs: seq<int>)
    requires |ps| == |vs| && Distinct(ps)
    requires forall p | p in ps :: b.InBounds(p)
    decreases |ps|
    ensures forall i | 0 <= i < |ps| :: Get(Apply(b, ps, vs), ps[i]) == vs[i]
    ensures forall q | b.InBounds(q) && q !in ps :: Get(Apply(b, ps, vs), q) == Get(b, q)
  {
    if ps != [] {
      var n := |ps| - 1;
      assert forall p | p in ps[..n] :: p in ps;
      ApplyCells(b, ps[..n], vs[..n]);
      var prev := Apply(b, ps[..n], vs[..n]);
      forall i | 0 <= i < |ps|
        ensures Get(Apply(b, ps, vs), ps[i]) == vs[i]
      {
        if i < n {
          assert ps[..n][i] == ps[i];
        }
      }
      forall q | b.InBounds(q) && q !in ps
        ensures Get(Apply(b, ps, vs), q) == Get(b, q)
      {
        assert q !in ps[..n];
      }
    }
  }

  /** Extending the written prefix by one square is one more `SetSquare`. */
  lemma ApplyStep(b: Grid, ps: seq<Point>, vs: seq<int>, k: nat, v: int)
    requires k < |ps| && |vs| == k
    requires forall p | p in ps :: b.InBounds(p)
    ensures forall p | p in ps[..k] :: b.InBounds(p)
    ensures forall p | p in ps[..k + 1] :: b.InBounds(p)
    ensures Apply(b, ps[..k + 1], vs + [v]) == Set(Apply(b, ps[..k], vs), ps[k], v)
  {
    assert forall p | p in ps[..k] :: p in ps;
    assert forall p | p in ps[..k + 1] :: p in ps;
    assert ps[..k + 1][..k] == ps[..k];
    assert (vs + [v])[..k] == vs;
  }

  /**
    The test at full depth: for each border square in turn, every clue around
    it must be fulfilled (the first failure breaks out of both loops), and the
    board must be valid.
   */
  function FulfilledFrom(o: Oracle, g: Grid, border: seq<Point>, i: nat): bool
    requires i <= |border|
  {
    ChecksFrom(o, g, (p: Point) => SurroundingNumbers(g, p.x, p.y), border, i)
  }

  /** The outer loop over the border from index i, for any way `clues` of listing a square's clues. */
  function ChecksFrom(o: Oracle, g: Grid, clues: Point -> seq<Point>, border: seq<Point>, i: nat): bool
    requires i <= |border|
    decreases |border| - i
  {
    if i == |border| then true
    else ClueLoop(o, g, clues(border[i])) && ChecksFrom(o, g, clues, border, i + 1)
  }

  /** The outer loop passes exactly when every listed clue of every square from i on is fulfilled. */
  lemma {:induction false} ChecksFromMeans(o: Oracle, g: Grid, clues: Point -> seq<Point>, border: seq<Point>, i: nat)
    requires i <= |border|
    decreases |border| - i
    ensures ChecksFrom(o, g, clues, border, i) <==>
              forall k, nm | i <= k < |border| && nm in clues(border[k]) :: o.isFulfilled(g, nm)
  {
    if i < |border| {
      ChecksFromMeans(o, g, clues, border, i + 1);
      if ChecksFrom(o, g, clues, border, i) {
        forall k, nm | i <= k < |border| && nm in clues(border[k])
          ensures o.isFulfilled(g, nm)
        {
          if k > i {
            assert i + 1 <= k;
          }
        }
      }
    }
  }

  /** The test passes exactly when every clue around every border square is fulfilled. */
  lemma FulfilledFromMeans(o: Oracle, g: Grid, border: seq<Point>)
    ensures FulfilledFrom(o, g, border, 0) <==>
              forall k, nm | 0 <= k < |border| && nm in SurroundingNumbers(g, border[k].x, border[k].y) ::
                o.isFulfilled(g, nm)
  {
    ChecksFromMeans(o, g, (p: Point) => SurroundingNumbers(g, p.x, p.y), border, 0);
  }

  /** The inner `foreach (Point nm in nums)` with its `break`. */
  function ClueLoop(o: Oracle, g: Grid, nums: seq<Point>): (r: bool)
    ensures r <==> forall nm | nm in nums :: o.isFulfilled(g, nm)
  {
    if nums == [] then true
    else if !o.isFulfilled(g, nums[0]) then false
    else ClueLoop(o, g, nums[1..])
  }

  /** The leaf test of `GetValidBoards` for a given border. */
  function LeafTest(o: Oracle, border: seq<Point>): Grid -> bool {
    (g: Grid) => FulfilledFrom(o, g, border, 0) && o.isValid(g)
  }

  /**
    `GetValidBoards(borders, ref valids, idx, currentBoard)` for a leaf test
    `accept`: `cur` is the current board (the solver's own board at the top),
    `path` the values written to the first idx border squares.
   */
  function Search(valid: Grid -> bool, accept: Grid -> bool, border: seq<Point>, ab: Aborts,
                  idx: nat, cur: Grid, path: seq<int>): (r: Outcome)
    requires idx <= |border| && |path| == idx
    requires forall p | p in border :: cur.InBounds(p)
    decreases |border| - idx, 1
    ensures r.Crashed? ==> border == []
    ensures r.Found? ==> |r.valids| <= Pow2(|border| - idx)
    ensures r.Found? ==> forall g | g in r.valids :: g.cols == cur.cols && g.rows == cur.rows
  {
    if !ab.running(path) then Found([], false)
    else if idx >= |border| then
      if |border| == 0 then Crashed
      else if accept(cur) then Found([cur], false)
      else Found([], false)
    else if ab.timedOut(path) then Found([], true)
    else
      var p := border[idx];
      assert p in border;
      var withMine := Set(cur, p, Flag);
      var r1 := Branch(valid, accept, border, ab, idx + 1, withMine, path + [Flag]);
      var without := Set(withMine, p, Covered);
      var r2 := Branch(valid, accept, border, ab, idx + 1, without, path + [Covered]);
      Join(r1, r2)
  }

  /** `if (newBoard.IsValid()) GetValidBoards(..., idx + 1, newBoard)`. */
  function Branch(valid: Grid -> bool, accept: Grid -> bool, border: seq<Point>, ab: Aborts,
                  idx: nat, next: Grid, path: seq<int>): (r: Outcome)
    requires 1 <= idx <= |border| && |path| == idx
    requires forall p | p in border :: next.InBounds(p)
    decreases |border| - idx + 1, 0
    ensures r.Crashed? ==> border == []
    ensures r.Found? ==> |r.valids| <= Pow2(|border| - idx)
    ensures r.Found? ==> forall g | g in r.valids :: g.cols == next.cols && g.rows == next.rows
  {
    if valid(next) then Search(valid, accept, border, ab, idx, next, path) else Found([], false)
  }

  /** Two sibling calls one after the other: boards in order, `wasStopped` sticky. */
  function Join(r1: Outcome, r2: Outcome): (r: Outcome)
    ensures r.Crashed? <==> r1.Crashed? || r2.Crashed?
    ensures r.Found? ==> r.valids == r1.valids + r2.valids && (r.stopped <==> r1.stopped || r2.stopped)
  {
    if r1.Crashed? || r2.Crashed? then Crashed
    else Found(r1.valids + r2.valids, r1.stopped || r2.stopped)
  }

  /** The search as `DoMove` starts it: index 0 on the solver's board. */
  function ValidBoards(o: Oracle, b: Grid, border: seq<Point>, ab: Aborts): (r: Outcome)
    requires forall p | p in border :: b.InBounds(p)
    ensures r.Crashed? <==> border == [] && ab.running([])
    ensures !ab.running([]) ==> r == Found([], false)
    ensures r.Found? && r.valids != [] ==> border != []
    ensures r.Found? ==> |r.valids| <= Pow2(|border|)
    ensures r.Found? ==> forall g | g in r.valids :: g.cols == b.cols && g.rows == b.rows
  {
    Search(o.isValid, LeafTest(o, border), border, ab, 0, b, [])
  }

  // ---------------------------------------------------------------------------
  // The brute-force reference

  /**
    Every assignment of 9 or -1 to n squares, listed in the order the search
    meets them: 9 before -1 on the first square, then on the next, and so on.
   */
  function Assignments(n: nat): (r: seq<seq<int>>)
    ensures |r| == Pow2(n)
    ensures forall a | a in r :: |a| == n && MinesOrCovered(a)
  {
    if n == 0 then [[]]
    else
      var rest := Assignments(n - 1);
      PrefixedLengths(Flag, rest, n - 1);
      PrefixedLengths(Covered, rest, n - 1);
      Prefixed(Flag, rest) + Prefixed(Covered, rest)
  }

  lemma PrefixedLengths(v: int, ss: seq<seq<int>>, m: nat)
    requires v == Flag || v == Covered
    requires forall s | s in ss :: |s| == m && MinesOrCovered(s)
    ensures forall a | a in Prefixed(v, ss) :: |a| == m + 1 && MinesOrCovered(a)
  {
    forall a | a in Prefixed(v, ss)
      ensures |a| == m + 1 && MinesOrCovered(a)
    {
      PrefixedFrom(v, ss, a);
      MinesOrCoveredCons(a);
    }
  }

  function Prefixed(v: int, ss: seq<seq<int>>): (r: seq<seq<int>>)
    ensures |r| == |ss|
  {
    if ss == [] then [] else [[v] + ss[0]] + Prefixed(v, ss[1..])
  }

  /**
    The assignment a survives when every partial board along it is valid and
    the full board passes the leaf test.
   */
  predicate Survives(valid: Grid -> bool, accept: Grid -> bool, b: Grid, border: seq<Point>, a: seq<int>)
    requires |a| == |border|
    requires forall p | p in border :: b.InBounds(p)
  {
    && (forall k | 1 <= k <= |a| :: PrefixValid(valid, b, border, a, k))
    && accept(Apply(b, border, a))
  }

  /** The partial board after the first k values of a is valid. */
  predicate PrefixValid(valid: Grid -> bool, b: Grid, border: seq<Point>, a: seq<int>, k: nat)
    requires k <= |a| <= |border|
    requires forall p | p in border :: b.InBounds(p)
  {
    assert forall p | p in border[..k] :: p in border;
    valid(Apply(b, border[..k], a[..k]))
  }

  /** The boards of the surviving assignments path + s, for s in ss, in order. */
  function Expected(valid: Grid -> bool, accept: Grid -> bool, b: Grid, border: seq<Point>,
                    path: seq<int>, ss: seq<seq<int>>): (r: seq<Grid>)
    requires forall p | p in border :: b.InBounds(p)
    requires forall s | s in ss :: |path| + |s| == |border|
    ensures |r| <= |ss|
  {
    if ss == [] then []
    else
      assert ss[0] in ss;
      assert forall s | s in ss[1..] :: s in ss;
      var a := path + ss[0];
      var here := if Survives(valid, accept, b, border, a) then [Apply(b, border, a)] else [];
      here + Expected(valid, accept, b, border, path, ss[1..])
  }

  lemma {:induction false} ExpectedAppend(valid: Grid -> bool, accept: Grid -> bool, b: Grid, border: seq<Point>,
                                          path: seq<int>, xs: seq<seq<int>>, ys: seq<seq<int>>)
    requires forall p | p in border :: b.InBounds(p)
    requires forall s | s in xs + ys :: |path| + |s| == |border|
    decreases |xs|
    ensures forall s | s in xs :: |path| + |s| == |border|
    ensures forall s | s in ys :: |path| + |s| == |border|
    ensures Expected(valid, accept, b, border, path, xs + ys) ==
            Expected(valid, accept, b, border, path, xs) + Expected(valid, accept, b, border, path, ys)
  {
    assert forall s | s in xs :: s in xs + ys;
    assert forall s | s in ys :: s in xs + ys;
    if xs == [] {
      assert xs + ys == ys;
    } else {
      TailOfAppend(xs, ys);
      assert forall s | s in xs[1..] + ys :: s in xs + ys;
      ExpectedAppend(valid, accept, b, border, path, xs[1..], ys);
      ExpectedCons(valid, accept, b, border, path, xs, ys);
    }
  }

  /** One step of `ExpectedAppend`: the head of xs leads both sides. */
  lemma ExpectedCons(valid: Grid -> bool, accept: Grid -> bool, b: Grid, border: seq<Point>,
                     path: seq<int>, xs: seq<seq<int>>, ys: seq<seq<int>>)
    requires forall p | p in border :: b.InBounds(p)
    requires xs != [] && forall s | s in xs + ys :: |path| + |s| == |border|
    requires forall s | s in xs :: |path| + |s| == |border|
    requires forall s | s in ys :: |path| + |s| == |border|
    requires forall s | s in xs[1..] + ys :: |path| + |s| == |border|
    requires forall s | s in xs[1..] :: |path| + |s| == |border|
    requires Expected(valid, accept, b, border, path, xs[1..] + ys) ==
             Expected(valid, accept, b, border, path, xs[1..]) + Expected(valid, accept, b, border, path, ys)
    ensures Expected(valid, accept, b, border, path, xs + ys) ==
            Expected(valid, accept, b, border, path, xs) + Expected(valid, accept, b, border, path, ys)
  {
    var a := path + xs[0];
    var here := if Survives(valid, accept, b, border, a) then [Apply(b, border, a)] else [];
    var rest := Expected(valid, accept, b, border, path, xs[1..]);
    var tail := Expected(valid, accept, b, border, path, ys);
    calc {
      Expected(valid, accept, b, border, path, xs + ys);
      == { ExpectedHead(valid, accept, b, border, path, xs + ys); TailOfAppend(xs, ys); }
      here + (rest + tail);
      == { Associative(here, rest, tail); }
      (here + rest) + tail;
      == { ExpectedHead(valid, accept, b, border, path, xs); }
      Expected(valid, accept, b, border, path, xs) + tail;
    }
  }

  /** `Expected` on a non-empty list: the head's board, if it survives, then the rest. */
  lemma ExpectedHead(valid: Grid -> bool, accept: Grid -> bool, b: Grid, border: seq<Point>,
                     path: seq<int>, ss: seq<seq<int>>)
    requires forall p | p in border :: b.InBounds(p)
    requires ss != [] && forall s | s in ss :: |path| + |s| == |border|
    ensures forall s | s in ss[1..] :: |path| + |s| == |border|
    ensures |path + ss[0]| == |border|
    ensures Expected(valid, accept, b, border, path, ss) ==
            (if Survives(valid, accept, b, border, path + ss[0]) then [Apply(b, border, path + ss[0])] else []) +
            Expected(valid, accept, b, border, path, ss[1..])
  {
    assert ss[0] in ss;
    assert forall s | s in ss[1..] :: s in ss;
  }

  lemma {:induction false} ExpectedPrefixed(valid: Grid -> bool, accept: Grid -> bool, b: Grid, border: seq<Point>,
                                            path: seq<int>, v: int, ss: seq<seq<int>>)
    requires forall p | p in border :: b.InBounds(p)
    requires forall s | s in ss :: |path| + 1 + |s| == |border|
    decreases |ss|
    ensures forall s | s in Prefixed(v, ss) :: |path| + |s| == |border|
    ensures Expected(valid, accept, b, border, path, Prefixed(v, ss)) ==
            Expected(valid, accept, b, border, path + [v], ss)
  {
    var ps := Prefixed(v, ss);
    forall s | s in ps
      ensures |path| + |s| == |border|
    {
      PrefixedFrom(v, ss, s);
    }
    if ss != [] {
      assert path + ([v] + ss[0]) == (path + [v]) + ss[0];
      assert ps[1..] == Prefixed(v, ss[1..]);
      assert forall s | s in ss[1..] :: s in ss;
      ExpectedPrefixed(valid, accept, b, border, path, v, ss[1..]);
    }
  }

  /** A branch whose partial board is invalid contributes nothing. */
  lemma {:induction false} ExpectedPruned(valid: Grid -> bool, accept: Grid -> bool, b: Grid, border: seq<Point>,
                                          q: seq<int>, ss: seq<seq<int>>)
    requires forall p | p in border :: b.InBounds(p)
    requires 1 <= |q| <= |border|
    requires forall s | s in ss :: |q| + |s| == |border|
    requires !PrefixValid(valid, b, border, q, |q|)
    decreases |ss|
    ensures Expected(valid, accept, b, border, q, ss) == []
  {
    if ss != [] {
      var a := q + ss[0];
      assert ss[0] in ss;
      assert a[..|q|] == q[..|q|];
      assert !PrefixValid(valid, b, border, a, |q|);
      assert forall s | s in ss[1..] :: s in ss;
      ExpectedPruned(valid, accept, b, border, q, ss[1..]);
    }
  }

  /** Extending a path keeps the validity of its earlier prefixes. */
  lemma PrefixValidKeep(valid: Grid -> bool, b: Grid, border: seq<Point>, path: seq<int>, v: int)
    requires forall p | p in border :: b.InBounds(p)
    requires |path| < |border|
    requires forall k | 1 <= k <= |path| :: PrefixValid(valid, b, border, path, k)
    ensures forall k | 1 <= k < |path| + 1 :: PrefixValid(valid, b, border, path + [v], k)
  {
    forall k | 1 <= k <= |path|
      ensures PrefixValid(valid, b, border, path + [v], k)
    {
      assert PrefixValid(valid, b, border, path, k);
      assert (path + [v])[..k] == path[..k];
    }
  }

  /** The reference split at one square: 9 first, then -1. */
  lemma ExpectedSplit(valid: Grid -> bool, accept: Grid -> bool, b: Grid, border: seq<Point>, path: seq<int>, n: nat)
    requires forall p | p in border :: b.InBounds(p)
    requires n == |path| < |border|
    ensures Expected(valid, accept, b, border, path, Assignments(|border| - n)) ==
            Expected(valid, accept, b, border, path + [Flag], Assignments(|border| - (n + 1))) +
            Expected(valid, accept, b, border, path + [Covered], Assignments(|border| - (n + 1)))
  {
    var rest := Assignments(|border| - (n + 1));
    var x := Prefixed(Flag, rest);
    var y := Prefixed(Covered, rest);
    ExpectedPrefixed(valid, accept, b, border, path, Flag, rest);
    ExpectedPrefixed(valid, accept, b, border, path, Covered, rest);
    ExpectedAppend(valid, accept, b, border, path, x, y);
  }

  /**
    With no abort, the guarded branch after the prefix q (of length n) returns
    exactly the reference list for the assignments that extend q, unstopped.
   */
  predicate BranchAgrees(valid: Grid -> bool, accept: Grid -> bool, b: Grid, border: seq<Point>, q: seq<int>, n: nat)
    requires forall p | p in border :: b.InBounds(p)
    requires 1 <= n == |q| <= |border|
  {
    assert forall p | p in border[..n] :: p in border;
    Branch(valid, accept, border, NoAborts(), n, Apply(b, border[..n], q), q) ==
    Found(Expected(valid, accept, b, border, q, Assignments(|border| - n)), false)
  }

  /**
    Without aborts the search returns, in order, the boards of exactly the
    surviving assignments that extend `path`, and is never stopped.
   */
  lemma {:induction false} SearchMatches(valid: Grid -> bool, accept: Grid -> bool, b: Grid, border: seq<Point>,
                                         path: seq<int>, n: nat)
    requires forall p | p in border :: b.InBounds(p)
    requires 0 < |border| && n == |path| <= |border|
    requires forall k | 1 <= k <= n :: PrefixValid(valid, b, border, path, k)
    decreases |border| - n, 2
    ensures forall p | p in border[..n] :: b.InBounds(p)
    ensures Search(valid, accept, border, NoAborts(), n, Apply(b, border[..n], path), path) ==
            Found(Expected(valid, accept, b, border, path, Assignments(|border| - n)), false)
  {
    if n == |border| {
      LeafMatches(valid, accept, b, border, path, n);
    } else {
      ChildMatches(valid, accept, b, border, path, n, Flag);
      ChildMatches(valid, accept, b, border, path, n, Covered);
      InnerMatches(valid, accept, b, border, path, n);
    }
  }

  /** One child of a turn, with no abort firing, finds exactly the reference boards extending it. */
  lemma {:induction false} ChildMatches(valid: Grid -> bool, accept: Grid -> bool, b: Grid, border: seq<Point>,
                                        path: seq<int>, n: nat, v: int)
    requires forall p | p in border :: b.InBounds(p)
    requires n == |path| < |border|
    requires forall k | 1 <= k <= n :: PrefixValid(valid, b, border, path, k)
    decreases |border| - n, 1
    ensures BranchAgrees(valid, accept, b, border, path + [v], n + 1)
  {
    PrefixValidKeep(valid, b, border, path, v);
    BranchMatches(valid, accept, b, border, path + [v], n + 1);
  }

  /** Below full depth the search matches the reference once both branches do. */
  lemma InnerMatches(valid: Grid -> bool, accept: Grid -> bool, b: Grid, border: seq<Point>, path: seq<int>, n: nat)
    requires forall p | p in border :: b.InBounds(p)
    requires n == |path| < |border|
    requires BranchAgrees(valid, accept, b, border, path + [Flag], n + 1)
    requires BranchAgrees(valid, accept, b, border, path + [Covered], n + 1)
    ensures forall p | p in border[..n] :: b.InBounds(p)
    ensures Search(valid, accept, border, NoAborts(), n, Apply(b, border[..n], path), path) ==
            Found(Expected(valid, accept, b, border, path, Assignments(|border| - n)), false)
  {
    assert forall p | p in border[..n] :: p in border;
    var cur := Apply(b, border[..n], path);
    ApplyStep(b, border, path, n, Flag);
    ApplyStep(b, border, path, n, Covered);
    SearchUnfold(valid, accept, border, NoAborts(), n, cur, path);
    ExpectedSplit(valid, accept, b, border, path, n);
  }

  /** Below full depth, with no abort firing, the call is its two branches in order. */
  lemma SearchUnfold(valid: Grid -> bool, accept: Grid -> bool, border: seq<Point>, ab: Aborts,
                     idx: nat, cur: Grid, path: seq<int>)
    requires idx < |border| && |path| == idx
    requires forall p | p in border :: cur.InBounds(p)
    requires ab.running(path) && !ab.timedOut(path)
    ensures forall p | p in border :: Set(cur, border[idx], Flag).InBounds(p)
    ensures forall p | p in border :: Set(cur, border[idx], Covered).InBounds(p)
    ensures Search(valid, accept, border, ab, idx, cur, path) ==
            Join(Branch(valid, accept, border, ab, idx + 1, Set(cur, border[idx], Flag), path + [Flag]),
                 Branch(valid, accept, border, ab, idx + 1, Set(cur, border[idx], Covered), path + [Covered]))
  {
    assert border[idx] in border;
    SetSet(cur, border[idx], Flag, Covered);
  }

  lemma LeafMatches(valid: Grid -> bool, accept: Grid -> bool, b: Grid, border: seq<Point>, path: seq<int>, n: nat)
    requires forall p | p in border :: b.InBounds(p)
    requires 0 < |border| && n == |path| == |border|
    requires forall k | 1 <= k <= n :: PrefixValid(valid, b, border, path, k)
    ensures forall p | p in border[..n] :: b.InBounds(p)
    ensures Search(valid, accept, border, NoAborts(), n, Apply(b, border[..n], path), path) ==
            Found(Expected(valid, accept, b, border, path, Assignments(|border| - n)), false)
  {
    assert border[..n] == border;
    assert path + [] == path;
    assert Assignments(0)[1..] == [];
  }

  /** One branch of the search, pruned or explored, matches its half of the reference. */
  lemma {:induction false} BranchMatches(valid: Grid -> bool, accept: Grid -> bool, b: Grid, border: seq<Point>,
                                         q: seq<int>, n: nat)
    requires forall p | p in border :: b.InBounds(p)
    requires 1 <= n == |q| <= |border|
    requires forall k | 1 <= k < n :: PrefixValid(valid, b, border, q, k)
    decreases |border| - n + 1, 0
    ensures BranchAgrees(valid, accept, b, border, q, n)
  {
    assert forall p | p in border[..n] :: p in border;
    var next := Apply(b, border[..n], q);
    assert q[..n] == q;
    if valid(next) {
      assert PrefixValid(valid, b, border, q, n);
      SearchMatches(valid, accept, b, border, q, n);
    } else {
      ExpectedPruned(valid, accept, b, border, q, Assignments(|border| - n));
    }
  }

  /** The search finished and kept only boards from the list ys. */
  predicate KeptFrom(r: Outcome, ys: seq<Grid>) {
    r.Found? && forall g | g in r.valids :: g in ys
  }

  lemma JoinKept(r1: Outcome, r2: Outcome, y1: seq<Grid>, y2: seq<Grid>)
    requires KeptFrom(r1, y1) && KeptFrom(r2, y2)
    ensures KeptFrom(Join(r1, r2), y1 + y2)
  {
    var r := Join(r1, r2);
    forall g | g in r.valids
      ensures g in y1 + y2
    {
      assert g in r1.valids || g in r2.valids;
    }
  }

  /**
    Whatever the aborts do, every board the search keeps is the board of a
    surviving assignment extending `path`.
   */
  lemma {:induction false} SearchSound(valid: Grid -> bool, accept: Grid -> bool, b: Grid, border: seq<Point>,
                                       ab: Aborts, path: seq<int>)
    requires forall p | p in border :: b.InBounds(p)
    requires 0 < |border| && |path| <= |border|
    requires forall k | 1 <= k <= |path| :: PrefixValid(valid, b, border, path, k)
    decreases |border| - |path|, 3
    ensures forall p | p in border[..|path|] :: b.InBounds(p)
    ensures KeptFrom(Search(valid, accept, border, ab, |path|, Apply(b, border[..|path|], path), path),
                     Expected(valid, accept, b, border, path, Assignments(|border| - |path|)))
  {
    if |path| == |border| || !ab.running(path) || ab.timedOut(path) {
      StopSound(valid, accept, b, border, ab, path);
    } else {
      StepSound(valid, accept, b, border, ab, path);
    }
  }

  lemma {:induction false} StepSound(valid: Grid -> bool, accept: Grid -> bool, b: Grid, border: seq<Point>,
                                     ab: Aborts, path: seq<int>)
    requires forall p | p in border :: b.InBounds(p)
    requires 0 < |border| && |path| < |border|
    requires ab.running(path) && !ab.timedOut(path)
    requires forall k | 1 <= k <= |path| :: PrefixValid(valid, b, border, path, k)
    decreases |border| - |path|, 2
    ensures forall p | p in border[..|path|] :: b.InBounds(p)
    ensures KeptFrom(Search(valid, accept, border, ab, |path|, Apply(b, border[..|path|], path), path),
                     Expected(valid, accept, b, border, path, Assignments(|border| - |path|)))
  {
    ChildSound(valid, accept, b, border, ab, path, Flag);
    ChildSound(valid, accept, b, border, ab, path, Covered);
    InnerSound(valid, accept, b, border, ab, path);
  }

  /** One child of a turn that goes on keeps only boards of surviving assignments extending it. */
  lemma {:induction false} ChildSound(valid: Grid -> bool, accept: Grid -> bool, b: Grid, border: seq<Point>,
                                      ab: Aborts, path: seq<int>, v: int)
    requires forall p | p in border :: b.InBounds(p)
    requires |path| < |border|
    requires forall k | 1 <= k <= |path| :: PrefixValid(valid, b, border, path, k)
    decreases |border| - |path|, 1
    ensures var q := path + [v];
            && (forall p | p in border[..|q|] :: b.InBounds(p))
            && KeptFrom(Branch(valid, accept, border, ab, |q|, Apply(b, border[..|q|], q), q),
                        Expected(valid, accept, b, border, q, Assignments(|border| - |q|)))
  {
    PrefixValidKeep(valid, b, border, path, v);
    BranchSound(valid, accept, b, border, ab, path + [v]);
  }

  /** At full depth or when an abort fires, the call keeps at most the surviving current board. */
  lemma StopSound(valid: Grid -> bool, accept: Grid -> bool, b: Grid, border: seq<Point>, ab: Aborts, path: seq<int>)
    requires forall p | p in border :: b.InBounds(p)
    requires 0 < |border| && |path| <= |border|
    requires forall k | 1 <= k <= |path| :: PrefixValid(valid, b, border, path, k)
    requires |path| == |border| || !ab.running(path) || ab.timedOut(path)
    ensures forall p | p in border[..|path|] :: b.InBounds(p)
    ensures KeptFrom(Search(valid, accept, border, ab, |path|, Apply(b, border[..|path|], path), path),
                     Expected(valid, accept, b, border, path, Assignments(|border| - |path|)))
  {
    assert forall p | p in border[..|path|] :: p in border;
    if |path| == |border| && ab.running(path) {
      assert border[..|path|] == border;
      assert path + [] == path;
      assert Assignments(0)[1..] == [];
    }
  }

  lemma {:induction false} BranchSound(valid: Grid -> bool, accept: Grid -> bool, b: Grid, border: seq<Point>,
                                       ab: Aborts, q: seq<int>)
    requires forall p | p in border :: b.InBounds(p)
    requires 1 <= |q| <= |border|
    requires forall k | 1 <= k < |q| :: PrefixValid(valid, b, border, q, k)
    decreases |border| - |q| + 1, 0
    ensures forall p | p in border[..|q|] :: b.InBounds(p)
    ensures forall p | p in border :: Apply(b, border[..|q|], q).InBounds(p)
    ensures KeptFrom(Branch(valid, accept, border, ab, |q|, Apply(b, border[..|q|], q), q),
                     Expected(valid, accept, b, border, q, Assignments(|border| - |q|)))
  {
    assert forall p | p in border[..|q|] :: p in border;
    var next := Apply(b, border[..|q|], q);
    assert q[..|q|] == q;
    if valid(next) {
      assert PrefixValid(valid, b, border, q, |q|);
      SearchSound(valid, accept, b, border, ab, q);
    }
  }

  lemma InnerSound(valid: Grid -> bool, accept: Grid -> bool, b: Grid, border: seq<Point>, ab: Aborts, path: seq<int>)
    requires forall p | p in border :: b.InBounds(p)
    requires |path| < |border|
    requires ab.running(path) && !ab.timedOut(path)
    requires var q := path + [Flag];
             && (forall p | p in border[..|q|] :: b.InBounds(p))
             && KeptFrom(Branch(valid, accept, border, ab, |q|, Apply(b, border[..|q|], q), q),
                         Expected(valid, accept, b, border, q, Assignments(|border| - |q|)))
    requires var q := path + [Covered];
             && (forall p | p in border[..|q|] :: b.InBounds(p))
             && KeptFrom(Branch(valid, accept, border, ab, |q|, Apply(b, border[..|q|], q), q),
                         Expected(valid, accept, b, border, q, Assignments(|border| - |q|)))
    ensures forall p | p in border[..|path|] :: b.InBounds(p)
    ensures KeptFrom(Search(valid, accept, border, ab, |path|, Apply(b, border[..|path|], path), path),
                     Expected(valid, accept, b, border, path, Assignments(|border| - |path|)))
  {
    var idx := |path|;
    assert |path + [Flag]| == |path + [Covered]| == idx + 1;
    assert forall p | p in border[..idx] :: p in border;
    var cur := Apply(b, border[..idx], path);
    ApplyStep(b, border, path, idx, Flag);
    ApplyStep(b, border, path, idx, Covered);
    SearchUnfold(valid, accept, border, ab, idx, cur, path);
    ExpectedSplit(valid, accept, b, border, path, idx);
    var m := Assignments(|border| - (idx + 1));
    JoinKept(Branch(valid, accept, border, ab, idx + 1, Set(cur, border[idx], Flag), path + [Flag]),
             Branch(valid, accept, border, ab, idx + 1, Set(cur, border[idx], Covered), path + [Covered]),
             Expected(valid, accept, b, border, path + [Flag], m),
             Expected(valid, accept, b, border, path + [Covered], m));
  }

  /** Membership in the reference list, spelled out. */
  lemma {:induction false} ExpectedMembers(valid: Grid -> bool, accept: Grid -> bool, b: Grid, border: seq<Point>,
                                           path: seq<int>, ss: seq<seq<int>>, g: Grid)
    requires forall p | p in border :: b.InBounds(p)
    requires forall s | s in ss :: |path| + |s| == |border|
    decreases |ss|
    ensures g in Expected(valid, accept, b, border, path, ss) <==>
            exists s | s in ss :: Survives(valid, accept, b, border, path + s) && g == Apply(b, border, path + s)
  {
    if ss != [] {
      assert forall s | s in ss[1..] :: s in ss;
      ExpectedMembers(valid, accept, b, border, path, ss[1..], g);
      assert forall s | s in ss :: s == ss[0] || s in ss[1..];
      assert ss[0] in ss;
    }
  }

  /** Every value is 9 or -1. */
  predicate MinesOrCovered(a: seq<int>) {
    forall v | v in a :: v == Flag || v == Covered
  }

  /** Every assignment of 9 or -1 to n squares is in the reference list. */
  lemma {:induction false} AssignmentsComplete(n: nat, a: seq<int>)
    requires |a| == n && MinesOrCovered(a)
    ensures a in Assignments(n)
  {
    if n > 0 {
      MinesOrCoveredTail(a);
      AssignmentsComplete(n - 1, a[1..]);
      AssignmentsMember(n, a);
    }
  }

  /** One level of the reference list: a 9 or a -1 in front of an assignment one shorter. */
  lemma AssignmentsMember(n: nat, a: seq<int>)
    requires n > 0
    ensures a in Assignments(n) <==>
              |a| > 0 && (a[0] == Flag || a[0] == Covered) && a[1..] in Assignments(n - 1)
  {
    var rest := Assignments(n - 1);
    assert Assignments(n) == Prefixed(Flag, rest) + Prefixed(Covered, rest);
    if a in Prefixed(Flag, rest) {
      PrefixedFrom(Flag, rest, a);
    } else if a in Prefixed(Covered, rest) {
      PrefixedFrom(Covered, rest, a);
    }
    if |a| > 0 && (a[0] == Flag || a[0] == Covered) && a[1..] in rest {
      PrefixedHas(a[0], rest, a[1..]);
      SplitAt(a, 0);
    }
  }

  /** The head and the tail of a nonempty list of 9s and -1s. */
  lemma MinesOrCoveredTail(a: seq<int>)
    requires a != [] && MinesOrCovered(a)
    ensures (a[0] == Flag || a[0] == Covered) && MinesOrCovered(a[1..])
  {
    assert a[0] in a;
    forall v | v in a[1..]
      ensures v == Flag || v == Covered
    {
      assert v in a;
    }
  }

  lemma {:induction false} PrefixedAt(v: int, ss: seq<seq<int>>, i: nat)
    requires i < |ss|
    ensures Prefixed(v, ss)[i] == [v] + ss[i]
  {
    if i > 0 {
      PrefixedAt(v, ss[1..], i - 1);
    }
  }

  lemma PrefixedHas(v: int, ss: seq<seq<int>>, t: seq<int>)
    requires t in ss
    ensures [v] + t in Prefixed(v, ss)
  {
    var k :| 0 <= k < |ss| && ss[k] == t;
    PrefixedAt(v, ss, k);
  }

  lemma PrefixedFrom(v: int, ss: seq<seq<int>>, a: seq<int>)
    requires a in Prefixed(v, ss)
    ensures |a| > 0 && a[0] == v && a[1..] in ss
  {
    var k :| 0 <= k < |ss| && Prefixed(v, ss)[k] == a;
    PrefixedAt(v, ss, k);
    assert a[1..] == ss[k];
  }

  /** A nonempty list of 9s and -1s is one of them followed by more. */
  lemma MinesOrCoveredCons(a: seq<int>)
    requires a != [] && (a[0] == Flag || a[0] == Covered) && MinesOrCovered(a[1..])
    ensures MinesOrCovered(a)
  {
    forall v | v in a
      ensures v == Flag || v == Covered
    {
      if v != a[0] {
        assert v in a[1..];
      }
    }
  }

  /**
    Without aborts, `GetValidBoards` on a non-empty border lists the boards of
    all surviving assignments, in the 9-before-(-1) order, and never stops.
   */
  lemma ValidBoardsComplete(o: Oracle, b: Grid, border: seq<Point>)
    requires forall p | p in border :: b.InBounds(p)
    requires border != []
    ensures ValidBoards(o, b, border, NoAborts()) ==
            Found(Expected(o.isValid, LeafTest(o, border), b, border, [], Assignments(|border|)), false)
  {
    SearchMatches(o.isValid, LeafTest(o, border), b, border, [], 0);
    assert border[..0] == [];
  }

  /**
    Whatever the aborts do, on a non-empty border every board the search keeps
    is the original board with 9 or -1 written on each border square, along an
    assignment whose every partial board is valid, and the kept board has
    every clue around the border fulfilled and is valid.
   */
  lemma ValidBoardsSound(o: Oracle, b: Grid, border: seq<Point>, ab: Aborts, g: Grid)
    requires forall p | p in border :: b.InBounds(p)
    requires border != []
    requires ValidBoards(o, b, border, ab).Found? && g in ValidBoards(o, b, border, ab).valids
    ensures exists a | a in Assignments(|border|) ::
              && Survives(o.isValid, LeafTest(o, border), b, border, a)
              && g == Apply(b, border, a)
  {
    ValidBoardsKept(o, b, border, ab);
    KeptMember(o.isValid, LeafTest(o, border), b, border, ValidBoards(o, b, border, ab), g);
  }

  lemma KeptMember(valid: Grid -> bool, accept: Grid -> bool, b: Grid, border: seq<Point>, r: Outcome, g: Grid)
    requires forall p | p in border :: b.InBounds(p)
    requires KeptFrom(r, Expected(valid, accept, b, border, [], Assignments(|border|))) && g in r.valids
    ensures exists a | a in Assignments(|border|) :: Survives(valid, accept, b, border, a) && g == Apply(b, border, a)
  {
    var all := Assignments(|border|);
    assert g in Expected(valid, accept, b, border, [], all);
    ExpectedMembers(valid, accept, b, border, [], all, g);
    var a :| a in all && Survives(valid, accept, b, border, [] + a) && g == Apply(b, border, [] + a);
    assert [] + a == a;
  }

  /** Every kept board passes the leaf test: its border clues are fulfilled and it is valid. */
  lemma ValidBoardsAccepted(o: Oracle, b: Grid, border: seq<Point>, ab: Aborts, g: Grid)
    requires forall p | p in border :: b.InBounds(p)
    requires border != []
    requires ValidBoards(o, b, border, ab).Found? && g in ValidBoards(o, b, border, ab).valids
    ensures FulfilledFrom(o, g, border, 0) && o.isValid(g)
  {
    ValidBoardsSound(o, b, border, ab, g);
    var a :| a in Assignments(|border|) && Survives(o.isValid, LeafTest(o, border), b, border, a)
             && g == Apply(b, border, a);
    assert LeafTest(o, border)(g);
  }

  lemma ValidBoardsKept(o: Oracle, b: Grid, border: seq<Point>, ab: Aborts)
    requires forall p | p in border :: b.InBounds(p)
    requires border != []
    ensures KeptFrom(ValidBoards(o, b, border, ab),
                     Expected(o.isValid, LeafTest(o, border), b, border, [], Assignments(|border|)))
  {
    SearchSound(o.isValid, LeafTest(o, border), b, border, ab, []);
    assert border[..0] == [];
  }
}
