/**
  `SmartSolver.DoMove`: after the base pass, take the smallest connected set
  of border squares, enumerate flag vectors over it, and from the boards that
  `IsBombful` accepts click the squares never mined, flag the squares always
  mined, and click the least often mined square.
 */
module SmartSolver {
  import opened Boards
  import opened Deduction
  import opened Selection
  import opened Oracles
  import opened Enumeration
  import opened ProbabilitySolver

  // ---------------------------------------------------------------------------
  // The searched set (lines 41-43)

  /**
    `_squares`: `GetConnectedSquares(bd[0], bd)`, then each
    `GetConnectedSquares(b, bd)` in border order that is strictly smaller than
    the current choice (the LINQ filter is evaluated lazily, against the
    running choice). The result is the first connected set of least size.
   */
  function SmallestSet(o: Oracle, g: Grid, bd: seq<Point>): (r: seq<Point>)
    requires bd != []
    ensures forall j | 0 <= j < |bd| :: |r| <= |o.connected(g, bd[j], bd)|
    ensures exists i | 0 <= i < |bd| ::
              && r == o.connected(g, bd[i], bd)
              && forall j | 0 <= j < i :: |o.connected(g, bd[j], bd)| > |r|
  {
    var sets := seq(|bd|, j requires 0 <= j < |bd| => o.connected(g, bd[j], bd));
    var sizes := seq(|bd|, j requires 0 <= j < |bd| => |sets[j]| as real);
    assert forall j | 0 <= j < |bd| :: sizes[j] == |o.connected(g, bd[j], bd)| as real;
    var i := FirstMin(sizes, sizes[0]);
    if i < 0 then sets[0]
    else
      assert sizes[i] == |sets[i]| as real;
      sets[i]
  }

  // ---------------------------------------------------------------------------
  // The lower bound on the mines (lines 54-71)

  /** Flags every listed square, in order. */
  function MarkAll(b: Grid, ps: seq<Point>): (r: Grid)
    requires forall q | q in ps :: b.InBounds(q)
    ensures r.cols == b.cols && r.rows == b.rows
    ensures forall q | b.InBounds(q) :: Get(r, q) == if q in ps then Flag else Get(b, q)
    decreases ps
  {
    if ps == [] then b
    else
      assert forall q | q in ps[1..] :: q in ps;
      MarkAll(Set(b, ps[0], Flag), ps[1..])
  }

  /** The flags still missing around clue n: `val - bombs.Count`. */
  function Remaining(b: Grid, n: Point): int
    requires b.InBounds(n)
  {
    Get(b, n) - |SurroundingBombs(b, n.x, n.y)|
  }

  /** How many covered neighbours clue n has to spare: `clicks.Count - dif`. */
  function Slack(b: Grid, n: Point): int
    requires b.InBounds(n)
  {
    |SurroundingClicks(b, n.x, n.y)| - Remaining(b, n)
  }

  /** No clue needs more flags than it has covered neighbours. */
  ghost predicate Feasible(b: Grid) {
    forall n | b.InBounds(n) && IsNumber(Get(b, n)) :: Slack(b, n) >= 0
  }

  /** The copy `cb` and the squares flagged on it so far (each one `_minMines++`). */
  datatype Marking = Marking(board: Grid, marked: seq<Point>)

  /**
    One clue n: with `dif` flags missing, flag the first `dif` covered
    neighbours; `clicks[i]` is out of range, and the move throws, when fewer
    are covered than missing.
   */
  function MarkClue(b: Grid, n: Point): (r: Option<Marking>)
    requires b.InBounds(n)
    ensures r.None? <==> Slack(b, n) < 0
    ensures r.Some? ==> && Distinct(r.value.marked)
                        && (forall q | q in r.value.marked :: b.InBounds(q) && Get(b, q) == Covered)
                        && r.value.board == MarkAll(b, r.value.marked)
  {
    var clicks := SurroundingClicks(b, n.x, n.y);
    var dif := Remaining(b, n);
    if dif <= 0 then Some(Marking(b, []))
    else if dif > |clicks| then None
    else
      assert forall q | q in clicks[..dif] :: q in clicks;
      Some(Marking(MarkAll(b, clicks[..dif]), clicks[..dif]))
  }

  /** The `foreach (var n in nums)` loop. */
  function MarkClues(b: Grid, ns: seq<Point>, marked: seq<Point>): (r: Option<Marking>)
    requires forall q | q in ns :: b.InBounds(q)
    ensures r.Some? ==> r.value.board.cols == b.cols && r.value.board.rows == b.rows
    decreases ns
  {
    if ns == [] then Some(Marking(b, marked))
    else
      assert ns[0] in ns;
      match MarkClue(b, ns[0])
      case None => None
      case Some(m) =>
        assert forall q | q in ns[1..] :: q in ns;
        MarkClues(m.board, ns[1..], marked + m.marked)
  }

  /** The `foreach (var p in _squares)` loop, reading each square's clues off the current copy. */
  function MarkSquares(b: Grid, ps: seq<Point>, marked: seq<Point>): (r: Option<Marking>)
    ensures r.Some? ==> r.value.board.cols == b.cols && r.value.board.rows == b.rows
    decreases ps
  {
    if ps == [] then Some(Marking(b, marked))
    else
      match MarkClues(b, SurroundingNumbers(b, ps[0].x, ps[0].y), marked)
      case None => None
      case Some(m) => MarkSquares(m.board, ps[1..], m.marked)
  }

  /**
    `_minMines`: half the number of distinct squares, covered on the live
    board, that the loop flags on its copy; `None` when the loop throws,
    which happens only on a board where some clue needs more flags than it
    has covered neighbours. The live board is not touched (the model is pure).
   */
  function MinMines(g: Grid, squares: seq<Point>): (r: Option<nat>)
    ensures Feasible(g) ==> r.Some?
    ensures r.Some? ==>
              && MarkSquares(g, squares, []).Some?
              && var m := MarkSquares(g, squares, []).value;
                 Tracks(g, m.board, m.marked) && r.value == |m.marked| / 2
  {
    MarkSquaresTracks(g, g, squares, []);
    match MarkSquares(g, squares, [])
    case None => None
    case Some(m) => Some(|m.marked| / 2)
  }

  /**
    The copy b after flagging `marked` on g: distinct squares covered on g,
    flagged on b, and nothing else changed.
   */
  ghost predicate Tracks(g: Grid, b: Grid, marked: seq<Point>) {
    && b.cols == g.cols && b.rows == g.rows
    && Distinct(marked)
    && (forall q | q in marked :: g.InBounds(q) && Get(g, q) == Covered && Get(b, q) == Flag)
    && (forall q | g.InBounds(q) && q !in marked :: Get(b, q) == Get(g, q))
  }

  lemma TracksStep(g: Grid, b: Grid, marked: seq<Point>, c: Point)
    requires Tracks(g, b, marked) && b.InBounds(c) && Get(b, c) == Covered
    ensures Tracks(g, Set(b, c, Flag), marked + [c])
  {
    assert c !in marked;
  }

  lemma {:induction false} MarkAllTracks(g: Grid, b: Grid, marked: seq<Point>, ps: seq<Point>)
    requires Tracks(g, b, marked)
    requires Distinct(ps) && forall q | q in ps :: b.InBounds(q) && Get(b, q) == Covered
    ensures Tracks(g, MarkAll(b, ps), marked + ps)
    decreases ps
  {
    if ps != [] {
      assert ps[0] in ps;
      TracksStep(g, b, marked, ps[0]);
      var b1 := Set(b, ps[0], Flag);
      assert forall q | q in ps[1..] :: q in ps && q != ps[0];
      MarkAllTracks(g, b1, marked + [ps[0]], ps[1..]);
      assert marked + [ps[0]] + ps[1..] == marked + ps;
    }
  }

  /** The squares of a block that are covered or flagged, as a set. */
  function Open(b: Grid, n: Point): set<Point> {
    set q | q in SurroundingClicks(b, n.x, n.y) + SurroundingBombs(b, n.x, n.y)
  }

  lemma OpenCard(b: Grid, n: Point)
    ensures |Open(b, n)| == |SurroundingClicks(b, n.x, n.y)| + |SurroundingBombs(b, n.x, n.y)|
  {
    var cs := SurroundingClicks(b, n.x, n.y);
    var fs := SurroundingBombs(b, n.x, n.y);
    assert Distinct(cs + fs) by {
      forall i, j | 0 <= i < j < |cs + fs|
        ensures (cs + fs)[i] != (cs + fs)[j]
      {
        if j >= |cs| && i < |cs| {
          assert (cs + fs)[i] in cs && (cs + fs)[j] in fs;
        }
      }
    }
    DistinctCard(cs + fs);
  }

  /**
    The slack of a clue depends only on which of its neighbours are covered
    or flagged, so flagging covered squares leaves every clue's slack as it
    was.
   */
  lemma TrackedSlack(g: Grid, b: Grid, marked: seq<Point>, n: Point)
    requires Tracks(g, b, marked) && g.InBounds(n) && IsNumber(Get(g, n))
    ensures Get(b, n) == Get(g, n)
    ensures Slack(b, n) == Slack(g, n)
  {
    assert n !in marked;
    assert Open(b, n) == Open(g, n) by {
      forall q
        ensures q in Open(b, n) <==> q in Open(g, n)
      {
        if g.InBounds(q) && q in marked {
          assert Get(b, q) == Flag && Get(g, q) == Covered;
        }
      }
    }
    OpenCard(b, n);
    OpenCard(g, n);
  }

  lemma {:induction false} MarkCluesTracks(g: Grid, b: Grid, ns: seq<Point>, marked: seq<Point>)
    requires Tracks(g, b, marked)
    requires forall q | q in ns :: b.InBounds(q) && IsNumber(Get(b, q))
    decreases ns
    ensures Feasible(g) ==> MarkClues(b, ns, marked).Some?
    ensures MarkClues(b, ns, marked).Some? ==>
              Tracks(g, MarkClues(b, ns, marked).value.board, MarkClues(b, ns, marked).value.marked)
  {
    if ns != [] {
      var n := ns[0];
      assert n in ns;
      TrackedSlack(g, b, marked, n);
      match MarkClue(b, n)
      case None =>
      case Some(m) =>
        MarkAllTracks(g, b, marked, m.marked);
        var b1 := m.board;
        forall q | q in ns[1..]
          ensures b1.InBounds(q) && IsNumber(Get(b1, q))
        {
          assert q in ns;
          TrackedSlack(g, b, marked, q);
          TrackedSlack(g, b1, marked + m.marked, q);
        }
        MarkCluesTracks(g, b1, ns[1..], marked + m.marked);
    }
  }

  lemma {:induction false} MarkSquaresTracks(g: Grid, b: Grid, ps: seq<Point>, marked: seq<Point>)
    requires Tracks(g, b, marked)
    decreases ps
    ensures Feasible(g) ==> MarkSquares(b, ps, marked).Some?
    ensures MarkSquares(b, ps, marked).Some? ==>
              Tracks(g, MarkSquares(b, ps, marked).value.board, MarkSquares(b, ps, marked).value.marked)
  {
    if ps != [] {
      var ns := SurroundingNumbers(b, ps[0].x, ps[0].y);
      MarkCluesTracks(g, b, ns, marked);
      match MarkClues(b, ns, marked)
      case None =>
      case Some(m) =>
        MarkSquaresTracks(g, m.board, ps[1..], m.marked);
    }
  }

  // ---------------------------------------------------------------------------
  // Flag vectors (lines 124-166)

  /** `cl.Sum()` */
  function Sum(v: seq<int>): int {
    if v == [] then 0 else v[0] + Sum(v[1..])
  }

  /** Every entry is 0 or 1. */
  predicate Bits(v: seq<int>) {
    forall i | 0 <= i < |v| :: v[i] == 0 || v[i] == 1
  }

  lemma {:induction false} SumBits(v: seq<int>)
    requires Bits(v)
    ensures 0 <= Sum(v) <= |v|
  {
    if v != [] {
      assert v[0] == 0 || v[0] == 1;
      SumBits(v[1..]);
    }
  }

  /** Some `squares[i]` equal to q has `flags[i] == 1`. */
  predicate Flagged(squares: seq<Point>, flags: seq<int>, q: Point)
    requires |flags| == |squares|
  {
    exists i | 0 <= i < |squares| :: squares[i] == q && flags[i] == 1
  }

  lemma FlaggedCons(squares: seq<Point>, flags: seq<int>, q: Point)
    requires |flags| == |squares| && squares != []
    ensures Flagged(squares, flags, q) <==>
            (squares[0] == q && flags[0] == 1) || Flagged(squares[1..], flags[1..], q)
  {
    if Flagged(squares[1..], flags[1..], q) {
      var j :| 0 <= j < |squares| - 1 && squares[1..][j] == q && flags[1..][j] == 1;
      assert squares[j + 1] == q && flags[j + 1] == 1;
    }
    if Flagged(squares, flags, q) {
      var i :| 0 <= i < |squares| && squares[i] == q && flags[i] == 1;
      if i > 0 {
        assert squares[1..][i - 1] == q && flags[1..][i - 1] == 1;
      }
    }
  }

  /** The enumeration's board and set: the set lies on the board and the vectors fit the set. */
  predicate Setup(g: Grid, squares: seq<Point>, list: seq<int>) {
    |list| == |squares| && forall q | q in squares :: g.InBounds(q)
  }

  /** `ApplyBorderFlags(flags)`: a copy with `squares[i]` flagged wherever `flags[i] == 1`. */
  function ApplyFlags(b: Grid, squares: seq<Point>, flags: seq<int>): (r: Grid)
    requires Setup(b, squares, flags)
    ensures r.cols == b.cols && r.rows == b.rows
    ensures forall q | b.InBounds(q) :: Get(r, q) == if Flagged(squares, flags, q) then Flag else Get(b, q)
    decreases |squares|
  {
    if squares == [] then b
    else
      var b1 := if flags[0] == 1 then Set(b, squares[0], Flag) else b;
      assert squares[0] in squares;
      assert forall q | q in squares[1..] :: q in squares;
      var r := ApplyFlags(b1, squares[1..], flags[1..]);
      assert forall q | b.InBounds(q) :: Get(r, q) == if Flagged(squares, flags, q) then Flag else Get(b, q) by {
        forall q | b.InBounds(q)
          ensures Get(r, q) == if Flagged(squares, flags, q) then Flag else Get(b, q)
        {
          FlaggedCons(squares, flags, q);
        }
      }
      r
  }

  /**
    `GetFlagCombinations(list, depth)`: for i = 0, then 1, set
    `list[depth] = i`; when the sum reaches `minMines` build the board and
    collect the vector if the board `IsBombful`; then descend to depth - 1
    when depth > 0 and either no board was built or it `IsValid`.

    With `leavesOnly` false this is the code as written, which collects at
    every depth; with `leavesOnly` true it collects at depth 0 only, so that
    each vector is met once.
   */
  function Combos(o: Oracle, g: Grid, squares: seq<Point>, minMines: int, list: seq<int>, depth: nat,
                  leavesOnly: bool): (r: seq<seq<int>>)
    requires Setup(g, squares, list) && depth < |list|
    decreases depth, 1
    ensures forall v | v in r :: |v| == |list| && v[depth + 1..] == list[depth + 1..]
  {
    Visit(o, g, squares, minMines, list, depth, leavesOnly, 0) +
    Visit(o, g, squares, minMines, list, depth, leavesOnly, 1)
  }

  /** One turn of the `for (var i = 0; i < 2; i++)` loop. */
  function Visit(o: Oracle, g: Grid, squares: seq<Point>, minMines: int, list: seq<int>, depth: nat,
                 leavesOnly: bool, i: int): (r: seq<seq<int>>)
    requires Setup(g, squares, list) && depth < |list|
    decreases depth, 0
    ensures forall v | v in r :: |v| == |list| && v[depth + 1..] == list[depth + 1..]
  {
    var cl := list[depth := i];
    assert cl[depth + 1..] == list[depth + 1..];
    var built := Sum(cl) >= minMines;
    var b := ApplyFlags(g, squares, cl);
    var here := if built && o.isBombful(b, squares) && (!leavesOnly || depth == 0) then [cl] else [];
    if (!built || o.isValid(b)) && depth > 0 then
      var below := Combos(o, g, squares, minMines, cl, depth - 1, leavesOnly);
      assert forall v | v in below :: v[depth + 1..] == v[depth..][1..] == cl[depth..][1..];
      here + below
    else here
  }

  /**
    Every collected vector reaches `minMines`, its board `IsBombful`, and it
    keeps the entries above the depth; vectors of 0s and 1s stay so.
   */
  lemma {:induction false} CombosSound(o: Oracle, g: Grid, squares: seq<Point>, minMines: int, list: seq<int>,
                                       depth: nat, leavesOnly: bool)
    requires Setup(g, squares, list) && depth < |list|
    decreases depth, 1
    ensures forall v | v in Combos(o, g, squares, minMines, list, depth, leavesOnly) ::
              && Sum(v) >= minMines
              && o.isBombful(ApplyFlags(g, squares, v), squares)
              && (Bits(list) ==> Bits(v))
  {
    VisitSound(o, g, squares, minMines, list, depth, leavesOnly, 0);
    VisitSound(o, g, squares, minMines, list, depth, leavesOnly, 1);
  }

  lemma {:induction false} VisitSound(o: Oracle, g: Grid, squares: seq<Point>, minMines: int, list: seq<int>,
                                      depth: nat, leavesOnly: bool, i: int)
    requires Setup(g, squares, list) && depth < |list| && (i == 0 || i == 1)
    decreases depth, 0
    ensures forall v | v in Visit(o, g, squares, minMines, list, depth, leavesOnly, i) ::
              && Sum(v) >= minMines
              && o.isBombful(ApplyFlags(g, squares, v), squares)
              && (Bits(list) ==> Bits(v))
  {
    var cl := list[depth := i];
    if depth > 0 {
      CombosSound(o, g, squares, minMines, cl, depth - 1, leavesOnly);
    }
  }

  /** Helpers that accept every board, the setting in which the enumeration's size is plain to see. */
  ghost predicate Accepting(o: Oracle) {
    (forall b :: o.isValid(b)) && forall b, s :: o.isBombful(b, s)
  }

  /**
    As written, with accepting helpers and `minMines` at most 0, a call at
    depth d collects 2^(d+2) - 2 vectors; there are only 2^(d+1) different
    ones, so vectors repeat.
   */
  lemma {:induction false} CombosCount(o: Oracle, g: Grid, squares: seq<Point>, minMines: int, list: seq<int>,
                                       depth: nat)
    requires Setup(g, squares, list) && depth < |list| && Bits(list)
    requires Accepting(o) && minMines <= 0
    decreases depth, 1
    ensures |Combos(o, g, squares, minMines, list, depth, false)| == Pow2(depth + 2) - 2
  {
    VisitCount(o, g, squares, minMines, list, depth, 0);
    VisitCount(o, g, squares, minMines, list, depth, 1);
  }

  /** Each of the two branches of such a call collects 2^(d+1) - 1 vectors. */
  lemma {:induction false} VisitCount(o: Oracle, g: Grid, squares: seq<Point>, minMines: int, list: seq<int>,
                                      depth: nat, i: int)
    requires Setup(g, squares, list) && depth < |list| && Bits(list)
    requires Accepting(o) && minMines <= 0 && (i == 0 || i == 1)
    decreases depth, 0
    ensures |Visit(o, g, squares, minMines, list, depth, false, i)| == Pow2(depth + 1) - 1
  {
    var cl := list[depth := i];
    SumBits(cl);
    var b := ApplyFlags(g, squares, cl);
    assert o.isValid(b) && o.isBombful(b, squares);
    if depth > 0 {
      CombosCount(o, g, squares, minMines, cl, depth - 1);
    }
  }


  /** As written, with accepting helpers, a turn collects its own vector and then everything below it. */
  lemma VisitAccepting(o: Oracle, g: Grid, squares: seq<Point>, minMines: int, list: seq<int>, depth: nat, i: int)
    requires Setup(g, squares, list) && depth < |list| && Bits(list) && (i == 0 || i == 1)
    requires Accepting(o) && minMines <= 0
    ensures var cl := list[depth := i];
            Visit(o, g, squares, minMines, list, depth, false, i) ==
              [cl] + if depth > 0 then Combos(o, g, squares, minMines, cl, depth - 1, false) else []
  {
    var cl := list[depth := i];
    SumBits(cl);
    assert o.isValid(ApplyFlags(g, squares, cl)) && o.isBombful(ApplyFlags(g, squares, cl), squares);
  }

  /**
    The repeat on the smallest case: two squares, helpers accepting every
    board, `_minMines` 0. The vectors with a 0 on the first square are
    collected twice, once where the second square is set and again at
    depth 0.
   */
  lemma CombosRepeat(o: Oracle, g: Grid, squares: seq<Point>, z: seq<int>)
    requires z == [0, 0] && Setup(g, squares, z) && Accepting(o)
    ensures var r := Combos(o, g, squares, 0, z, 1, false);
            && |r| == 6
            && r[0] == r[1] == [0, 0] && r[2] == [1, 0]
            && r[3] == r[4] == [0, 1] && r[5] == [1, 1]
  {
    var u := z[1 := 1];
    assert u == [0, 1] && z[1 := 0] == z;
    assert z[0 := 0] == [0, 0] && z[0 := 1] == [1, 0];
    assert u[0 := 0] == [0, 1] && u[0 := 1] == [1, 1];
    assert Bits(z) && Bits(u);
    TopAccepting(o, g, squares, z);
    var below0 := Combos(o, g, squares, 0, z, 0, false);
    var below1 := Combos(o, g, squares, 0, u, 0, false);
    BottomAccepting(o, g, squares, z);
    BottomAccepting(o, g, squares, u);
    RepeatShape(Combos(o, g, squares, 0, z, 1, false), below0, below1);
  }

  /** Helpers that find every board bombful and none valid, so the search never goes below the top. */
  ghost predicate Refusing(o: Oracle) {
    (forall b :: !o.isValid(b)) && forall b, s :: o.isBombful(b, s)
  }

  /**
    Where collecting at the last square only is more than dropping repeats:
    on two squares, with helpers that find every board bombful and none
    valid, and `_minMines` 0, the code as written collects [0, 0] and
    [0, 1] at the top and goes no further, while the leaves-only reading
    never reaches a leaf and collects nothing.
   */
  lemma LeafDropsInvalid(o: Oracle, g: Grid, squares: seq<Point>, z: seq<int>)
    requires z == [0, 0] && Setup(g, squares, z) && Refusing(o)
    ensures Combos(o, g, squares, 0, z, 1, false) == [[0, 0], [0, 1]]
    ensures Combos(o, g, squares, 0, z, 1, true) == []
  {
    assert z[1 := 0] == [0, 0] && z[1 := 1] == [0, 1];
  }

  /** The six vectors laid out: each turn's own vector, then the two found below it. */
  lemma RepeatShape(r: seq<seq<int>>, below0: seq<seq<int>>, below1: seq<seq<int>>)
    requires below0 == [[0, 0], [1, 0]] && below1 == [[0, 1], [1, 1]]
    requires r == [[0, 0]] + below0 + [[0, 1]] + below1
    ensures && |r| == 6
            && r[0] == r[1] == [0, 0] && r[2] == [1, 0]
            && r[3] == r[4] == [0, 1] && r[5] == [1, 1]
  {
  }

  /** As written, with accepting helpers, at depth 1: each turn's own vector, then the two below it. */
  lemma TopAccepting(o: Oracle, g: Grid, squares: seq<Point>, list: seq<int>)
    requires Setup(g, squares, list) && 1 < |list| && Bits(list) && Accepting(o)
    ensures Combos(o, g, squares, 0, list, 1, false) ==
              [list[1 := 0]] + Combos(o, g, squares, 0, list[1 := 0], 0, false) +
              [list[1 := 1]] + Combos(o, g, squares, 0, list[1 := 1], 0, false)
  {
    VisitAccepting(o, g, squares, 0, list, 1, 0);
    VisitAccepting(o, g, squares, 0, list, 1, 1);
    Regroup([list[1 := 0]], Combos(o, g, squares, 0, list[1 := 0], 0, false),
            [list[1 := 1]], Combos(o, g, squares, 0, list[1 := 1], 0, false));
  }

  /** At depth 0 with accepting helpers, both settings of the first square are collected. */
  lemma BottomAccepting(o: Oracle, g: Grid, squares: seq<Point>, list: seq<int>)
    requires Setup(g, squares, list) && 0 < |list| && Bits(list) && Accepting(o)
    ensures Combos(o, g, squares, 0, list, 0, false) == [list[0 := 0], list[0 := 1]]
  {
    VisitAccepting(o, g, squares, 0, list, 0, 0);
    VisitAccepting(o, g, squares, 0, list, 0, 1);
  }

  lemma DistinctAppend<T>(a: seq<T>, b: seq<T>)
    requires Distinct(a) && Distinct(b) && forall x | x in a :: x !in b
    ensures Distinct(a + b)
  {
    forall i, j | 0 <= i < j < |a + b|
      ensures (a + b)[i] != (a + b)[j]
    {
      if i < |a| && j >= |a| {
        assert (a + b)[i] in a && (a + b)[j] in b;
      }
    }
  }

  /**
    The evidently intended enumeration (`leavesOnly`, collecting only at the
    last square, where the code as written repeats vectors; see
    `CombosRepeat`), with accepting helpers and `minMines` at most 0: a call
    at depth d collects every vector of 0s and 1s that keeps the entries
    above d, each exactly once.
   */
  lemma {:induction false} LeafCombosOnce(o: Oracle, g: Grid, squares: seq<Point>, minMines: int, list: seq<int>,
                                          depth: nat)
    requires Setup(g, squares, list) && depth < |list| && Bits(list)
    requires Accepting(o) && minMines <= 0
    decreases depth, 1
    ensures var r := Combos(o, g, squares, minMines, list, depth, true);
            && Distinct(r)
            && |r| == Pow2(depth + 1)
            && forall v :: v in r <==> |v| == |list| && Bits(v) && v[depth + 1..] == list[depth + 1..]
  {
    LeafVisitOnce(o, g, squares, minMines, list, depth, 0);
    LeafVisitOnce(o, g, squares, minMines, list, depth, 1);
    var r0 := Visit(o, g, squares, minMines, list, depth, true, 0);
    var r1 := Visit(o, g, squares, minMines, list, depth, true, 1);
    forall v | v in r0
      ensures v !in r1
    {
      assert v[depth..][0] == 0;
    }
    DistinctAppend(r0, r1);
    forall v | |v| == |list| && Bits(v) && v[depth + 1..] == list[depth + 1..]
      ensures v in r0 + r1
    {
      SplitAt(v, depth);
    }
  }

  lemma {:induction false} LeafVisitOnce(o: Oracle, g: Grid, squares: seq<Point>, minMines: int, list: seq<int>,
                                         depth: nat, i: int)
    requires Setup(g, squares, list) && depth < |list| && Bits(list) && (i == 0 || i == 1)
    requires Accepting(o) && minMines <= 0
    decreases depth, 0
    ensures var r := Visit(o, g, squares, minMines, list, depth, true, i);
            && Distinct(r)
            && |r| == Pow2(depth)
            && forall v :: v in r <==> |v| == |list| && Bits(v) && v[depth..] == [i] + list[depth + 1..]
  {
    var cl := list[depth := i];
    SumBits(cl);
    assert o.isValid(ApplyFlags(g, squares, cl)) && o.isBombful(ApplyFlags(g, squares, cl), squares);
    UpdateSlice(list, depth, i);
    if depth > 0 {
      LeafCombosOnce(o, g, squares, minMines, cl, depth - 1);
    } else {
      forall v | |v| == |list| && v[0..] == [i] + list[1..]
        ensures v == cl
      {
        assert v == v[0..];
      }
    }
  }

  /** The vector the search holds at depth d on its way to v: the entries below d are still 0. */
  function Lower(v: seq<int>, d: nat): (r: seq<int>)
    ensures |r| == |v|
    ensures forall j | 0 <= j < |v| :: r[j] == if j < d then 0 else v[j]
  {
    seq(|v|, j requires 0 <= j < |v| => if j < d then 0 else v[j])
  }

  /** The search goes on below depth d on its way to v: no board built, or the board `IsValid`. */
  predicate Descends(o: Oracle, g: Grid, squares: seq<Point>, minMines: int, v: seq<int>, d: nat)
    requires Setup(g, squares, v)
  {
    var w := Lower(v, d);
    Sum(w) < minMines || o.isValid(ApplyFlags(g, squares, w))
  }

  /**
    The vectors the leaves-only reading collects below `depth`: 0s and 1s
    agreeing with list above it, with enough flags, bombful, and passing the
    descent test at every level from 1 to depth.
   */
  predicate LeafReached(o: Oracle, g: Grid, squares: seq<Point>, minMines: int, list: seq<int>, depth: nat,
                        v: seq<int>)
    requires Setup(g, squares, list) && depth < |list|
  {
    && |v| == |list| && Bits(v) && v[depth + 1..] == list[depth + 1..]
    && Sum(v) >= minMines && o.isBombful(ApplyFlags(g, squares, v), squares)
    && forall d | 1 <= d <= depth :: Descends(o, g, squares, minMines, v, d)
  }

  /**
    Visiting leaves only, for any helpers: below a vector whose entries up
    to the depth are 0, the search collects, exactly once each, the vectors
    that agree above the depth, reach `minMines`, whose board `IsBombful`,
    and on whose way down every level up to the depth descends. The descent
    test at every level is what separates this from dropping the repeats of
    `CombosExact`: a bombful board that is not valid is kept as written but
    not here (`LeafDropsInvalid`), so the two agree when every bombful
    board is valid.
   */
  lemma {:induction false} LeafCombosExact(o: Oracle, g: Grid, squares: seq<Point>, minMines: int, list: seq<int>,
                                           depth: nat)
    requires Setup(g, squares, list) && depth < |list| && Bits(list)
    requires forall j | 0 <= j <= depth :: list[j] == 0
    decreases depth, 1
    ensures var r := Combos(o, g, squares, minMines, list, depth, true);
            && Distinct(r)
            && forall v :: v in r <==> LeafReached(o, g, squares, minMines, list, depth, v)
  {
    LeafVisitExact(o, g, squares, minMines, list, depth, 0);
    LeafVisitExact(o, g, squares, minMines, list, depth, 1);
    var r0 := Visit(o, g, squares, minMines, list, depth, true, 0);
    var r1 := Visit(o, g, squares, minMines, list, depth, true, 1);
    forall v | v in r0
      ensures v !in r1
    {
      assert v[depth..][0] == 0;
    }
    DistinctAppend(r0, r1);
    forall v | |v| == |list| && Bits(v) && v[depth + 1..] == list[depth + 1..]
      ensures v[depth..] == [v[depth]] + list[depth + 1..]
    {
      SplitAt(v, depth);
    }
  }

  lemma {:induction false} LeafVisitExact(o: Oracle, g: Grid, squares: seq<Point>, minMines: int, list: seq<int>,
                                          depth: nat, i: int)
    requires Setup(g, squares, list) && depth < |list| && Bits(list) && (i == 0 || i == 1)
    requires forall j | 0 <= j <= depth :: list[j] == 0
    decreases depth, 0
    ensures var r := Visit(o, g, squares, minMines, list, depth, true, i);
            && Distinct(r)
            && forall v :: v in r <==> OnPath(o, g, squares, minMines, list, depth, i, v)
  {
    if depth > 0 {
      LeafCombosExact(o, g, squares, minMines, list[depth := i], depth - 1);
      LeafInnerExact(o, g, squares, minMines, list, depth, i);
    } else {
      LeafBottomExact(o, g, squares, minMines, list, i);
    }
  }

  /** An inner turn of the corrected search collects exactly what the level below characterises. */
  lemma LeafInnerExact(o: Oracle, g: Grid, squares: seq<Point>, minMines: int, list: seq<int>, depth: nat, i: int)
    requires Setup(g, squares, list) && 0 < depth < |list| && Bits(list) && (i == 0 || i == 1)
    requires forall j | 0 <= j <= depth :: list[j] == 0
    requires var below := Combos(o, g, squares, minMines, list[depth := i], depth - 1, true);
             && Distinct(below)
             && forall v :: v in below <==> LeafReached(o, g, squares, minMines, list[depth := i], depth - 1, v)
    ensures var r := Visit(o, g, squares, minMines, list, depth, true, i);
            && Distinct(r)
            && forall v :: v in r <==> OnPath(o, g, squares, minMines, list, depth, i, v)
  {
    var cl := list[depth := i];
    UpdateSlice(list, depth, i);
    VisitLeaf(o, g, squares, minMines, list, depth, i);
    forall v
      ensures v in Visit(o, g, squares, minMines, list, depth, true, i) <==>
                OnPath(o, g, squares, minMines, list, depth, i, v)
    {
      InnerOnPath(o, g, squares, minMines, list, depth, i, v);
    }
  }

  /** The turn at depth 0 of the corrected search keeps its own vector alone. */
  lemma LeafBottomExact(o: Oracle, g: Grid, squares: seq<Point>, minMines: int, list: seq<int>, i: int)
    requires Setup(g, squares, list) && 0 < |list| && Bits(list) && (i == 0 || i == 1)
    requires list[0] == 0
    ensures var r := Visit(o, g, squares, minMines, list, 0, true, i);
            && Distinct(r)
            && forall v :: v in r <==> OnPath(o, g, squares, minMines, list, 0, i, v)
  {
    var cl := list[0 := i];
    UpdateSlice(list, 0, i);
    VisitLeaf(o, g, squares, minMines, list, 0, i);
    forall v
      ensures v in Visit(o, g, squares, minMines, list, 0, true, i) <==> OnPath(o, g, squares, minMines, list, 0, i, v)
    {
      if |v| == |list| && v[0..] == [i] + list[1..] {
        assert v == v[0..] == cl;
      }
    }
  }

  /** One vector at an inner turn: it is on the path iff the turn descends and the level below keeps it. */
  lemma InnerOnPath(o: Oracle, g: Grid, squares: seq<Point>, minMines: int, list: seq<int>, depth: nat, i: int,
                    v: seq<int>)
    requires Setup(g, squares, list) && 0 < depth < |list|
    requires forall j | 0 <= j <= depth :: list[j] == 0
    requires var cl := list[depth := i];
             forall v :: v in Combos(o, g, squares, minMines, cl, depth - 1, true) <==>
               && |v| == |cl| && Bits(v) && v[depth..] == cl[depth..]
               && Sum(v) >= minMines && o.isBombful(ApplyFlags(g, squares, v), squares)
               && forall d | 1 <= d <= depth - 1 :: Descends(o, g, squares, minMines, v, d)
    ensures var cl := list[depth := i];
            var keep := Sum(cl) < minMines || o.isValid(ApplyFlags(g, squares, cl));
            (keep && v in Combos(o, g, squares, minMines, cl, depth - 1, true)) <==>
              OnPath(o, g, squares, minMines, list, depth, i, v)
  {
    var cl := list[depth := i];
    UpdateSlice(list, depth, i);
    if |v| == |list| && v[depth..] == cl[depth..] {
      LowerOnPath(v, cl, depth);
      var keep := Sum(cl) < minMines || o.isValid(ApplyFlags(g, squares, cl));
      assert Descends(o, g, squares, minMines, v, depth) == keep;
      DescendsUpTo(o, g, squares, minMines, v, depth);
    }
  }

  /** Passing the descent test at levels 1 to depth is passing it below depth and at depth. */
  lemma DescendsUpTo(o: Oracle, g: Grid, squares: seq<Point>, minMines: int, v: seq<int>, depth: nat)
    requires Setup(g, squares, v) && 0 < depth
    ensures (forall d | 1 <= d <= depth :: Descends(o, g, squares, minMines, v, d)) <==>
              (forall d | 1 <= d <= depth - 1 :: Descends(o, g, squares, minMines, v, d))
              && Descends(o, g, squares, minMines, v, depth)
  {
  }

  /** The vectors a turn setting `list[depth]` to i may collect, as the exact lemmas state them. */
  predicate OnPath(o: Oracle, g: Grid, squares: seq<Point>, minMines: int, list: seq<int>, depth: nat, i: int,
                   v: seq<int>)
    requires Setup(g, squares, list) && depth < |list|
  {
    && |v| == |list| && Bits(v) && v[depth..] == [i] + list[depth + 1..]
    && Sum(v) >= minMines && o.isBombful(ApplyFlags(g, squares, v), squares)
    && forall d | 1 <= d <= depth :: Descends(o, g, squares, minMines, v, d)
  }

  /** One turn of the corrected search: a leaf keeps its own vector, an inner turn only what lies below. */
  lemma VisitLeaf(o: Oracle, g: Grid, squares: seq<Point>, minMines: int, list: seq<int>, depth: nat, i: int)
    requires Setup(g, squares, list) && depth < |list|
    ensures var cl := list[depth := i];
            var b := ApplyFlags(g, squares, cl);
            Visit(o, g, squares, minMines, list, depth, true, i) ==
              if depth == 0 then (if Sum(cl) >= minMines && o.isBombful(b, squares) then [cl] else [])
              else if Sum(cl) < minMines || o.isValid(b) then Combos(o, g, squares, minMines, cl, depth - 1, true)
              else []
  {
  }

  /** On the way down to v, the vector held at depth d is v with the entries below d reset. */
  lemma LowerOnPath(v: seq<int>, cl: seq<int>, depth: nat)
    requires |v| == |cl| && depth <= |v| && v[depth..] == cl[depth..]
    requires forall j | 0 <= j < depth :: cl[j] == 0
    ensures Lower(v, depth) == cl
  {
    forall j | 0 <= j < |v|
      ensures Lower(v, depth)[j] == cl[j]
    {
      if j >= depth {
        assert v[j] == v[depth..][j - depth];
      }
    }
  }

  /** The number of leading 0s of v: the index of its first set entry, or |v|. */
  function Low(v: seq<int>): (k: nat)
    ensures k <= |v|
    ensures forall j | 0 <= j < k :: v[j] == 0
    ensures k < |v| ==> v[k] != 0
  {
    if v == [] || v[0] != 0 then 0
    else
      var k := Low(v[1..]);
      assert forall j | 1 <= j < 1 + k :: v[j] == v[1..][j - 1];
      1 + k
  }

  /**
    The vectors a turn setting `list[depth]` to i collects as written: v
    agrees from the depth up, reaches `minMines`, its board `IsBombful`, and
    the search descends at every level above its first set entry up to the
    depth.
   */
  predicate Reached(o: Oracle, g: Grid, squares: seq<Point>, minMines: int, list: seq<int>, depth: nat, i: int,
                    v: seq<int>)
    requires Setup(g, squares, list) && depth < |list|
  {
    && |v| == |list| && Bits(v) && v[depth..] == [i] + list[depth + 1..]
    && Sum(v) >= minMines && o.isBombful(ApplyFlags(g, squares, v), squares)
    && forall d | Min(Low(v), depth) < d <= depth :: Descends(o, g, squares, minMines, v, d)
  }

  /** A reached vector carries the turn's choice at the depth. */
  lemma ReachedHead(o: Oracle, g: Grid, squares: seq<Point>, minMines: int, list: seq<int>, depth: nat, i: int,
                    v: seq<int>)
    requires Setup(g, squares, list) && depth < |list| && Reached(o, g, squares, minMines, list, depth, i, v)
    ensures depth < |v| && v[depth] == i
  {
    assert v[depth..][0] == i;
  }

  /** Two lists told apart by the entry at the depth add their multiplicities without overlap. */
  lemma DisjointBound(r0: seq<seq<int>>, r1: seq<seq<int>>, depth: nat, bound: seq<int> -> int)
    requires forall v | v in r0 :: depth < |v| && v[depth] == 0
    requires forall v | v in r1 :: depth < |v| && v[depth] == 1
    requires forall v :: multiset(r0)[v] <= bound(v) && multiset(r1)[v] <= bound(v)
    ensures forall v :: multiset(r0 + r1)[v] <= bound(v)
  {
    MultisetAppend(r0, r1);
    forall v
      ensures multiset(r0 + r1)[v] <= bound(v)
    {
      if v in r0 {
        assert v !in r1;
      }
    }
  }

  /**
    As written, for any helpers: below a vector whose entries up to the
    depth are 0, the search collects exactly the vectors some turn reaches,
    and a vector with k leading 0s at most min(k, depth) + 1 times, once for
    each level whose turn holds it.
   */
  lemma {:induction false} CombosExact(o: Oracle, g: Grid, squares: seq<Point>, minMines: int, list: seq<int>,
                                       depth: nat)
    requires Setup(g, squares, list) && depth < |list| && Bits(list)
    requires forall j | 0 <= j <= depth :: list[j] == 0
    decreases depth, 1
    ensures var r := Combos(o, g, squares, minMines, list, depth, false);
            && (forall v :: v in r <==>
                  |v| == |list| && v[depth..] != [] && (v[depth] == 0 || v[depth] == 1) &&
                  Reached(o, g, squares, minMines, list, depth, v[depth], v))
            && forall v :: multiset(r)[v] <= Min(Low(v), depth) + 1
  {
    VisitExact(o, g, squares, minMines, list, depth, 0);
    VisitExact(o, g, squares, minMines, list, depth, 1);
    var r0 := Visit(o, g, squares, minMines, list, depth, false, 0);
    var r1 := Visit(o, g, squares, minMines, list, depth, false, 1);
    forall v | v in r0
      ensures depth < |v| && v[depth] == 0
    {
      ReachedHead(o, g, squares, minMines, list, depth, 0, v);
    }
    forall v | v in r1
      ensures depth < |v| && v[depth] == 1
    {
      ReachedHead(o, g, squares, minMines, list, depth, 1, v);
    }
    DisjointBound(r0, r1, depth, v => Min(Low(v), depth) + 1);
  }

  lemma {:induction false} VisitExact(o: Oracle, g: Grid, squares: seq<Point>, minMines: int, list: seq<int>,
                                      depth: nat, i: int)
    requires Setup(g, squares, list) && depth < |list| && Bits(list) && (i == 0 || i == 1)
    requires forall j | 0 <= j <= depth :: list[j] == 0
    decreases depth, 0
    ensures var r := Visit(o, g, squares, minMines, list, depth, false, i);
            && (forall v :: v in r <==> Reached(o, g, squares, minMines, list, depth, i, v))
            && forall v :: multiset(r)[v] <= Min(Low(v), depth) + 1
  {
    if depth > 0 {
      CombosExact(o, g, squares, minMines, list[depth := i], depth - 1);
      InnerExact(o, g, squares, minMines, list, depth, i);
      InnerCount(o, g, squares, minMines, list, depth, i);
    } else {
      BottomExact(o, g, squares, minMines, list, i);
    }
  }

  /** An inner turn reaches exactly what the level below characterises, given that characterisation. */
  lemma InnerExact(o: Oracle, g: Grid, squares: seq<Point>, minMines: int, list: seq<int>, depth: nat, i: int)
    requires Setup(g, squares, list) && 0 < depth < |list| && Bits(list) && (i == 0 || i == 1)
    requires forall j | 0 <= j <= depth :: list[j] == 0
    requires var cl := list[depth := i];
             forall v :: v in Combos(o, g, squares, minMines, cl, depth - 1, false) <==>
               |v| == |cl| && v[depth - 1..] != [] && (v[depth - 1] == 0 || v[depth - 1] == 1) &&
               Reached(o, g, squares, minMines, cl, depth - 1, v[depth - 1], v)
    ensures forall v :: v in Visit(o, g, squares, minMines, list, depth, false, i) <==>
              Reached(o, g, squares, minMines, list, depth, i, v)
  {
    VisitAll(o, g, squares, minMines, list, depth, i);
    forall v
      ensures v in Visit(o, g, squares, minMines, list, depth, false, i) <==>
                Reached(o, g, squares, minMines, list, depth, i, v)
    {
      InnerReached(o, g, squares, minMines, list, depth, i, v);
    }
  }

  /** The turn at depth 0 reaches its own vector alone, once. */
  lemma BottomExact(o: Oracle, g: Grid, squares: seq<Point>, minMines: int, list: seq<int>, i: int)
    requires Setup(g, squares, list) && 0 < |list| && Bits(list) && (i == 0 || i == 1)
    requires list[0] == 0
    ensures var r := Visit(o, g, squares, minMines, list, 0, false, i);
            && (forall v :: v in r <==> Reached(o, g, squares, minMines, list, 0, i, v))
            && forall v :: multiset(r)[v] <= Min(Low(v), 0) + 1
  {
    var cl := list[0 := i];
    VisitAll(o, g, squares, minMines, list, 0, i);
    UpdateSlice(list, 0, i);
    forall v
      ensures v in Visit(o, g, squares, minMines, list, 0, false, i) <==> Reached(o, g, squares, minMines, list, 0, i, v)
    {
      if |v| == |list| && v[0..] == [i] + list[1..] {
        assert v == v[0..] == cl;
      }
    }
  }

  /** The count bound at an inner turn: one for the turn's own vector, which has `depth` leading 0s, plus the level below. */
  lemma InnerCount(o: Oracle, g: Grid, squares: seq<Point>, minMines: int, list: seq<int>, depth: nat, i: int)
    requires Setup(g, squares, list) && 0 < depth < |list|
    requires forall j | 0 <= j <= depth :: list[j] == 0
    requires forall v :: multiset(Combos(o, g, squares, minMines, list[depth := i], depth - 1, false))[v]
                           <= Min(Low(v), depth - 1) + 1
    ensures forall v :: multiset(Visit(o, g, squares, minMines, list, depth, false, i))[v] <= Min(Low(v), depth) + 1
  {
    var cl := list[depth := i];
    assert Low(cl) >= depth;
    VisitAll(o, g, squares, minMines, list, depth, i);
    var b := ApplyFlags(g, squares, cl);
    var here: seq<seq<int>> := if Sum(cl) >= minMines && o.isBombful(b, squares) then [cl] else [];
    var below := Combos(o, g, squares, minMines, cl, depth - 1, false);
    if Sum(cl) < minMines || o.isValid(b) {
      CountStep(cl, here, below, depth);
    } else {
      CountStep(cl, here, [], depth);
      assert here + [] == here;
    }
  }

  /** Prepending at most the one vector with `depth` leading 0s raises the bound by one level. */
  lemma CountStep(cl: seq<int>, here: seq<seq<int>>, tail: seq<seq<int>>, depth: nat)
    requires 0 < depth && Low(cl) >= depth && (here == [] || here == [cl])
    requires forall v :: multiset(tail)[v] <= Min(Low(v), depth - 1) + 1
    ensures forall v :: multiset(here + tail)[v] <= Min(Low(v), depth) + 1
  {
    assert multiset(here + tail) == multiset(here) + multiset(tail);
    forall v
      ensures multiset(here + tail)[v] <= Min(Low(v), depth) + 1
    {
      if v == cl {
        assert multiset(here)[v] <= 1;
      } else {
        assert multiset(here)[v] == 0;
      }
    }
  }

  /** One turn as written: its own vector when collected, then, when the search descends, everything below. */
  lemma VisitAll(o: Oracle, g: Grid, squares: seq<Point>, minMines: int, list: seq<int>, depth: nat, i: int)
    requires Setup(g, squares, list) && depth < |list|
    ensures var cl := list[depth := i];
            var b := ApplyFlags(g, squares, cl);
            var here := if Sum(cl) >= minMines && o.isBombful(b, squares) then [cl] else [];
            Visit(o, g, squares, minMines, list, depth, false, i) ==
              if depth > 0 && (Sum(cl) < minMines || o.isValid(b))
              then here + Combos(o, g, squares, minMines, cl, depth - 1, false)
              else here
  {
  }

  /** One vector at an inner turn, as written: reached iff the turn holds it or descends to a level that does. */
  lemma InnerReached(o: Oracle, g: Grid, squares: seq<Point>, minMines: int, list: seq<int>, depth: nat, i: int,
                     v: seq<int>)
    requires Setup(g, squares, list) && 0 < depth < |list| && Bits(list) && (i == 0 || i == 1)
    requires forall j | 0 <= j <= depth :: list[j] == 0
    requires var cl := list[depth := i];
             v in Combos(o, g, squares, minMines, cl, depth - 1, false) <==>
               |v| == |cl| && v[depth - 1..] != [] && (v[depth - 1] == 0 || v[depth - 1] == 1) &&
               Reached(o, g, squares, minMines, cl, depth - 1, v[depth - 1], v)
    ensures var cl := list[depth := i];
            var b := ApplyFlags(g, squares, cl);
            var here := Sum(cl) >= minMines && o.isBombful(b, squares);
            var keep := Sum(cl) < minMines || o.isValid(b);
            ((here && v == cl) || (keep && v in Combos(o, g, squares, minMines, cl, depth - 1, false))) <==>
              Reached(o, g, squares, minMines, list, depth, i, v)
  {
    var cl := list[depth := i];
    if v == cl {
      InnerSelf(o, g, squares, minMines, list, depth, i);
    } else if |v| == |list| && v[depth..] == cl[depth..] {
      InnerBelow(o, g, squares, minMines, list, depth, i, v);
    } else {
      UpdateSlice(list, depth, i);
    }
  }

  /** The turn's own vector is reached exactly when the turn collects it. */
  lemma InnerSelf(o: Oracle, g: Grid, squares: seq<Point>, minMines: int, list: seq<int>, depth: nat, i: int)
    requires Setup(g, squares, list) && 0 < depth < |list| && Bits(list) && (i == 0 || i == 1)
    requires forall j | 0 <= j <= depth :: list[j] == 0
    requires var cl := list[depth := i];
             cl in Combos(o, g, squares, minMines, cl, depth - 1, false) ==>
               Reached(o, g, squares, minMines, cl, depth - 1, cl[depth - 1], cl)
    ensures var cl := list[depth := i];
            var b := ApplyFlags(g, squares, cl);
            var here := Sum(cl) >= minMines && o.isBombful(b, squares);
            var keep := Sum(cl) < minMines || o.isValid(b);
            (here || (keep && cl in Combos(o, g, squares, minMines, cl, depth - 1, false))) <==>
              Reached(o, g, squares, minMines, list, depth, i, cl)
  {
    var cl := list[depth := i];
    UpdateSlice(list, depth, i);
    assert Low(cl) >= depth;
    assert Bits(cl);
  }

  /** A vector with a set entry below the turn's depth has fewer leading 0s than the depth. */
  lemma LowBelow(v: seq<int>, cl: seq<int>, depth: nat)
    requires |v| == |cl| && depth <= |v| && v[depth..] == cl[depth..]
    requires forall j | 0 <= j < depth :: cl[j] == 0
    requires v != cl
    ensures Low(v) < depth
  {
    if Low(v) >= depth {
      assert false;
    }
  }

  /** A vector strictly below the turn is reached iff the turn descends and the level below reaches it. */
  lemma InnerBelow(o: Oracle, g: Grid, squares: seq<Point>, minMines: int, list: seq<int>, depth: nat, i: int,
                   v: seq<int>)
    requires Setup(g, squares, list) && 0 < depth < |list| && Bits(list) && (i == 0 || i == 1)
    requires forall j | 0 <= j <= depth :: list[j] == 0
    requires var cl := list[depth := i];
             v != cl && |v| == |list| && v[depth..] == cl[depth..]
    ensures var cl := list[depth := i];
            var keep := Sum(cl) < minMines || o.isValid(ApplyFlags(g, squares, cl));
            (keep && Reached(o, g, squares, minMines, cl, depth - 1, v[depth - 1], v)) <==>
              Reached(o, g, squares, minMines, list, depth, i, v)
  {
    var cl := list[depth := i];
    UpdateSlice(list, depth, i);
    LowBelow(v, cl, depth);
    LowerOnPath(v, cl, depth);
    var keep := Sum(cl) < minMines || o.isValid(ApplyFlags(g, squares, cl));
    assert Descends(o, g, squares, minMines, v, depth) == keep;
    assert Min(Low(v), depth) == Min(Low(v), depth - 1) == Low(v);
    SplitAt(v, depth - 1);
  }

  // ---------------------------------------------------------------------------
  // The layouts (lines 73, 124-136)

  /** `new int[_squares.Count]`: every entry 0. */
  function Zeros(n: nat): (r: seq<int>)
    ensures |r| == n && Bits(r)
    ensures forall j | 0 <= j < n :: r[j] == 0
  {
    seq(n, _ => 0)
  }

  /** The enumeration as written, started as `GetFlagCombinations(fls, fls.Length - 1)` does. */
  function Vectors(o: Oracle, g: Grid, squares: seq<Point>, minMines: int): (r: seq<seq<int>>)
    requires squares != [] && AllInBounds(g, squares)
    ensures forall v | v in r :: |v| == |squares|
  {
    Combos(o, g, squares, minMines, Zeros(|squares|), |squares| - 1, false)
  }

  /**
    The vectors the enumeration collects, stated without the search: 0s and
    1s reaching `minMines`, whose board `IsBombful`, and for which the search
    descends at every level above the first set entry.
   */
  predicate Collected(o: Oracle, g: Grid, squares: seq<Point>, minMines: int, v: seq<int>)
    requires Setup(g, squares, v)
  {
    && Bits(v)
    && Sum(v) >= minMines
    && o.isBombful(ApplyFlags(g, squares, v), squares)
    && forall d | Min(Low(v), |v| - 1) < d < |v| :: Descends(o, g, squares, minMines, v, d)
  }

  /**
    `GetValidMinePlacements()`: the boards of the collected vectors, in the
    order found. With no squares `fls.Length - 1` is -1 and `cl[depth]`
    throws: `None`.
   */
  function Placements(o: Oracle, g: Grid, squares: seq<Point>, minMines: int): (r: Option<seq<Grid>>)
    requires AllInBounds(g, squares)
    ensures r.None? <==> squares == []
    ensures r.Some? ==> forall l | l in r.value ::
              && l.cols == g.cols && l.rows == g.rows
              && o.isBombful(l, squares)
              && forall q | g.InBounds(q) :: Get(l, q) == Get(g, q) || (q in squares && Get(l, q) == Flag)
  {
    if squares == [] then None
    else
      var vs := Vectors(o, g, squares, minMines);
      CombosSound(o, g, squares, minMines, Zeros(|squares|), |squares| - 1, false);
      var layouts: seq<Grid> := seq(|vs|, k requires 0 <= k < |vs| => ApplyFlags(g, squares, vs[k]));
      Some(layouts)
  }

  /**
    The enumeration started from all 0s finds the `Collected` vectors of the
    set's length and nothing else, a vector with k leading 0s at most k + 1
    times.
   */
  lemma VectorsExact(o: Oracle, g: Grid, squares: seq<Point>, minMines: int)
    requires squares != [] && AllInBounds(g, squares)
    ensures var vs := Vectors(o, g, squares, minMines);
            && (forall v :: v in vs <==> |v| == |squares| && Collected(o, g, squares, minMines, v))
            && forall v :: multiset(vs)[v] <= Low(v) + 1
  {
    var n := |squares|;
    CombosExact(o, g, squares, minMines, Zeros(n), n - 1);
    forall v
      ensures v in Vectors(o, g, squares, minMines) <==> |v| == n && Collected(o, g, squares, minMines, v)
    {
      VectorMember(o, g, squares, minMines, v);
    }
  }

  /** One vector: the top level's characterisation is the one `Collected` states. */
  lemma VectorMember(o: Oracle, g: Grid, squares: seq<Point>, minMines: int, v: seq<int>)
    requires squares != [] && AllInBounds(g, squares)
    requires var n := |squares|;
             v in Vectors(o, g, squares, minMines) <==>
               |v| == n && v[n - 1..] != [] && (v[n - 1] == 0 || v[n - 1] == 1) &&
               Reached(o, g, squares, minMines, Zeros(n), n - 1, v[n - 1], v)
    ensures v in Vectors(o, g, squares, minMines) <==> |v| == |squares| && Collected(o, g, squares, minMines, v)
  {
    if |v| == |squares| {
      ReachedTop(o, g, squares, minMines, v);
    }
  }

  /** At the top level, a turn reaches v iff v is `Collected`. */
  lemma ReachedTop(o: Oracle, g: Grid, squares: seq<Point>, minMines: int, v: seq<int>)
    requires squares != [] && AllInBounds(g, squares) && |v| == |squares|
    ensures var n := |squares|;
            (v[n - 1] == 0 || v[n - 1] == 1) && Reached(o, g, squares, minMines, Zeros(n), n - 1, v[n - 1], v)
            <==> Collected(o, g, squares, minMines, v)
  {
    var n := |squares|;
    assert v[n - 1..] == [v[n - 1]] + Zeros(n)[n..];
  }

  /**
    A cell covered on the board is mined in no layout iff no collected
    vector flags it, and in every layout iff every collected vector does.
   */
  lemma MinedExactly(o: Oracle, g: Grid, squares: seq<Point>, minMines: int, q: Point)
    requires squares != [] && AllInBounds(g, squares) && g.InBounds(q) && Get(g, q) == Covered
    ensures var layouts := Placements(o, g, squares, minMines).value;
            && (MinesAt(layouts, q) == 0 <==>
                  forall v | |v| == |squares| && Collected(o, g, squares, minMines, v) :: !Flagged(squares, v, q))
            && (MinesAt(layouts, q) == |layouts| <==>
                  forall v | |v| == |squares| && Collected(o, g, squares, minMines, v) :: Flagged(squares, v, q))
  {
    VectorsExact(o, g, squares, minMines);
    FlagsFollowVectors(o, g, squares, minMines, q);
    AllOrNone(Placements(o, g, squares, minMines).value, q, Vectors(o, g, squares, minMines),
              v => Setup(g, squares, v) && Collected(o, g, squares, minMines, v),
              v => |v| == |squares| && Flagged(squares, v, q));
  }

  /** The k-th layout has a flag on q exactly when the k-th vector sets q. */
  lemma FlagsFollowVectors(o: Oracle, g: Grid, squares: seq<Point>, minMines: int, q: Point)
    requires squares != [] && AllInBounds(g, squares) && g.InBounds(q) && Get(g, q) == Covered
    ensures var vs := Vectors(o, g, squares, minMines);
            var layouts := Placements(o, g, squares, minMines).value;
            && |layouts| == |vs|
            && forall k | 0 <= k < |vs| :: Get(layouts[k], q) == Flag <==> Flagged(squares, vs[k], q)
  {
    var vs := Vectors(o, g, squares, minMines);
    var layouts := Placements(o, g, squares, minMines).value;
    assert |layouts| == |vs|;
    forall k | 0 <= k < |vs|
      ensures Get(layouts[k], q) == Flag <==> Flagged(squares, vs[k], q)
    {
      assert layouts[k] == ApplyFlags(g, squares, vs[k]);
    }
  }

  /**
    Boards paired index by index with the members of a set of vectors: q is
    never (always) flagged exactly when no (every) member sets it.
   */
  lemma AllOrNone(layouts: seq<Grid>, q: Point, vs: seq<seq<int>>,
                  member: seq<int> -> bool, sets: seq<int> -> bool)
    requires |layouts| == |vs| && forall l | l in layouts :: l.InBounds(q)
    requires forall k | 0 <= k < |vs| :: Get(layouts[k], q) == Flag <==> sets(vs[k])
    requires forall v :: v in vs <==> member(v)
    ensures MinesAt(layouts, q) == 0 <==> forall v | member(v) :: !sets(v)
    ensures MinesAt(layouts, q) == |layouts| <==> forall v | member(v) :: sets(v)
  {
    MinesAtIndexed(layouts, q);
    forall v | member(v)
      ensures exists k | 0 <= k < |vs| :: vs[k] == v
    {
      assert v in vs;
    }
  }

  /** `MinesAt` read by index. */
  lemma MinesAtIndexed(boards: seq<Grid>, p: Point)
    requires forall g | g in boards :: g.InBounds(p)
    ensures MinesAt(boards, p) == 0 <==> forall k | 0 <= k < |boards| :: Get(boards[k], p) != Flag
    ensures MinesAt(boards, p) == |boards| <==> forall k | 0 <= k < |boards| :: Get(boards[k], p) == Flag
  {
    assert forall k | 0 <= k < |boards| :: boards[k] in boards;
  }

  // ---------------------------------------------------------------------------
  // The tally `_locs` (lines 77-92)

  /** The listed cells that l flags, in order. */
  function FlaggedOn(l: Grid, ps: seq<Point>): (r: seq<Point>)
    requires AllInBounds(l, ps)
    ensures forall q :: q in r <==> q in ps && Get(l, q) == Flag
    ensures Distinct(ps) ==> Distinct(r)
  {
    if ps == [] then []
    else
      var rest := FlaggedOn(l, ps[1..]);
      assert forall q | q in ps[1..] :: q in ps;
      assert forall q | q in ps :: q == ps[0] || q in ps[1..];
      if Get(l, ps[0]) == Flag then [ps[0]] + rest else rest
  }

  /** The cells of one layout the tally counts: covered on the live board, flagged on the layout, row by row. */
  function MinedCells(g: Grid, l: Grid): (r: seq<Point>)
    requires l.cols == g.cols && l.rows == g.rows
    ensures Distinct(r)
    ensures forall q :: q in r <==> g.InBounds(q) && Get(g, q) == Covered && Get(l, q) == Flag
  {
    var cs := Cells(g, Covered);
    RowMajorDistinct(cs);
    FlaggedOn(l, cs)
  }

  /** The dictionary `_locs`: its keys in the order added, and the counts. */
  datatype Tally = Tally(keys: seq<Point>, count: map<Point, nat>)

  /** The keys are the dictionary's domain, each once. */
  ghost predicate TallyInv(t: Tally) {
    Distinct(t.keys) && forall q :: q in t.keys <==> q in t.count
  }

  /** The count of q, 0 when absent. */
  function CountOf(t: Tally, q: Point): nat {
    if q in t.count then t.count[q] else 0
  }

  /** `if (_locs.ContainsKey(pnt)) _locs[pnt]++; else _locs.Add(pnt, 1);` for each listed cell. */
  function AddCells(t: Tally, qs: seq<Point>): (r: Tally)
    requires TallyInv(t) && Distinct(qs)
    ensures TallyInv(r)
    ensures forall q :: q in r.count <==> q in t.count || q in qs
    ensures forall q :: CountOf(r, q) == CountOf(t, q) + if q in qs then 1 else 0
    decreases qs
  {
    if qs == [] then t
    else
      var q := qs[0];
      var t1 := if q in t.count then Tally(t.keys, t.count[q := t.count[q] + 1])
                else Tally(t.keys + [q], t.count[q := 1]);
      assert forall p :: p in qs <==> p == q || p in qs[1..];
      assert q !in qs[1..];
      AddCells(t1, qs[1..])
  }

  /** The `foreach (var p in possibilities)` loop. */
  function TallyFrom(t: Tally, g: Grid, layouts: seq<Grid>): (r: Tally)
    requires TallyInv(t) && forall l | l in layouts :: l.cols == g.cols && l.rows == g.rows
    ensures TallyInv(r)
    decreases layouts
  {
    if layouts == [] then t
    else
      assert layouts[0] in layouts;
      assert forall l | l in layouts[1..] :: l in layouts;
      TallyFrom(AddCells(t, MinedCells(g, layouts[0])), g, layouts[1..])
  }

  /** `_locs` after the loop. */
  function Locs(g: Grid, layouts: seq<Grid>): (r: Tally)
    requires forall l | l in layouts :: l.cols == g.cols && l.rows == g.rows
    ensures TallyInv(r)
  {
    TallyFrom(Tally([], map[]), g, layouts)
  }

  lemma {:induction false} TallyFromCounts(t: Tally, g: Grid, layouts: seq<Grid>, q: Point)
    requires TallyInv(t) && forall l | l in layouts :: l.cols == g.cols && l.rows == g.rows
    decreases layouts
    ensures var r := TallyFrom(t, g, layouts);
            && (q in r.count <==> q in t.count || (g.InBounds(q) && Get(g, q) == Covered && MinesAt(layouts, q) > 0))
            && CountOf(r, q) == CountOf(t, q) + if g.InBounds(q) && Get(g, q) == Covered then MinesAt(layouts, q) else 0
  {
    if layouts != [] {
      assert layouts[0] in layouts;
      assert forall l | l in layouts[1..] :: l in layouts;
      var t1 := AddCells(t, MinedCells(g, layouts[0]));
      TallyFromCounts(t1, g, layouts[1..], q);
    }
  }

  /**
    The tally's keys are exactly the cells covered on the live board that
    some layout flags, and each key counts the layouts that flag it.
   */
  lemma LocsSpec(g: Grid, layouts: seq<Grid>)
    requires forall l | l in layouts :: l.cols == g.cols && l.rows == g.rows
    ensures var t := Locs(g, layouts);
            && Distinct(t.keys)
            && (forall q :: q in t.keys <==> g.InBounds(q) && Get(g, q) == Covered && MinesAt(layouts, q) > 0)
            && forall q | q in t.keys :: t.count[q] == MinesAt(layouts, q)
  {
    forall q
      ensures var t := Locs(g, layouts);
              && (q in t.keys <==> g.InBounds(q) && Get(g, q) == Covered && MinesAt(layouts, q) > 0)
              && (q in t.keys ==> t.count[q] == MinesAt(layouts, q))
    {
      TallyFromCounts(Tally([], map[]), g, layouts, q);
    }
  }

  // ---------------------------------------------------------------------------
  // The uncovering step and the final loop (lines 94-121)

  /** `_squares.Where(b => !_locs.ContainsKey(b))`, in order. */
  function Unlisted(ps: seq<Point>, keys: seq<Point>): (r: seq<Point>)
    ensures forall q :: q in r <==> q in ps && q !in keys
  {
    if ps == [] then []
    else
      var rest := Unlisted(ps[1..], keys);
      assert forall q :: q in ps <==> q == ps[0] || q in ps[1..];
      if ps[0] !in keys then [ps[0]] + rest else rest
  }

  /** The keys whose count equals the number of layouts, in order. */
  function Full(keys: seq<Point>, counts: seq<nat>, total: nat): (r: seq<Point>)
    requires |counts| == |keys|
    ensures forall q :: q in r <==> exists k | 0 <= k < |keys| :: keys[k] == q && counts[k] == total
  {
    if keys == [] then []
    else
      var rest := Full(keys[1..], counts[1..], total);
      assert forall k | 1 <= k < |keys| :: keys[1..][k - 1] == keys[k] && counts[1..][k - 1] == counts[k];
      if counts[0] == total then [keys[0]] + rest else rest
  }

  /** `lowestCount = 1000000`: only a smaller count is ever chosen. */
  const Unlikely: real := 1000000.0

  /**
    The key the loop ends on: the first of least count among those below
    1000000, or -1 when there is none (`lowestPoint` stays `Point.Empty`).
   */
  function Lowest(counts: seq<nat>): (i: int)
    ensures -1 <= i < |counts|
    ensures i == -1 <==> forall k | 0 <= k < |counts| :: counts[k] as real >= Unlikely
    ensures i >= 0 ==> forall k | 0 <= k < |counts| :: counts[i] <= counts[k]
    ensures i >= 0 ==> forall k | 0 <= k < i :: counts[i] < counts[k]
  {
    var vals := seq(|counts|, k requires 0 <= k < |counts| => counts[k] as real);
    assert forall k | 0 <= k < |counts| :: vals[k] == counts[k] as real;
    FirstMin(vals, Unlikely)
  }

  /** The solver's move: a board, or a board on which `ClickRandom()` is then called, or an exception. */
  datatype SmartOutcome = Moved(board: Grid) | Random(board: Grid) | Crashes

  /**
    Lines 104-121, corrected: flag every key mined in all layouts, then click
    the chosen key, handing over to `ClickRandom()` only when no key was
    chosen.
   */
  function Finish(b: Grid, keys: seq<Point>, counts: seq<nat>, total: nat): (r: SmartOutcome)
    requires |counts| == |keys| && AllInBounds(b, keys)
    ensures !r.Crashes? && Monotone(b, r.board)
    ensures r.Random? <==> Lowest(counts) == -1
    ensures forall q | b.InBounds(q) ::
              Get(r.board, q) ==
                if Get(b, q) != Covered then Get(b, q)
                else if q in Full(keys, counts, total) then Flag
                else if r.Moved? && q == keys[Lowest(counts)] then Clicked
                else Covered
  {
    var flagged := ClickList(b, Full(keys, counts, total), true);
    ClickListMonotone(b, Full(keys, counts, total), true);
    var i := Lowest(counts);
    if i < 0 then Random(flagged)
    else
      assert keys[i] in keys;
      ClickMonotone(flagged, keys[i], false);
      MonotoneTrans(b, flagged, Click(flagged, keys[i], false));
      Moved(Click(flagged, keys[i], false))
  }

  /**
    Lines 104-121 as written: `lowestPoint == Point.Empty` also holds when
    the chosen key is the cell (0, 0), which is then never clicked.
   */
  function FinishAsWritten(b: Grid, keys: seq<Point>, counts: seq<nat>, total: nat): (r: SmartOutcome)
    requires |counts| == |keys| && AllInBounds(b, keys)
    ensures !r.Crashes? && Monotone(b, r.board)
    ensures r.Random? <==> Lowest(counts) == -1 || keys[Lowest(counts)] == Origin
    ensures forall q | b.InBounds(q) ::
              Get(r.board, q) ==
                if Get(b, q) != Covered then Get(b, q)
                else if q in Full(keys, counts, total) then Flag
                else if r.Moved? && q == keys[Lowest(counts)] then Clicked
                else Covered
  {
    var flagged := ClickList(b, Full(keys, counts, total), true);
    ClickListMonotone(b, Full(keys, counts, total), true);
    var i := Lowest(counts);
    var lowestPoint := if i < 0 then Origin else keys[i];
    if lowestPoint == Origin then Random(flagged)
    else
      assert keys[i] in keys;
      ClickMonotone(flagged, lowestPoint, false);
      MonotoneTrans(b, flagged, Click(flagged, lowestPoint, false));
      Moved(Click(flagged, lowestPoint, false))
  }

  /**
    The sentinel clash on the smallest case: one key, the covered cell
    (0, 0), mined in one of two layouts. As written the move hands over to
    `ClickRandom()` with (0, 0) still covered; corrected it clicks (0, 0).
   */
  lemma OriginNeverChosen(b: Grid)
    requires b.InBounds(Origin) && Get(b, Origin) == Covered
    ensures FinishAsWritten(b, [Origin], [1], 2).Random?
    ensures Get(FinishAsWritten(b, [Origin], [1], 2).board, Origin) == Covered
    ensures Finish(b, [Origin], [1], 2).Moved?
    ensures Get(Finish(b, [Origin], [1], 2).board, Origin) == Clicked
  {
    assert Lowest([1]) == 0;
    assert Full([Origin], [1], 2) == [];
  }

  // ---------------------------------------------------------------------------
  // The move (lines 18-122)

  /**
    Lines 94-101: click every searched square that is not a key; when one
    was clicked, run the base pass again. The flag says the move ends here.
   */
  function Reveal(g: Grid, squares: seq<Point>, keys: seq<Point>, lost2: nat -> bool): (r: (Grid, bool))
    requires AllInBounds(g, squares)
    ensures Monotone(g, r.0)
    ensures forall q | q in squares && q !in keys && Get(g, q) == Covered :: Get(r.0, q) == Clicked
    ensures r.1 ==> Unlisted(squares, keys) != []
    ensures !r.1 && (forall y :: 0 <= y < g.rows ==> !lost2(y)) ==>
              forall q | g.InBounds(q) && (q in keys || q !in squares) :: Get(r.0, q) == Get(g, q)
  {
    var safe := Unlisted(squares, keys);
    var g1 := ClickList(g, safe, false);
    ClickListMonotone(g, safe, false);
    if safe == [] then
      MonotoneRefl(g);
      (g1, false)
    else
      var second := DoMove(g1, lost2);
      MonotoneTrans(g, g1, second.0);
      second
  }

  /** The tally's counts, in key order. */
  function Counts(t: Tally): (counts: seq<nat>)
    requires TallyInv(t)
    ensures |counts| == |t.keys|
    ensures forall k | 0 <= k < |t.keys| :: counts[k] == t.count[t.keys[k]]
  {
    seq(|t.keys|, k requires 0 <= k < |t.keys| => assert t.keys[k] in t.keys; t.count[t.keys[k]])
  }

  /**
    Lines 77-121: count the layouts, uncover the searched squares no layout
    mines, and unless the base pass then fires, finish.
   */
  function Resolve(g: Grid, squares: seq<Point>, layouts: seq<Grid>, lost2: nat -> bool): (r: SmartOutcome)
    requires AllInBounds(g, squares) && forall l | l in layouts :: l.cols == g.cols && l.rows == g.rows
    ensures !r.Crashes? && Monotone(g, r.board)
  {
    var t := Locs(g, layouts);
    LocsSpec(g, layouts);
    var second := Reveal(g, squares, t.keys, lost2);
    if second.1 then Moved(second.0)
    else
      var r := FinishAsWritten(second.0, t.keys, Counts(t), |layouts|);
      MonotoneTrans(g, second.0, r.board);
      r
  }

  /**
    Lines 52-121 on the searched set: the lower bound, the layouts, and the
    rest of the move; the two exceptions are `Crashes`.
   */
  function FromBound(o: Oracle, g: Grid, squares: seq<Point>, lost2: nat -> bool): (r: SmartOutcome)
    requires AllInBounds(g, squares)
    ensures r.Crashes? <==> MinMines(g, squares).None? || squares == []
    ensures !r.Crashes? ==> Monotone(g, r.board)
  {
    match MinMines(g, squares)
    case None => Crashes
    case Some(mm) =>
      match Placements(o, g, squares, mm)
      case None => Crashes
      case Some(layouts) => Resolve(g, squares, layouts, lost2)
  }

  /**
    `SmartSolver.DoMove()`. `lost` and `lost2` say which rows read as lost
    in the first base pass and in the one after (the second base pass, or
    the fallback solver's). The method returns true whenever it returns.
   */
  function SmartMove(o: Oracle, b: Grid, lost: nat -> bool, lost2: nat -> bool): (r: SmartOutcome)
    requires o.Sound()
    ensures !r.Crashes? ==> Monotone(b, r.board)
    ensures var base := DoMove(b, lost);
            base.1 ==> r == Moved(base.0)
    ensures var base := DoMove(b, lost);
            !base.1 && o.border(base.0) == [] ==> r == Random(base.0)
    ensures var base := DoMove(b, lost);
            var bd := o.border(base.0);
            r.Crashes? <==>
              && !base.1 && bd != []
              && var s := SmallestSet(o, base.0, bd);
                 |s| < 27 && (s == [] || MinMines(base.0, s).None?)
  {
    var base := DoMove(b, lost);
    if base.1 then Moved(base.0)
    else
      var g := base.0;
      var bd := o.border(g);
      if bd == [] then
        MonotoneRefl(g);
        Random(g)
      else
        var squares := SmallestSet(o, g, bd);
        if |squares| >= 27 then
          assert bd[0] in bd && g.InBounds(Origin);
          var m := ProbMove(o, g, lost2);
          MonotoneTrans(b, g, m.board);
          Moved(m.board)
        else
          assert forall q | q in squares :: g.InBounds(q);
          var r := FromBound(o, g, squares, lost2);
          if r.Crashes? then r
          else
            MonotoneTrans(b, g, r.board);
            r
  }

  // ---------------------------------------------------------------------------
  // What the move decides

  /** A searched square that no layout mines ends up clicked. */
  lemma ResolveSafe(g: Grid, squares: seq<Point>, layouts: seq<Grid>, lost2: nat -> bool, q: Point)
    requires AllInBounds(g, squares) && forall l | l in layouts :: l.cols == g.cols && l.rows == g.rows
    requires q in squares && Get(g, q) == Covered && MinesAt(layouts, q) == 0
    ensures Get(Resolve(g, squares, layouts, lost2).board, q) == Clicked
  {
    var t := Locs(g, layouts);
    LocsSpec(g, layouts);
    assert q !in t.keys;
    var second := Reveal(g, squares, t.keys, lost2);
    assert Get(second.0, q) == Clicked;
  }

  /**
    A covered cell that every layout mines ends up flagged, unless the base
    pass after the uncovering step fired and ended the move (no rows lost).
   */
  lemma ResolveCertain(g: Grid, squares: seq<Point>, layouts: seq<Grid>, lost2: nat -> bool, q: Point)
    requires AllInBounds(g, squares) && forall l | l in layouts :: l.cols == g.cols && l.rows == g.rows
    requires layouts != [] && g.InBounds(q) && Get(g, q) == Covered && MinesAt(layouts, q) == |layouts|
    requires forall y :: 0 <= y < g.rows ==> !lost2(y)
    ensures var ended := Reveal(g, squares, Locs(g, layouts).keys, lost2).1;
            ended || Get(Resolve(g, squares, layouts, lost2).board, q) == Flag
  {
    var t := Locs(g, layouts);
    LocsSpec(g, layouts);
    assert q in t.keys;
    var second := Reveal(g, squares, t.keys, lost2);
    if !second.1 {
      assert Get(second.0, q) == Covered;
      CertainIsFull(g, layouts, q);
      ResolveIsFinish(g, squares, layouts, lost2);
    }
  }

  /** A square every layout mines is among those the tally counts in full. */
  lemma CertainIsFull(g: Grid, layouts: seq<Grid>, q: Point)
    requires forall l | l in layouts :: l.cols == g.cols && l.rows == g.rows
    requires layouts != [] && g.InBounds(q) && Get(g, q) == Covered && MinesAt(layouts, q) == |layouts|
    ensures var t := Locs(g, layouts);
            q in Full(t.keys, Counts(t), |layouts|)
  {
    var t := Locs(g, layouts);
    var counts := Counts(t);
    LocsSpec(g, layouts);
    assert q in t.keys && t.count[q] == |layouts|;
    var k :| 0 <= k < |t.keys| && t.keys[k] == q;
    assert counts[k] == |layouts|;
  }

  /** When the uncovering step does not end the game, the rest is `FinishAsWritten` on its board. */
  lemma ResolveIsFinish(g: Grid, squares: seq<Point>, layouts: seq<Grid>, lost2: nat -> bool)
    requires AllInBounds(g, squares) && forall l | l in layouts :: l.cols == g.cols && l.rows == g.rows
    requires !Reveal(g, squares, Locs(g, layouts).keys, lost2).1
    ensures AllInBounds(Reveal(g, squares, Locs(g, layouts).keys, lost2).0, Locs(g, layouts).keys)
    ensures var t := Locs(g, layouts);
            Resolve(g, squares, layouts, lost2) ==
            FinishAsWritten(Reveal(g, squares, t.keys, lost2).0, t.keys, Counts(t), |layouts|)
  {
    LocsSpec(g, layouts);
  }

  /** On the searched set, a covered square no collected flag vector flags ends up clicked. */
  lemma FromBoundSafe(o: Oracle, g: Grid, s: seq<Point>, lost2: nat -> bool, q: Point)
    requires AllInBounds(g, s) && s != [] && MinMines(g, s).Some?
    requires q in s && Get(g, q) == Covered
    requires forall v | |v| == |s| && Collected(o, g, s, MinMines(g, s).value, v) :: !Flagged(s, v, q)
    ensures var r := FromBound(o, g, s, lost2);
            !r.Crashes? && Get(r.board, q) == Clicked
  {
    var mm := MinMines(g, s).value;
    MinedExactly(o, g, s, mm, q);
    var layouts := Placements(o, g, s, mm).value;
    ResolveSafe(g, s, layouts, lost2, q);
  }

  /**
    The end to end promise: past the base pass, on a searched set small
    enough to enumerate, a covered square that no collected flag vector
    flags ends up clicked.
   */
  lemma SmartMoveSafe(o: Oracle, b: Grid, lost: nat -> bool, lost2: nat -> bool, q: Point)
    requires o.Sound()
    requires !DoMove(b, lost).1 && o.border(DoMove(b, lost).0) != []
    requires var g := DoMove(b, lost).0;
             var s := SmallestSet(o, g, o.border(g));
             && |s| < 27 && s != [] && MinMines(g, s).Some?
             && q in s && g.InBounds(q) && Get(g, q) == Covered
             && forall v | |v| == |s| && Collected(o, g, s, MinMines(g, s).value, v) :: !Flagged(s, v, q)
    ensures var r := SmartMove(o, b, lost, lost2);
            !r.Crashes? && Get(r.board, q) == Clicked
  {
    var g := DoMove(b, lost).0;
    var s := SmallestSet(o, g, o.border(g));
    SmartMoveBound(o, b, lost, lost2);
    FromBoundSafe(o, g, s, lost2, q);
  }

  /** On a board without cells nothing fires, there is no border, and the move is `ClickRandom()`. */
  lemma SmartMoveNoCells(o: Oracle, b: Grid, lost: nat -> bool, lost2: nat -> bool)
    requires o.Sound() && !b.InBounds(Origin)
    ensures SmartMove(o, b, lost, lost2) == Random(b)
  {
    NoCellsNoMove(b, lost);
    var bd := o.border(b);
    assert forall i | 0 <= i < |bd| :: !b.InBounds(bd[i]);
  }

  /** With a border found and the smallest set under 27 squares, the move is the bounded search on that set. */
  lemma SmartMoveBound(o: Oracle, b: Grid, lost: nat -> bool, lost2: nat -> bool)
    requires o.Sound()
    requires !DoMove(b, lost).1 && o.border(DoMove(b, lost).0) != []
    requires var g := DoMove(b, lost).0;
             |SmallestSet(o, g, o.border(g))| < 27
    ensures var g := DoMove(b, lost).0;
            var s := SmallestSet(o, g, o.border(g));
            && AllInBounds(g, s)
            && SmartMove(o, b, lost, lost2) == FromBound(o, g, s, lost2)
  {
    var g := DoMove(b, lost).0;
    var s := SmallestSet(o, g, o.border(g));
    assert AllInBounds(g, s);
  }
}
