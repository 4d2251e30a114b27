/**
  `NewSolver.DoMove`: after the base pass, split the border into connected
  groups, search the smallest one exhaustively for consistent mine layouts,
  count how often each square is a mine across them, click every square that
  is never a mine, flag every square that always is, and when there is no such
  certainty click the single most certain square. When no layout is found the
  move falls back to the probability solver.
 */
module NewSolver {
  import opened Boards
  import opened Deduction
  import opened Selection
  import opened Oracles
  import opened BorderGroups
  import opened Enumeration
  import opened ProbabilitySolver

  /**
    The group loop `if (group.Count < border.Count) border = group`: the first
    group of least size among those strictly smaller than the border, or the
    border itself when no group is smaller.
   */
  function PickBorder(groups: seq<seq<Point>>, border: seq<Point>): (r: seq<Point>)
    ensures r == border || r in groups
    ensures r == border <==> forall k | 0 <= k < |groups| :: |groups[k]| >= |border|
    ensures r != border ==> |r| < |border|
    ensures forall k | 0 <= k < |groups| :: |groups[k]| >= |r| || |groups[k]| >= |border|
    ensures r != border ==> exists i | 0 <= i < |groups| ::
              r == groups[i] && forall k | 0 <= k < i :: |groups[k]| > |r|
  {
    var sizes := seq(|groups|, k requires 0 <= k < |groups| => |groups[k]| as real);
    assert forall k | 0 <= k < |groups| :: sizes[k] == |groups[k]| as real;
    var i := FirstMin(sizes, |border| as real);
    if i < 0 then border
    else
      assert sizes[i] == |groups[i]| as real;
      groups[i]
  }

  // ---------------------------------------------------------------------------
  // Counting mines across the layouts

  /** The inner `for` over the border for one layout: hits on square p. */
  function Hits(layout: Grid, border: seq<Point>, p: Point): (n: nat)
    requires forall q | q in border :: layout.InBounds(q)
    ensures n <= |border|
  {
    if border == [] then 0
    else
      assert border[0] in border;
      assert forall q | q in border[1..] :: q in border;
      (if border[0] == p && Get(layout, p) == Flag then 1 else 0) + Hits(layout, border[1..], p)
  }

  /**
    `bombPoints[p]` after the outer `foreach` over the layouts: 0 off the
    border, and on a border without repeats at most one per layout.
   */
  function Count(layouts: seq<Grid>, border: seq<Point>, p: Point): (n: nat)
    requires forall g, q | g in layouts && q in border :: g.InBounds(q)
    ensures p !in border ==> n == 0
    ensures Distinct(border) ==> n <= |layouts|
  {
    if layouts == [] then 0
    else
      assert layouts[0] in layouts;
      assert forall g | g in layouts[1..] :: g in layouts;
      HitsAtMost(layouts[0], border, p);
      Hits(layouts[0], border, p) + Count(layouts[1..], border, p)
  }

  /** One layout adds nothing off the border, and at most 1 on a border without repeats. */
  lemma HitsAtMost(layout: Grid, border: seq<Point>, p: Point)
    requires forall q | q in border :: layout.InBounds(q)
    ensures p !in border ==> Hits(layout, border, p) == 0
    ensures Distinct(border) ==> Hits(layout, border, p) <= 1
  {
    if p !in border {
      HitsAbsent(layout, border, p);
    } else if Distinct(border) {
      HitsDistinct(layout, border, p);
    }
  }

  /** On a border without repeats, one layout hits one of its squares at most once. */
  lemma {:induction false} HitsDistinct(layout: Grid, border: seq<Point>, p: Point)
    requires forall q | q in border :: layout.InBounds(q)
    requires Distinct(border) && p in border
    ensures Hits(layout, border, p) == if Get(layout, p) == Flag then 1 else 0
  {
    assert forall q | q in border[1..] :: q in border;
    if border[0] != p {
      HitsDistinct(layout, border[1..], p);
    } else {
      HitsAbsent(layout, border[1..], p);
    }
  }

  lemma {:induction false} HitsAbsent(layout: Grid, border: seq<Point>, p: Point)
    requires forall q | q in border :: layout.InBounds(q)
    requires p !in border
    ensures Hits(layout, border, p) == 0
  {
    if border != [] {
      assert forall q | q in border[1..] :: q in border;
      HitsAbsent(layout, border[1..], p);
    }
  }

  /**
    On a border without repeats the tally of a border square is the number
    of layouts with a mine there: 0 exactly when no layout has one, and the
    number of layouts exactly when all of them do.
   */
  lemma {:induction false} CountIsMines(layouts: seq<Grid>, border: seq<Point>, p: Point)
    requires forall g, q | g in layouts && q in border :: g.InBounds(q)
    requires Distinct(border) && p in border
    ensures forall g | g in layouts :: g.InBounds(p)
    ensures Count(layouts, border, p) == MinesAt(layouts, p)
  {
    if layouts != [] {
      assert layouts[0] in layouts;
      assert forall g | g in layouts[1..] :: g in layouts;
      HitsDistinct(layouts[0], border, p);
      CountIsMines(layouts[1..], border, p);
    }
  }

  // ---------------------------------------------------------------------------
  // The decision loop

  /**
    The state of the `foreach (Point k in bombPoints.Keys)` loop: the live
    board, `foundGuarantee`, `highestProb`, `highestProbPoint`, `flagHighest`.
   */
  datatype Decision = Decision(board: Grid, found: bool, highest: real, point: Point, flagHighest: bool)

  /**
    The loop body for key k with mine probability `prob(k)`: click it when it
    is never a mine, flag it when it always is (neither while `wasStopped`),
    and keep the running most-certain square, where the "mine" side is only
    considered while not stopped but the "safe" side always is.
   */
  function DecideStep(st: Decision, k: Point, p: real, stopped: bool): (r: Decision)
    requires st.board.InBounds(k)
    ensures r.board.cols == st.board.cols && r.board.rows == st.board.rows
    ensures forall q | st.board.InBounds(q) && q != k :: Get(r.board, q) == Get(st.board, q)
    ensures Get(r.board, k) == if Get(st.board, k) == Covered && !stopped && p == 0.0 then Clicked
                               else if Get(st.board, k) == Covered && !stopped && p >= 1.0 then Flag
                               else Get(st.board, k)
    ensures r.highest >= st.highest && r.highest >= 1.0 - p && (!stopped ==> r.highest >= p)
  {
    var b1 := if p == 0.0 && !stopped then Click(st.board, k, false) else st.board;
    var b2 := if p >= 1.0 && !stopped then Click(b1, k, true) else b1;
    var found := st.found || (!stopped && (p == 0.0 || p >= 1.0));
    var st1 := if p > st.highest && !stopped then Decision(b2, found, p, k, true)
               else Decision(b2, found, st.highest, st.point, st.flagHighest);
    if 1.0 - p > st1.highest then Decision(b2, found, 1.0 - p, k, false) else st1
  }

  function Decide(st: Decision, keys: seq<Point>, prob: Point -> real, stopped: bool): (r: Decision)
    requires forall k | k in keys :: st.board.InBounds(k)
    ensures r.board.cols == st.board.cols && r.board.rows == st.board.rows
    decreases keys
  {
    if keys == [] then st
    else
      assert keys[0] in keys;
      var st1 := DecideStep(st, keys[0], prob(keys[0]), stopped);
      assert forall k | k in keys[1..] :: k in keys;
      Decide(st1, keys[1..], prob, stopped)
  }

  /** The certainty the loop records for key k on the side it chose. */
  function Certainty(p: real, flag: bool): real {
    if flag then p else 1.0 - p
  }

  /**
    What the loop does to the board: with distinct keys, a covered key becomes
    -3 when its probability is 0 and 9 when it is at least 1, unless the
    search was stopped; every other square keeps its value.
   */
  lemma {:induction false} DecideBoard(st: Decision, keys: seq<Point>, prob: Point -> real, stopped: bool)
    requires forall k | k in keys :: st.board.InBounds(k)
    requires Distinct(keys)
    ensures var r := Decide(st, keys, prob, stopped).board;
            && (forall q | st.board.InBounds(q) && q !in keys :: Get(r, q) == Get(st.board, q))
            && (forall q | q in keys ::
                  Get(r, q) == if Get(st.board, q) == Covered && !stopped && prob(q) == 0.0 then Clicked
                               else if Get(st.board, q) == Covered && !stopped && prob(q) >= 1.0 then Flag
                               else Get(st.board, q))
    decreases keys
  {
    if keys != [] {
      var k := keys[0];
      assert k in keys;
      var st1 := DecideStep(st, k, prob(k), stopped);
      assert forall q | q in keys[1..] :: q in keys;
      assert k !in keys[1..];
      assert Distinct(keys[1..]);
      DecideBoard(st1, keys[1..], prob, stopped);
    }
  }

  /** A guarantee is found exactly when some key is certain and the search was not stopped. */
  lemma {:induction false} DecideFound(st: Decision, keys: seq<Point>, prob: Point -> real, stopped: bool)
    requires forall k | k in keys :: st.board.InBounds(k)
    ensures Decide(st, keys, prob, stopped).found <==>
            st.found || (!stopped && exists k | k in keys :: prob(k) == 0.0 || prob(k) >= 1.0)
    decreases keys
  {
    if keys != [] {
      var k := keys[0];
      assert k in keys;
      var st1 := DecideStep(st, k, prob(k), stopped);
      assert forall q | q in keys[1..] :: q in keys;
      DecideFound(st1, keys[1..], prob, stopped);
      assert forall q | q in keys :: q == k || q in keys[1..];
    }
  }

  /**
    The most certain square: the recorded value bounds the safe side of every
    key, and the mine side too unless stopped; it never drops; and unless it
    is still the initial one, it is the certainty of the recorded key on the
    recorded side.
   */
  lemma {:induction false} DecideHighest(st: Decision, keys: seq<Point>, prob: Point -> real, stopped: bool)
    requires forall k | k in keys :: st.board.InBounds(k)
    ensures var r := Decide(st, keys, prob, stopped);
            && r.highest >= st.highest
            && (forall k | k in keys :: r.highest >= 1.0 - prob(k))
            && (!stopped ==> forall k | k in keys :: r.highest >= prob(k))
            && ((r.highest == st.highest && r.point == st.point && r.flagHighest == st.flagHighest) ||
                (r.point in keys && r.highest == Certainty(prob(r.point), r.flagHighest)))
            && (stopped && r.flagHighest ==>
                  r.highest == st.highest && r.point == st.point && r.flagHighest == st.flagHighest)
    decreases keys
  {
    if keys != [] {
      var k := keys[0];
      assert k in keys;
      var st1 := DecideStep(st, k, prob(k), stopped);
      assert forall q | q in keys[1..] :: q in keys;
      DecideHighest(st1, keys[1..], prob, stopped);
      assert forall q | q in keys :: q == k || q in keys[1..];
    }
  }

  // ---------------------------------------------------------------------------
  // From the layouts to the move

  /**
    `bombPoints[k] / validBoards.Count`, computed exactly: 0 off the border,
    and a probability in [0, 1] on a border without repeats.
   */
  function Prob(layouts: seq<Grid>, border: seq<Point>): (prob: Point -> real)
    requires |layouts| > 0
    requires forall g, q | g in layouts && q in border :: g.InBounds(q)
    ensures forall k | k !in border :: prob(k) == 0.0
    ensures Distinct(border) ==> forall k :: 0.0 <= prob(k) <= 1.0
  {
    ProbRange(layouts, border);
    k => Count(layouts, border, k) as real / |layouts| as real
  }

  lemma ProbRange(layouts: seq<Grid>, border: seq<Point>)
    requires |layouts| > 0
    requires forall g, q | g in layouts && q in border :: g.InBounds(q)
    ensures forall k | k !in border :: Count(layouts, border, k) as real / |layouts| as real == 0.0
    ensures Distinct(border) ==> forall k :: 0.0 <= Count(layouts, border, k) as real / |layouts| as real <= 1.0
  {
    forall k | k !in border || Distinct(border)
      ensures 0.0 <= Count(layouts, border, k) as real / |layouts| as real <= 1.0
      ensures k !in border ==> Count(layouts, border, k) as real / |layouts| as real == 0.0
    {
      RatioFacts(Count(layouts, border, k), |layouts|);
    }
  }

  /** Layouts that all fit the board the border lies on. */
  predicate Fits(g: Grid, layouts: seq<Grid>, border: seq<Point>) {
    && (forall q | q in border :: g.InBounds(q))
    && (forall v | v in layouts :: v.cols == g.cols && v.rows == g.rows)
  }

  /** The loop's state after every key: it starts on `border[0]`, as a flag, at 0. */
  function Decided(g: Grid, layouts: seq<Grid>, border: seq<Point>, stopped: bool): (st: Decision)
    requires |layouts| > 0 && border != [] && Fits(g, layouts, border)
    ensures st.board.cols == g.cols && st.board.rows == g.rows
    ensures st.point in border
  {
    var keys := Dedup(border, []);
    var st0 := Decision(g, false, 0.0, border[0], true);
    DecideHighest(st0, keys, Prob(layouts, border), stopped);
    Decide(st0, keys, Prob(layouts, border), stopped)
  }

  /**
    Lines 58-116 of `DoMove` once `GetValidBoards` found layouts: the decision
    loop, then the click on the most certain square when nothing was certain.
   */
  function Conclude(g: Grid, layouts: seq<Grid>, border: seq<Point>, stopped: bool): (r: Grid)
    requires |layouts| > 0 && border != [] && Fits(g, layouts, border)
    ensures r.cols == g.cols && r.rows == g.rows
  {
    var st := Decided(g, layouts, border, stopped);
    if st.found then st.board else Click(st.board, st.point, st.flagHighest)
  }

  /** The outcome of `NewSolver.DoMove`. */
  datatype MoveOutcome =
    | Moved(board: Grid, result: bool)
    /** `GetBorderGroups` never returns: a border square does not qualify. */
    | Hangs
    /**
      An exception: `GetValidBoards` dereferences its missing board on an
      empty border, or the fallback guess reads (0, 0) on a board without
      cells.
     */
    | Crashes

  /**
    Lines 24-32: the border, its groups, and the smallest group when one is
    smaller than the whole border. Defined when every border square
    qualifies, the condition under which `GetBorderGroups` returns.
   */
  function Target(o: Oracle, g: Grid): (pick: seq<Point>)
    requires o.Sound() && BorderGroups.BorderGroups(g, o.border(g)).Some?
    ensures forall q | q in pick :: g.InBounds(q)
    ensures pick == [] <==> o.border(g) == []
    ensures Distinct(o.border(g)) ==> Distinct(pick)
  {
    var border := o.border(g);
    var groups := BorderGroups.BorderGroups(g, border).value;
    GroupsClosed(g, border);
    var pick := PickBorder(groups, border);
    if pick == border then pick
    else
      var i :| 0 <= i < |groups| && pick == groups[i];
      pick
  }

  /** The searched set is the whole border or one closed group of it. */
  lemma TargetGroup(o: Oracle, g: Grid)
    requires o.Sound() && BorderGroups.BorderGroups(g, o.border(g)).Some?
    ensures var pick := Target(o, g);
            pick == o.border(g) || (GroupInv(g, pick) && Closed(g, Members(pick)))
  {
    var border := o.border(g);
    var groups := BorderGroups.BorderGroups(g, border).value;
    GroupsClosed(g, border);
    var pick := PickBorder(groups, border);
    if pick != border {
      var i :| 0 <= i < |groups| && pick == groups[i];
    }
  }

  /**
    `NewSolver.DoMove` on board b. `o` stands for the board helpers not
    modelled here, `lost` for the rows the window vanished on during the
    base pass, `ab` for `MineSolver.Running` and the 10-second timer during
    the search, `runningAfter` for `MineSolver.Running` after it, and
    `lost2` for the rows the fall-back `ProbabilitySolver`'s own pass loses:
    that solver is new, with its own stopwatch, so its window checks do not
    repeat the base pass's.
   */
  function NewMove(o: Oracle, b: Grid, lost: nat -> bool, ab: Aborts, runningAfter: bool,
                   lost2: nat -> bool): (r: MoveOutcome)
    requires o.Sound()
    ensures r.Moved? ==> Monotone(b, r.board)
    ensures var base := DoMove(b, lost);
            r.Hangs? <==> !base.1 && exists q | q in o.border(base.0) :: !Qualifies(base.0, q)
    ensures var base := DoMove(b, lost);
            r.Crashes? <==>
              && !base.1 && o.border(base.0) == []
              && (ab.running([]) || (runningAfter && !b.InBounds(Origin)))
    ensures var base := DoMove(b, lost);
            r.Moved? && !r.result <==>
              && !base.1 && !runningAfter
              && (forall q | q in o.border(base.0) :: Qualifies(base.0, q))
              && !(o.border(base.0) == [] && ab.running([]))
  {
    var base := DoMove(b, lost);
    if base.1 then Moved(base.0, true)
    else
      var r := AfterPass(o, base.0, lost2, ab, runningAfter);
      if r.Moved? then
        MonotoneTrans(b, base.0, r.board);
        r
      else r
  }

  /** The rest of the move, on the board g the deduction pass left unchanged; `lost2` drives the fall-back's pass. */
  function AfterPass(o: Oracle, g: Grid, lost2: nat -> bool, ab: Aborts, runningAfter: bool): (r: MoveOutcome)
    requires o.Sound()
    ensures r.Moved? ==> Monotone(g, r.board)
    ensures r.Hangs? <==> exists q | q in o.border(g) :: !Qualifies(g, q)
    ensures r.Crashes? <==> o.border(g) == [] && (ab.running([]) || (runningAfter && !g.InBounds(Origin)))
    ensures r.Moved? && !r.result <==>
              && !runningAfter
              && (forall q | q in o.border(g) :: Qualifies(g, q))
              && !(o.border(g) == [] && ab.running([]))
  {
    if BorderGroups.BorderGroups(g, o.border(g)).None? then Hangs
    else
      var pick := Target(o, g);
      match ValidBoards(o, g, pick, ab)
      case Crashed => Crashes
      case Found(layouts, stopped) =>
        assert pick != [] ==> pick[0] in pick && g.InBounds(Origin);
        Settle(o, g, lost2, pick, layouts, stopped, runningAfter)
  }

  /**
    The search found `layouts` on the searched set `pick`: stop when
    `running` has been cleared, guess when nothing fits, otherwise run the
    decision loop; the result reports whether the solver keeps running. The
    guess throws on a board without cells.
   */
  function Settle(o: Oracle, g: Grid, lost2: nat -> bool, pick: seq<Point>, layouts: seq<Grid>, stopped: bool,
                  runningAfter: bool): (r: MoveOutcome)
    requires o.Sound()
    requires Fits(g, layouts, pick) && (layouts != [] ==> pick != [])
    ensures r.Crashes? <==> runningAfter && layouts == [] && !g.InBounds(Origin)
    ensures !r.Crashes? ==> r.Moved? && Monotone(g, r.board) && r.result == runningAfter
  {
    if !runningAfter then
      MonotoneRefl(g);
      Moved(g, false)
    else if layouts == [] then
      NoCellsNoMove(g, lost2);
      match ProbMove(o, g, lost2)
      case Played(board, result) => Moved(board, result)
      case Throws => Crashes
    else
      var r := Conclude(g, layouts, pick, stopped);
      ConcludeMonotone(g, layouts, pick, stopped);
      Moved(r, true)
  }

  lemma {:induction false} DecideMonotone(st: Decision, keys: seq<Point>, prob: Point -> real, stopped: bool)
    requires forall k | k in keys :: st.board.InBounds(k)
    decreases keys
    ensures Monotone(st.board, Decide(st, keys, prob, stopped).board)
  {
    if keys != [] {
      var k := keys[0];
      assert k in keys;
      var p := prob(k);
      var b1 := if p == 0.0 && !stopped then Click(st.board, k, false) else st.board;
      var b2 := if p >= 1.0 && !stopped then Click(b1, k, true) else b1;
      ClickMonotone(st.board, k, false);
      ClickMonotone(b1, k, true);
      MonotoneRefl(st.board);
      MonotoneRefl(b1);
      MonotoneTrans(st.board, b1, b2);
      var st1 := DecideStep(st, k, p, stopped);
      assert st1.board == b2;
      assert forall q | q in keys[1..] :: q in keys;
      DecideMonotone(st1, keys[1..], prob, stopped);
      MonotoneTrans(st.board, b2, Decide(st1, keys[1..], prob, stopped).board);
    }
  }

  lemma ConcludeMonotone(g: Grid, layouts: seq<Grid>, border: seq<Point>, stopped: bool)
    requires |layouts| > 0 && border != [] && Fits(g, layouts, border)
    ensures Monotone(g, Conclude(g, layouts, border, stopped))
  {
    var keys := Dedup(border, []);
    var st0 := Decision(g, false, 0.0, border[0], true);
    DecideMonotone(st0, keys, Prob(layouts, border), stopped);
    var st := Decided(g, layouts, border, stopped);
    ClickMonotone(st.board, st.point, st.flagHighest);
    MonotoneTrans(g, st.board, Conclude(g, layouts, border, stopped));
  }

  // ---------------------------------------------------------------------------
  // What the move does

  /** The share of the layouts with a mine on p. */
  function Share(layouts: seq<Grid>, p: Point): (r: real)
    requires |layouts| > 0 && forall v | v in layouts :: v.InBounds(p)
    ensures 0.0 <= r <= 1.0
    ensures r == 0.0 <==> forall v | v in layouts :: Get(v, p) != Flag
    ensures r == 1.0 <==> forall v | v in layouts :: Get(v, p) == Flag
  {
    var n := MinesAt(layouts, p);
    RatioFacts(n, |layouts|);
    n as real / |layouts| as real
  }

  /** n out of d, for 0 < d and n <= d: a fraction in [0, 1], 0 only for n = 0 and 1 only for n = d. */
  lemma RatioFacts(n: nat, d: nat)
    requires 0 < d && n <= d
    ensures 0.0 <= n as real / d as real <= 1.0
    ensures n as real / d as real == 0.0 <==> n == 0
    ensures n as real / d as real == 1.0 <==> n == d
  {
    var r := n as real / d as real;
    assert r * d as real == n as real;
  }

  /** On a border without repeats, the loop's probability of a key is its share. */
  lemma ProbIsShare(g: Grid, layouts: seq<Grid>, border: seq<Point>, k: Point)
    requires |layouts| > 0 && Fits(g, layouts, border)
    requires Distinct(border) && k in border
    ensures forall v | v in layouts :: v.InBounds(k)
    ensures Prob(layouts, border)(k) == Share(layouts, k)
  {
    CountIsMines(layouts, border, k);
  }

  /**
    The guarantees: unless the search was stopped, a covered border square
    that is a mine in no layout is clicked, and one that is a mine in every
    layout is flagged.
   */
  lemma ConcludeCertain(g: Grid, layouts: seq<Grid>, border: seq<Point>, stopped: bool, q: Point)
    requires |layouts| > 0 && border != [] && Fits(g, layouts, border)
    requires Distinct(border) && !stopped
    requires q in border && Get(g, q) == Covered
    ensures forall v | v in layouts :: v.InBounds(q)
    ensures Share(layouts, q) == 0.0 ==> Get(Conclude(g, layouts, border, stopped), q) == Clicked
    ensures Share(layouts, q) == 1.0 ==> Get(Conclude(g, layouts, border, stopped), q) == Flag
  {
    var keys := Dedup(border, []);
    var prob := Prob(layouts, border);
    var st0 := Decision(g, false, 0.0, border[0], true);
    ProbIsShare(g, layouts, border, q);
    DecideBoard(st0, keys, prob, stopped);
    DecideFound(st0, keys, prob, stopped);
    assert q in keys;
  }

  /**
    Nothing else is touched when a guarantee exists: a square changes only if
    it is a covered border square that is a mine in no layout (and is
    clicked) or in every layout (and is flagged).
   */
  lemma ConcludeOnlyCertain(g: Grid, layouts: seq<Grid>, border: seq<Point>, stopped: bool, q: Point)
    requires |layouts| > 0 && border != [] && Fits(g, layouts, border)
    requires Distinct(border) && !stopped
    requires exists k | k in border :: Share(layouts, k) == 0.0 || Share(layouts, k) == 1.0
    requires g.InBounds(q)
    ensures var r := Conclude(g, layouts, border, stopped);
            Get(r, q) != Get(g, q) ==>
              && q in border && Get(g, q) == Covered
              && ((Share(layouts, q) == 0.0 && Get(r, q) == Clicked) ||
                  (Share(layouts, q) == 1.0 && Get(r, q) == Flag))
  {
    var keys := Dedup(border, []);
    var prob := Prob(layouts, border);
    var st0 := Decision(g, false, 0.0, border[0], true);
    var k :| k in border && (Share(layouts, k) == 0.0 || Share(layouts, k) == 1.0);
    ProbIsShare(g, layouts, border, k);
    assert k in keys;
    DecideFound(st0, keys, prob, stopped);
    DecideBoard(st0, keys, prob, stopped);
    if q in border {
      ProbIsShare(g, layouts, border, q);
    }
  }

  /** With nothing certain, or the search stopped, the loop leaves the board alone. */
  lemma {:induction false} DecideUntouched(st: Decision, keys: seq<Point>, prob: Point -> real, stopped: bool)
    requires forall k | k in keys :: st.board.InBounds(k)
    requires stopped || forall k | k in keys :: 0.0 < prob(k) < 1.0
    decreases keys
    ensures Decide(st, keys, prob, stopped).board == st.board
    ensures Decide(st, keys, prob, stopped).found == st.found
  {
    if keys != [] {
      var k := keys[0];
      assert k in keys;
      var st1 := DecideStep(st, k, prob(k), stopped);
      assert st1.board == st.board;
      assert forall q | q in keys[1..] :: q in keys;
      DecideUntouched(st1, keys[1..], prob, stopped);
    }
  }

  /**
    The loop's pick when nothing is certain: a key whose certainty on the
    chosen side is at least that of every key on the safe side, and on the
    mine side too when not stopped; while stopped the flag side survives only
    from the start, when every key is certainly a mine.
   */
  lemma DecideGuess(g: Grid, keys: seq<Point>, prob: Point -> real, stopped: bool, p0: Point)
    requires forall k | k in keys :: g.InBounds(k) && 0.0 <= prob(k) <= 1.0
    requires p0 in keys
    requires stopped || forall k | k in keys :: 0.0 < prob(k) < 1.0
    ensures var st := Decide(Decision(g, false, 0.0, p0, true), keys, prob, stopped);
            && st.board == g && !st.found && st.point in keys
            && (forall k | k in keys :: Certainty(prob(st.point), st.flagHighest) >= 1.0 - prob(k))
            && (!stopped ==> forall k | k in keys :: Certainty(prob(st.point), st.flagHighest) >= prob(k))
            && (stopped && st.flagHighest ==> forall k | k in keys :: prob(k) >= 1.0)
  {
    var st0 := Decision(g, false, 0.0, p0, true);
    DecideUntouched(st0, keys, prob, stopped);
    DecideHighest(st0, keys, prob, stopped);
  }

  /**
    The guess: when the search was stopped or no border square is certain,
    exactly one border square is clicked, on the side of greatest certainty
    among all keys, the mine side being considered only when the search
    ran to completion; while stopped, the flag side is taken only when
    every border square is a mine in every layout.
   */
  lemma ConcludeGuess(g: Grid, layouts: seq<Grid>, border: seq<Point>, stopped: bool)
    requires |layouts| > 0 && border != [] && Fits(g, layouts, border)
    requires Distinct(border)
    requires stopped || forall k | k in border :: 0.0 < Share(layouts, k) < 1.0
    ensures var st := Decided(g, layouts, border, stopped);
            var pt, fl := st.point, st.flagHighest;
            && (forall k | k in border :: forall v | v in layouts :: v.InBounds(k))
            && Conclude(g, layouts, border, stopped) == Click(g, pt, fl)
            && (forall v | v in layouts :: v.InBounds(pt))
            && (forall k | k in border :: Certainty(Share(layouts, pt), fl) >= 1.0 - Share(layouts, k))
            && (!stopped ==> forall k | k in border :: Certainty(Share(layouts, pt), fl) >= Share(layouts, k))
            && (stopped && fl ==> forall k | k in border :: Share(layouts, k) == 1.0)
  {
    var keys := Dedup(border, []);
    var prob := Prob(layouts, border);
    KeysAreShares(g, layouts, border);
    assert stopped || forall k | k in keys :: 0.0 < prob(k) < 1.0;
    DecideGuess(g, keys, prob, stopped, border[0]);
    var st := Decide(Decision(g, false, 0.0, border[0], true), keys, prob, stopped);
    assert st == Decided(g, layouts, border, stopped);
  }

  /** The loop's keys are the border squares, each with its share as probability. */
  lemma KeysAreShares(g: Grid, layouts: seq<Grid>, border: seq<Point>)
    requires |layouts| > 0 && Fits(g, layouts, border) && Distinct(border)
    ensures forall k :: k in Dedup(border, []) <==> k in border
    ensures forall k | k in border :: && (forall v | v in layouts :: v.InBounds(k))
                                      && Prob(layouts, border)(k) == Share(layouts, k)
  {
    forall k | k in border
      ensures forall v | v in layouts :: v.InBounds(k)
      ensures Prob(layouts, border)(k) == Share(layouts, k)
    {
      ProbIsShare(g, layouts, border, k);
    }
  }

  /**
    With no abort during the search, the move is exhaustive: the layouts are
    exactly the completions of the chosen border that the brute-force
    reference accepts, and a covered square of that border is clicked when no
    such completion puts a mine on it, and flagged when every one does. g
    names the board the deduction pass leaves.
   */
  lemma NewMoveCertain(o: Oracle, b: Grid, lost: nat -> bool, lost2: nat -> bool, g: Grid, q: Point)
    requires o.Sound()
    requires !DoMove(b, lost).1 && g == DoMove(b, lost).0
    requires && Distinct(o.border(g)) && o.border(g) != []
             && forall p | p in o.border(g) :: Qualifies(g, p)
    requires var pick := Target(o, g);
             && Expected(o.isValid, LeafTest(o, pick), g, pick, [], Assignments(|pick|)) != []
             && q in pick && Get(g, q) == Covered
    ensures var pick := Target(o, g);
            var layouts := Expected(o.isValid, LeafTest(o, pick), g, pick, [], Assignments(|pick|));
            var r := NewMove(o, b, lost, NoAborts(), true, lost2);
            && r.Moved? && r.result && r.board.InBounds(q)
            && (forall v | v in layouts :: v.InBounds(q))
            && (Share(layouts, q) == 0.0 ==> Get(r.board, q) == Clicked)
            && (Share(layouts, q) == 1.0 ==> Get(r.board, q) == Flag)
  {
    CertainFrom(o, g, lost2, q);
    NewMoveAfter(o, b, lost, NoAborts(), true, lost2);
  }

  /** The same, for the part of the move after the deduction pass, on the board it left. */
  lemma CertainFrom(o: Oracle, g: Grid, lost2: nat -> bool, q: Point)
    requires o.Sound()
    requires && Distinct(o.border(g)) && o.border(g) != []
             && forall p | p in o.border(g) :: Qualifies(g, p)
    requires var pick := Target(o, g);
             && Expected(o.isValid, LeafTest(o, pick), g, pick, [], Assignments(|pick|)) != []
             && q in pick && Get(g, q) == Covered
    ensures var pick := Target(o, g);
            var layouts := Expected(o.isValid, LeafTest(o, pick), g, pick, [], Assignments(|pick|));
            var r := AfterPass(o, g, lost2, NoAborts(), true);
            && r.Moved? && r.result && r.board.InBounds(q)
            && (forall v | v in layouts :: v.InBounds(q))
            && (Share(layouts, q) == 0.0 ==> Get(r.board, q) == Clicked)
            && (Share(layouts, q) == 1.0 ==> Get(r.board, q) == Flag)
  {
    var pick := Target(o, g);
    ValidBoardsComplete(o, g, pick);
    var layouts := Expected(o.isValid, LeafTest(o, pick), g, pick, [], Assignments(|pick|));
    CertainWith(o, g, lost2, NoAborts(), q, layouts);
  }

  lemma CertainWith(o: Oracle, g: Grid, lost2: nat -> bool, ab: Aborts, q: Point, layouts: seq<Grid>)
    requires o.Sound() && layouts != []
    requires Distinct(o.border(g)) && forall p | p in o.border(g) :: Qualifies(g, p)
    requires ValidBoards(o, g, Target(o, g), ab) == Found(layouts, false)
    requires q in Target(o, g) && Get(g, q) == Covered
    ensures var r := AfterPass(o, g, lost2, ab, true);
            && r.Moved? && r.result && r.board.InBounds(q)
            && (forall v | v in layouts :: v.InBounds(q))
            && (Share(layouts, q) == 0.0 ==> Get(r.board, q) == Clicked)
            && (Share(layouts, q) == 1.0 ==> Get(r.board, q) == Flag)
  {
    AfterPassConcludes(o, g, lost2, ab, layouts, false);
    ConcludeCertain(g, layouts, Target(o, g), false, q);
  }

  /** When the deduction pass changes nothing, the move is the rest of it on the same board. */
  lemma NewMoveAfter(o: Oracle, b: Grid, lost: nat -> bool, ab: Aborts, runningAfter: bool, lost2: nat -> bool)
    requires o.Sound() && !DoMove(b, lost).1
    ensures NewMove(o, b, lost, ab, runningAfter, lost2) == AfterPass(o, DoMove(b, lost).0, lost2, ab, runningAfter)
  {
  }

  lemma NewMoveConcludes(o: Oracle, b: Grid, lost: nat -> bool, ab: Aborts, runningAfter: bool,
                         lost2: nat -> bool, layouts: seq<Grid>, stopped: bool)
    requires o.Sound()
    requires !DoMove(b, lost).1 && runningAfter && layouts != []
    requires var g := DoMove(b, lost).0;
             forall p | p in o.border(g) :: Qualifies(g, p)
    requires var g := DoMove(b, lost).0;
             ValidBoards(o, g, Target(o, g), ab) == Found(layouts, stopped)
    ensures var g := DoMove(b, lost).0;
            var pick := Target(o, g);
            && pick != [] && Fits(g, layouts, pick)
            && NewMove(o, b, lost, ab, runningAfter, lost2) == Moved(Conclude(g, layouts, pick, stopped), true)
  {
    AfterPassConcludes(o, DoMove(b, lost).0, lost2, ab, layouts, stopped);
    NewMoveAfter(o, b, lost, ab, runningAfter, lost2);
  }

  lemma AfterPassConcludes(o: Oracle, g: Grid, lost2: nat -> bool, ab: Aborts,
                           layouts: seq<Grid>, stopped: bool)
    requires o.Sound() && layouts != []
    requires forall p | p in o.border(g) :: Qualifies(g, p)
    requires ValidBoards(o, g, Target(o, g), ab) == Found(layouts, stopped)
    ensures var pick := Target(o, g);
            && pick != [] && Fits(g, layouts, pick)
            && AfterPass(o, g, lost2, ab, true) == Moved(Conclude(g, layouts, pick, stopped), true)
  {
    AfterPassSettles(o, g, lost2, ab, true, layouts, stopped);
  }

  /** Past a border that qualifies and a search that found layouts, the move is `Settle`. */
  lemma AfterPassSettles(o: Oracle, g: Grid, lost2: nat -> bool, ab: Aborts, runningAfter: bool,
                         layouts: seq<Grid>, stopped: bool)
    requires o.Sound()
    requires forall p | p in o.border(g) :: Qualifies(g, p)
    requires ValidBoards(o, g, Target(o, g), ab) == Found(layouts, stopped)
    ensures var pick := Target(o, g);
            && Fits(g, layouts, pick) && (layouts != [] ==> pick != [])
            && AfterPass(o, g, lost2, ab, runningAfter) == Settle(o, g, lost2, pick, layouts, stopped, runningAfter)
  {
  }
}
