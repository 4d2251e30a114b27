/**
  The click effect on the board and the one-pass local deduction shared by
  `Solver.DoMove` and `MineSolver.DoBestSweeperActions`: a single row-major
  scan that mutates the board as it goes, so later cells see the -3 and 9
  written for earlier ones.
 */
module Deduction {
  import opened Boards

  /** The code a click leaves on a covered cell. */
  function Mark(flag: bool): int {
    if flag then Flag else Clicked
  }

  /**
    `ClickSweeperSquare(x, y, flag)` as a board update: a covered target becomes
    9 (right click) or -3 (left click); any other target is left alone. The
    mouse event and the sleep are not modelled.
   */
  function Click(b: Grid, p: Point, flag: bool): (r: Grid)
    requires b.InBounds(p)
    ensures r.cols == b.cols && r.rows == b.rows
    ensures Get(b, p) != Covered ==> r == b
    ensures Get(b, p) == Covered ==> Get(r, p) == Mark(flag)
    ensures forall q | b.InBounds(q) && q != p :: Get(r, q) == Get(b, q)
  {
    if Get(b, p) != Covered then b else Set(b, p, Mark(flag))
  }

  /**
    How a move that ends in `ClickSweeperSquare` comes out: the board and
    the method's result, or the exception `GetSquare` throws when the square
    to click lies off the board.
   */
  datatype Turn = Played(board: Grid, result: bool) | Throws

  predicate AllInBounds(b: Grid, ps: seq<Point>) {
    forall p | p in ps :: b.InBounds(p)
  }

  /** `ClickSquareList`: clicks every listed square in order. */
  function ClickList(b: Grid, ps: seq<Point>, flag: bool): (r: Grid)
    requires AllInBounds(b, ps)
    decreases |ps|
    ensures r.cols == b.cols && r.rows == b.rows
    ensures forall q | b.InBounds(q) && q in ps && Get(b, q) == Covered :: Get(r, q) == Mark(flag)
    ensures forall q | b.InBounds(q) && !(q in ps && Get(b, q) == Covered) :: Get(r, q) == Get(b, q)
  {
    if ps == [] then b
    else
      var b1 := Click(b, ps[0], flag);
      assert forall q | q in ps[1..] :: q in ps;
      ClickList(b1, ps[1..], flag)
  }

  // ---------------------------------------------------------------------------
  // How boards evolve under clicks

  /** b evolves from a by turning covered cells into -3 or 9 only. */
  ghost predicate Monotone(a: Grid, b: Grid) {
    && a.cols == b.cols && a.rows == b.rows
    && forall q | a.InBounds(q) ::
         Get(b, q) == Get(a, q) || (Get(a, q) == Covered && (Get(b, q) == Clicked || Get(b, q) == Flag))
  }

  /** Some cell covered in a is no longer covered in b. */
  ghost predicate Changed(a: Grid, b: Grid)
    requires a.cols == b.cols && a.rows == b.rows
  {
    exists q | a.InBounds(q) :: Get(a, q) == Covered && Get(b, q) != Covered
  }

  lemma MonotoneTrans(a: Grid, b: Grid, c: Grid)
    requires Monotone(a, b) && Monotone(b, c)
    ensures Monotone(a, c)
    ensures Changed(a, b) || Changed(b, c) <==> Changed(a, c)
  {
    if Changed(a, b) {
      var q :| a.InBounds(q) && Get(a, q) == Covered && Get(b, q) != Covered;
      assert Get(c, q) != Covered;
    }
    if Changed(b, c) {
      var q :| a.InBounds(q) && Get(b, q) == Covered && Get(c, q) != Covered;
      assert Get(a, q) == Covered;
    }
    if Changed(a, c) {
      var q :| a.InBounds(q) && Get(a, q) == Covered && Get(c, q) != Covered;
      if Get(b, q) == Covered {
        assert Changed(b, c);
      } else {
        assert Changed(a, b);
      }
    }
  }

  /** A monotone evolution that uncovers nothing changes nothing. */
  lemma UnchangedIsSame(a: Grid, b: Grid)
    requires Monotone(a, b) && !Changed(a, b)
    ensures a == b
  {
    forall q | a.InBounds(q)
      ensures Get(a, q) == Get(b, q)
    {
      if Get(a, q) == Covered {
        assert Get(b, q) == Covered;
      }
    }
    Extensionality(a, b);
  }

  lemma MonotoneRefl(a: Grid)
    ensures Monotone(a, a) && !Changed(a, a)
  {
  }

  // ---------------------------------------------------------------------------
  // One cell of the pass

  datatype StepResult = StepResult(board: Grid, uncover: bool, flag: bool)

  /**
    The body of the scan for cell p. With `clueOnly` false this is the code as
    written, where any value but 0 may act as a clue (a flag acts as a clue of
    value 9 whose own cell counts as one of its flags); with `clueOnly` true
    only revealed clues 0..8 take part.
   */
  function Step(b: Grid, p: Point, clueOnly: bool): (r: StepResult)
    requires b.InBounds(p)
    ensures Monotone(b, r.board)
    ensures r.uncover || r.flag <==> Changed(b, r.board)
    ensures !(r.uncover && r.flag)
    ensures r.uncover || r.flag ==> Get(b, p) >= 1 && (clueOnly ==> Get(b, p) <= 8)
    ensures r.uncover ==>
      && |SurroundingBombs(b, p.x, p.y)| == Get(b, p)
      && forall q | b.InBounds(q) ::
           Get(r.board, q) == if Near(q, p.x, p.y) && Get(b, q) == Covered then Clicked else Get(b, q)
    ensures r.flag ==>
      && |SurroundingClicks(b, p.x, p.y)| + |SurroundingBombs(b, p.x, p.y)| == Get(b, p)
      && forall q | b.InBounds(q) ::
           Get(r.board, q) == if Near(q, p.x, p.y) && Get(b, q) == Covered then Flag else Get(b, q)
  {
    var v := Get(b, p);
    if v == 0 || (clueOnly && !IsNumber(v)) then
      StepResult(b, false, false)
    else
      var clicks := SurroundingClicks(b, p.x, p.y);
      var bombs := SurroundingBombs(b, p.x, p.y);
      if |clicks| == 0 then
        StepResult(b, false, false)
      else
        assert clicks[0] in clicks && Get(b, clicks[0]) == Covered;
        var safe := v - |bombs| == 0;
        var b1 := if safe then ClickList(b, clicks, false) else b;
        if Get(b1, p) != |clicks| + |bombs| then
          (assert safe ==> Get(b1, clicks[0]) == Clicked;
           StepResult(b1, safe, false))
        else
          var b2 := ClickList(b1, clicks, true);
          assert !safe;
          assert Get(b2, clicks[0]) == Flag;
          StepResult(b2, false, true)
  }

  /** The two rules never fire together, and a cell below 1 fires neither. */
  lemma StepRules(b: Grid, p: Point, clueOnly: bool)
    requires b.InBounds(p)
    ensures !(Step(b, p, clueOnly).uncover && Step(b, p, clueOnly).flag)
    ensures Get(b, p) < 1 ==> Step(b, p, clueOnly) == StepResult(b, false, false)
  {
    var r := Step(b, p, clueOnly);
    if Get(b, p) < 1 {
      assert !r.uncover && !r.flag;
      UnchangedIsSame(b, r.board);
    }
  }

  // ---------------------------------------------------------------------------
  // The row-major pass

  datatype PassResult = PassResult(board: Grid, fired: bool, lost: bool)

  /** Cells x.. of row y. */
  function PassRow(b: Grid, y: nat, x: nat, clueOnly: bool): (r: PassResult)
    requires y < b.rows
    decreases b.cols - x
    ensures Monotone(b, r.board)
    ensures Explained(b, r.board, clueOnly)
    ensures r.fired <==> Changed(b, r.board)
    ensures !r.lost
  {
    if x >= b.cols then
      PassResult(b, false, false)
    else
      var s := Step(b, Point(x, y), clueOnly);
      var rest := PassRow(s.board, y, x + 1, clueOnly);
      MonotoneTrans(b, s.board, rest.board);
      StepExplained(b, Point(x, y), clueOnly);
      ExplainedTrans(b, s.board, rest.board, clueOnly);
      PassResult(rest.board, s.uncover || s.flag || rest.fired, false)
  }

  /**
    Rows y.. of the pass. After each row the source may find that the game
    window has gone (`FindSweeperWindow(true)` after 500 ms); `lost(y)` stands
    for that check after row y, and the pass then stops.
   */
  function PassFrom(b: Grid, y: nat, clueOnly: bool, lost: nat -> bool): (r: PassResult)
    decreases b.rows - y
    ensures Monotone(b, r.board)
    ensures Explained(b, r.board, clueOnly)
    ensures r.fired <==> Changed(b, r.board)
    ensures r.lost ==> exists k :: y <= k < b.rows && lost(k)
    ensures (forall k :: y <= k < b.rows ==> !lost(k)) ==> !r.lost
  {
    if y >= b.rows then
      PassResult(b, false, false)
    else
      var row := PassRow(b, y, 0, clueOnly);
      if lost(y) then row.(lost := true)
      else
        var rest := PassFrom(row.board, y + 1, clueOnly, lost);
        MonotoneTrans(b, row.board, rest.board);
        ExplainedTrans(b, row.board, rest.board, clueOnly);
        PassResult(rest.board, row.fired || rest.fired, rest.lost)
  }

  /**
    The whole pass as written (`clueOnly` false) or corrected (`clueOnly`
    true). A cell it changes was covered, is now 9 or -3, and lies in the
    3x3 block of a cell that holds at least 1 when the pass ends (at most 8
    in the corrected pass); as written that cell may be a flag the pass
    itself placed.
   */
  function Pass(b: Grid, clueOnly: bool, lost: nat -> bool): (r: PassResult)
    ensures Monotone(b, r.board)
    ensures forall q | b.InBounds(q) && Get(r.board, q) != Get(b, q) :: HasSource(r.board, q, clueOnly)
    ensures r.fired <==> Changed(b, r.board)
    ensures !r.fired ==> r.board == b
  {
    var r := PassFrom(b, 0, clueOnly, lost);
    if !r.fired then (UnchangedIsSame(b, r.board); r) else r
  }

  // ---------------------------------------------------------------------------
  // Why a cell changes

  /**
    A cell of the 3x3 block around q holds a value that can fire a rule: at
    least 1, and at most 8 when only revealed clues take part.
   */
  ghost predicate HasSource(r: Grid, q: Point, clueOnly: bool) {
    exists c | r.InBounds(c) && Near(q, c.x, c.y) :: Get(r, c) >= 1 && (clueOnly ==> Get(r, c) <= 8)
  }

  /** Every cell that differs between a and r has such a source on r. */
  ghost predicate Explained(a: Grid, r: Grid, clueOnly: bool)
    requires a.cols == r.cols && a.rows == r.rows
  {
    forall q {:trigger HasSource(r, q, clueOnly)} | a.InBounds(q) && Get(r, q) != Get(a, q) :: HasSource(r, q, clueOnly)
  }

  /** A firing cell is not covered, so it keeps its value, and it explains every cell it changes. */
  lemma StepExplained(b: Grid, p: Point, clueOnly: bool)
    requires b.InBounds(p)
    ensures Explained(b, Step(b, p, clueOnly).board, clueOnly)
  {
    var s := Step(b, p, clueOnly);
    forall q | b.InBounds(q) && Get(s.board, q) != Get(b, q)
      ensures HasSource(s.board, q, clueOnly)
    {
      if !s.uncover && !s.flag {
        UnchangedIsSame(b, s.board);
      }
      assert Get(s.board, p) == Get(b, p);
    }
  }

  /** Sources survive a monotone step: a cell of at least 1 is not covered, so it never changes again. */
  lemma ExplainedTrans(a: Grid, b: Grid, c: Grid, clueOnly: bool)
    requires a.cols == b.cols && a.rows == b.rows && Monotone(b, c)
    requires Explained(a, b, clueOnly) && Explained(b, c, clueOnly)
    ensures Explained(a, c, clueOnly)
  {
    forall q | a.InBounds(q) && Get(c, q) != Get(a, q)
      ensures HasSource(c, q, clueOnly)
    {
      if Get(c, q) == Get(b, q) {
        assert HasSource(b, q, clueOnly);
        var w :| b.InBounds(w) && Near(q, w.x, w.y) && Get(b, w) >= 1 && (clueOnly ==> Get(b, w) <= 8);
        assert Get(c, w) == Get(b, w);
      } else {
        assert HasSource(c, q, clueOnly);
      }
    }
  }

  /** No cell holds a revealed clue. */
  ghost predicate NoClues(b: Grid) {
    forall q | b.InBounds(q) :: !IsNumber(Get(b, q))
  }

  lemma {:induction false} CorrectedRowNeedsClues(b: Grid, y: nat, x: nat)
    requires y < b.rows && NoClues(b)
    decreases b.cols - x
    ensures PassRow(b, y, x, true) == PassResult(b, false, false)
  {
    if x < b.cols {
      StepRules(b, Point(x, y), true);
      var s := Step(b, Point(x, y), true);
      assert !s.uncover && !s.flag;
      UnchangedIsSame(b, s.board);
      CorrectedRowNeedsClues(b, y, x + 1);
    }
  }

  /**
    Corrected pass: only revealed clues fire, so on a board with no clue cell
    the pass changes nothing and reports no move.
   */
  lemma CorrectedPassNeedsClues(b: Grid, lost: nat -> bool)
    requires NoClues(b)
    ensures Pass(b, true, lost).board == b
    ensures !Pass(b, true, lost).fired
  {
    var r := Pass(b, true, lost);
    if r.fired {
      var q :| b.InBounds(q) && Get(b, q) == Covered && Get(r.board, q) != Covered;
      CorrectedFromNeedsClues(b, 0, lost);
      assert false;
    }
  }

  lemma {:induction false} CorrectedFromNeedsClues(b: Grid, y: nat, lost: nat -> bool)
    requires NoClues(b)
    decreases b.rows - y
    ensures PassFrom(b, y, true, lost).board == b
  {
    if y < b.rows {
      CorrectedRowNeedsClues(b, y, 0);
      if !lost(y) {
        CorrectedFromNeedsClues(b, y + 1, lost);
      }
    }
  }

  /** A 3x3 board, all covered but a flag in the centre. */
  function FlagInCovered(): (b: Grid)
    ensures b.cols == 3 && b.rows == 3
    ensures Get(b, Point(1, 1)) == Flag
    ensures forall q | b.InBounds(q) && q != Point(1, 1) :: Get(b, q) == Covered
  {
    Set(Blank(3, 3), Point(1, 1), Flag)
  }

  /** The eight cells around (1, 1), in row-major order. */
  function Ring(): seq<Point> {
    [Point(0, 0), Point(1, 0), Point(2, 0), Point(0, 1), Point(2, 1), Point(0, 2), Point(1, 2), Point(2, 2)]
  }

  lemma RingDistinct()
    ensures Distinct(Ring()) && |Ring()| == 8
  {
    var all := Ring();
    assert forall i | 0 <= i < |all| - 1 :: Before(all[i], all[i + 1]);
    ChainIsRowMajor(all);
    RowMajorDistinct(all);
  }

  /** The centre of `FlagInCovered` has eight covered cells and one flag (itself) in its block. */
  lemma FlagInCoveredCounts(b: Grid)
    requires b.cols == 3 && b.rows == 3 && Get(b, Point(1, 1)) == Flag
    requires forall q | b.InBounds(q) && q != Point(1, 1) :: Get(b, q) == Covered
    ensures |SurroundingClicks(b, 1, 1)| == 8
    ensures SurroundingBombs(b, 1, 1) == [Point(1, 1)]
  {
    RingCovered(b);
    RingDistinct();
    DistinctSubsetLength(SurroundingClicks(b, 1, 1), Ring());
    DistinctSubsetLength(Ring(), SurroundingClicks(b, 1, 1));
    FlagInCoveredBombs(b);
  }

  lemma RingCovered(b: Grid)
    requires b.cols == 3 && b.rows == 3 && Get(b, Point(1, 1)) == Flag
    requires forall q | b.InBounds(q) && q != Point(1, 1) :: Get(b, q) == Covered
    ensures forall q | q in Ring() :: q in SurroundingClicks(b, 1, 1)
    ensures forall q | q in SurroundingClicks(b, 1, 1) :: q in Ring()
  {
    var clicks := SurroundingClicks(b, 1, 1);
    forall q | q in Ring()
      ensures q in clicks
    {
      RingCell(q);
      assert b.InBounds(q) && Near(q, 1, 1) && q != Point(1, 1);
    }
    forall q | q in clicks
      ensures q in Ring()
    {
      assert b.InBounds(q) && q != Point(1, 1);
      CellInRing(q);
    }
  }

  lemma RingCell(q: Point)
    requires q in Ring()
    ensures 0 <= q.x <= 2 && 0 <= q.y <= 2 && q != Point(1, 1)
  {
  }

  /** Every cell of a 3x3 board but the centre is on the ring. */
  lemma CellInRing(q: Point)
    requires 0 <= q.x <= 2 && 0 <= q.y <= 2 && q != Point(1, 1)
    ensures q in Ring()
  {
    var r := Ring();
    if q.y == 0 {
      assert q == r[q.x];
    } else if q.y == 1 {
      assert q == if q.x == 0 then r[3] else r[4];
    } else {
      assert q == r[5 + q.x];
    }
  }

  lemma FlagInCoveredBombs(b: Grid)
    requires b.cols == 3 && b.rows == 3 && Get(b, Point(1, 1)) == Flag
    requires forall q | b.InBounds(q) && q != Point(1, 1) :: Get(b, q) == Covered
    ensures SurroundingBombs(b, 1, 1) == [Point(1, 1)]
  {
    var bombs := SurroundingBombs(b, 1, 1);
    assert Point(1, 1) in bombs;
    assert forall q | q in bombs :: q in [Point(1, 1)];
    DistinctSubsetLength(bombs, [Point(1, 1)]);
    assert bombs[0] == Point(1, 1);
  }

  /**
    As written, the centre flag of `FlagInCovered` counts itself among its
    flags: 9 == 8 covered + 1 flagged, so the step flags all eight covered
    neighbours although the board shows no clue at all. The corrected step
    leaves that board alone.
   */
  lemma FlagActsAsClue()
    ensures NoClues(FlagInCovered())
    ensures Step(FlagInCovered(), Point(1, 1), false).flag
    ensures Get(Step(FlagInCovered(), Point(1, 1), false).board, Point(0, 0)) == Flag
    ensures Step(FlagInCovered(), Point(1, 1), true) == StepResult(FlagInCovered(), false, false)
  {
    FlagInCoveredNoClues();
    FlagInCoveredFires();
    FlagInCoveredKept();
  }

  lemma FlagInCoveredNoClues()
    ensures NoClues(FlagInCovered())
  {
    var b := FlagInCovered();
    assert forall q | b.InBounds(q) :: Get(b, q) == Covered || Get(b, q) == Flag;
  }

  lemma FlagInCoveredFires()
    ensures Step(FlagInCovered(), Point(1, 1), false).flag
    ensures Get(Step(FlagInCovered(), Point(1, 1), false).board, Point(0, 0)) == Flag
  {
    var b := FlagInCovered();
    FlagInCoveredCounts(b);
    assert Get(b, Point(1, 1)) == Flag;
  }

  lemma FlagInCoveredKept()
    ensures Step(FlagInCovered(), Point(1, 1), true) == StepResult(FlagInCovered(), false, false)
  {
    var b := FlagInCovered();
    assert Get(b, Point(1, 1)) == Flag;
  }

  /**
    `Solver.DoMove` (base part): runs the pass as written, flag-as-clue case
    included; the result is false when the window was lost, otherwise
    whether some rule fired.
   */
  function DoMove(b: Grid, lost: nat -> bool): (r: (Grid, bool))
    ensures Monotone(b, r.0)
    ensures (forall y :: 0 <= y < b.rows ==> !lost(y)) ==> (r.1 <==> r.0 != b)
    ensures r.1 ==> r.0 != b
  {
    var p := Pass(b, false, lost);
    if p.fired then
      (ChangedDiffers(b, p.board); (p.board, !p.lost))
    else (p.board, false)
  }

  /** On a board without cells nothing can change, so the pass never fires. */
  lemma NoCellsNoMove(b: Grid, lost: nat -> bool)
    ensures !b.InBounds(Origin) ==> !Pass(b, false, lost).fired && !DoMove(b, lost).1
  {
  }

  lemma ChangedDiffers(a: Grid, b: Grid)
    requires a.cols == b.cols && a.rows == b.rows && Changed(a, b)
    ensures a != b
  {
    var q :| a.InBounds(q) && Get(a, q) == Covered && Get(b, q) != Covered;
  }

  /** A click only ever uncovers its own target, and does so iff it was covered. */
  lemma ClickMonotone(b: Grid, p: Point, flag: bool)
    requires b.InBounds(p)
    ensures Monotone(b, Click(b, p, flag))
    ensures Changed(b, Click(b, p, flag)) <==> Get(b, p) == Covered
  {
    if Get(b, p) == Covered {
      assert Get(Click(b, p, flag), p) != Covered;
    }
  }

  /** Clicking a list of squares only ever turns covered cells into -3 or 9. */
  lemma ClickListMonotone(b: Grid, ps: seq<Point>, flag: bool)
    requires AllInBounds(b, ps)
    ensures Monotone(b, ClickList(b, ps, flag))
  {
  }
}
