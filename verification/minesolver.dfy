/**
  `MineSolver.DoBestSweeperActions`: the one-pass local deduction on the live
  board and, when it fires nothing and the window is still there, a single
  guess at the covered cell with the lowest `GetBombProbability`.
 */
module MineSolver {
  import opened Boards
  import opened Deduction
  import opened Heuristics
  import opened Selection

  /**
    The guessing loop for any estimate `est`: over the covered cells in
    row-major order, keep the first one whose estimate is strictly below
    everything seen so far; the target stays (0, 0) and the minimum 1000 when
    nothing is below 1000.
   */
  function GuessBy(b: Grid, est: Point -> real): (g: Guess)
    ensures g.target == Origin || (b.InBounds(g.target) && Get(b, g.target) == Covered)
  {
    var cands := Cells(b, Covered);
    var i := FirstMin(seq(|cands|, k requires 0 <= k < |cands| => est(cands[k])), Sentinel);
    if i < 0 then Guess(Origin, Sentinel)
    else
      assert cands[i] in cands;
      Guess(cands[i], est(cands[i]))
  }

  /** Without covered cells the loop never moves off (0, 0) and 1000. */
  lemma GuessNoneCovered(b: Grid, est: Point -> real)
    requires forall q | b.InBounds(q) :: Get(b, q) != Covered
    ensures GuessBy(b, est) == Guess(Origin, Sentinel)
  {
    var cands := Cells(b, Covered);
    assert forall k | 0 <= k < |cands| :: cands[k] in cands;
  }

  /**
    When every covered cell is estimated below 1000 and there is one, the
    guess is a covered cell of minimal estimate, the first such in row-major
    order.
   */
  lemma GuessByIsFirstMinimal(b: Grid, est: Point -> real, c: Point)
    requires b.InBounds(c) && Get(b, c) == Covered
    requires forall q | b.InBounds(q) && Get(b, q) == Covered :: est(q) < Sentinel
    ensures var g := GuessBy(b, est);
            && b.InBounds(g.target) && Get(b, g.target) == Covered
            && g.prob == est(g.target)
            && (forall q | b.InBounds(q) && Get(b, q) == Covered :: g.prob <= est(q))
            && (forall q | b.InBounds(q) && Get(b, q) == Covered && Before(q, g.target) :: g.prob < est(q))
  {
    var cands := Cells(b, Covered);
    var vals := seq(|cands|, k requires 0 <= k < |cands| => est(cands[k]));
    assert c in cands;
    var i := FirstMin(vals, Sentinel);
    FirstMinIsFirst(cands, vals, Sentinel);
    forall q | b.InBounds(q) && Get(b, q) == Covered
      ensures vals[i] <= est(q)
      ensures Before(q, cands[i]) ==> vals[i] < est(q)
    {
      assert q in cands;
      var j :| 0 <= j < |cands| && cands[j] == q;
      assert vals[j] == est(q);
    }
  }

  /**
    `GetBombProbability` as the loop sees it, on in-bounds cells: at most 800
    on a covered cell, so below the loop's start of 1000, and 100 on a flag
    or an exploded mine.
   */
  function Probability(b: Grid): (est: Point -> real)
    ensures forall q | b.InBounds(q) && Get(b, q) == Covered :: est(q) <= 800.0
    ensures forall q | b.InBounds(q) && (Get(b, q) == Flag || Get(b, q) == Exploded) :: est(q) == 100.0
  {
    CoveredBelowSentinel(b);
    q => if b.InBounds(q) then BombProbability(b, q) else 0.0
  }

  /** The guess of `DoBestSweeperActions`. */
  function GuessCovered(b: Grid): Guess {
    GuessBy(b, Probability(b))
  }

  /**
    With a covered cell, the guess is a covered cell of minimal
    `GetBombProbability`, and the first such cell in row-major order.
   */
  lemma GuessIsFirstMinimal(b: Grid, c: Point)
    requires b.InBounds(c) && Get(b, c) == Covered
    ensures var g := GuessCovered(b);
            && b.InBounds(g.target) && Get(b, g.target) == Covered
            && g.prob == BombProbability(b, g.target)
            && (forall q | b.InBounds(q) && Get(b, q) == Covered :: g.prob <= BombProbability(b, q))
            && (forall q | b.InBounds(q) && Get(b, q) == Covered && Before(q, g.target) ::
                  g.prob < BombProbability(b, q))
  {
    GuessByIsFirstMinimal(b, Probability(b), c);
  }

  /** Over candidates in row-major order, the first minimum precedes every equal value. */
  lemma FirstMinIsFirst(cands: seq<Point>, vals: seq<real>, start: real)
    requires RowMajor(cands) && |vals| == |cands|
    requires FirstMin(vals, start) >= 0
    ensures var i := FirstMin(vals, start);
            forall j | 0 <= j < |cands| && Before(cands[j], cands[i]) :: vals[i] < vals[j]
  {
    var i := FirstMin(vals, start);
    forall j | 0 <= j < |cands| && Before(cands[j], cands[i])
      ensures vals[i] < vals[j]
    {
      assert j < i;
    }
  }

  /**
    `DoBestSweeperActions(board)`: the pass as written; when it fired or the
    window was lost, stop; otherwise click the guess, as a flag iff its
    probability exceeds 50. Reading the guessed square throws on a board
    without cells, where the guess stays (0, 0). The method returns true
    whenever it returns.
   */
  function BestActions(b: Grid, lost: nat -> bool): (r: Turn)
    ensures r.Throws? <==> !b.InBounds(Origin) && !Pass(b, false, lost).lost
    ensures r.Played? ==> r.result && Monotone(b, r.board)
  {
    var p := Pass(b, false, lost);
    if p.fired || p.lost then Played(p.board, true)
    else
      var g := GuessCovered(b);
      if !b.InBounds(g.target) then Throws
      else
        ClickMonotone(b, g.target, g.prob > 50.0);
        Played(Click(b, g.target, g.prob > 50.0), true)
  }

  /**
    When the pass fires nothing and the window stays, exactly the guessed
    covered cell changes: to 9 iff its probability is over 50, else to -3.
   */
  lemma GuessClick(b: Grid, lost: nat -> bool)
    requires forall y :: 0 <= y < b.rows ==> !lost(y)
    requires !Pass(b, false, lost).fired
    requires exists q | b.InBounds(q) :: Get(b, q) == Covered
    ensures var g := GuessCovered(b);
            var r := BestActions(b, lost);
            && r.Played? && Get(b, g.target) == Covered
            && (Get(r.board, g.target) == Flag <==> g.prob > 50.0)
            && (Get(r.board, g.target) == Clicked <==> g.prob <= 50.0)
            && (forall q | b.InBounds(q) && q != g.target :: Get(r.board, q) == Get(b, q))
  {
    var c :| b.InBounds(c) && Get(b, c) == Covered;
    GuessIsFirstMinimal(b, c);
  }

  /** Without covered cells nothing fires and the default click at (0, 0) is a no-op. */
  lemma NothingCoveredNoChange(b: Grid, lost: nat -> bool)
    requires b.InBounds(Origin)
    requires forall q | b.InBounds(q) :: Get(b, q) != Covered
    ensures BestActions(b, lost) == Played(b, true)
  {
    var p := Pass(b, false, lost);
    assert !Changed(b, p.board);
    GuessNoneCovered(b, Probability(b));
  }

  /**
    With a covered cell and the window kept, every call makes progress: some
    covered cell is uncovered, by the pass or else by the guess.
   */
  lemma BestActionsProgress(b: Grid, lost: nat -> bool, c: Point)
    requires b.InBounds(c) && Get(b, c) == Covered
    requires forall y :: 0 <= y < b.rows ==> !lost(y)
    ensures BestActions(b, lost).Played? && Changed(b, BestActions(b, lost).board)
  {
    var p := Pass(b, false, lost);
    if !p.fired {
      GuessIsFirstMinimal(b, c);
      var g := GuessCovered(b);
      ClickMonotone(b, g.target, g.prob > 50.0);
    }
  }
}
