/**
  `SweeperHelper.GetBombProbability`: a local estimate, from 0 to 101, of the
  chance that a cell holds a mine, taken as the mean of the per-clue ratios of
  its numbered neighbours, with early exits. Doubles are modelled as exact
  reals. `SweeperHelper`'s own neighbourhood helpers are the same code as
  `Board`'s over a board argument, so the `Boards` functions stand for both.
 */
module Heuristics {
  import opened Boards

  /** A clue's remaining mines over its covered cells, as a percentage. */
  function ClueRatio(val: int, bombs: nat, clicks: nat): real
    requires clicks > 0
  {
    100.0 * ((val - bombs) as real / clicks as real)
  }

  /** The ratio of the clue at q, which must have a covered neighbour. */
  function Ratio(b: Grid, q: Point): real
    requires b.InBounds(q) && |SurroundingClicks(b, q.x, q.y)| > 0
  {
    ClueRatio(Get(b, q), |SurroundingBombs(b, q.x, q.y)|, |SurroundingClicks(b, q.x, q.y)|)
  }

  predicate HasCovered(b: Grid, nums: seq<Point>) {
    forall q | q in nums :: b.InBounds(q) && |SurroundingClicks(b, q.x, q.y)| > 0
  }

  /** Reference sum of the ratios of a list of clues. */
  function SumRatios(b: Grid, nums: seq<Point>): real
    requires HasCovered(b, nums)
  {
    if nums == [] then 0.0 else Ratio(b, nums[0]) + SumRatios(b, nums[1..])
  }

  /**
    The `foreach` over the numbered neighbours from index i on, with the running
    sum of the ratios collected so far: a 0 returns 0, a 1 returns 100, a clue
    without covered cells returns 0, and at the end the mean is returned.
   */
  function MeanLoop(b: Grid, nums: seq<Point>, i: nat, sum: real): real
    requires i <= |nums| && |nums| > 0
    requires forall q | q in nums :: b.InBounds(q)
    decreases |nums| - i
  {
    if i == |nums| then sum / |nums| as real
    else
      var q := nums[i];
      var val := Get(b, q);
      if val == 0 then 0.0
      else if val == 1 then 100.0
      else
        var clicks := SurroundingClicks(b, q.x, q.y);
        if |clicks| == 0 then 0.0
        else
          var bombs := SurroundingBombs(b, q.x, q.y);
          MeanLoop(b, nums, i + 1, sum + ClueRatio(val, |bombs|, |clicks|))
  }

  /** `GetBombProbability(board, x, y)` for the cell p = (x, y). */
  function BombProbability(b: Grid, p: Point): (r: real)
    requires b.InBounds(p)
    ensures Get(b, p) == Flag || Get(b, p) == Exploded ==> r == 100.0
    ensures IsNumber(Get(b, p)) ==> r == 0.0
  {
    var v := Get(b, p);
    if v == Flag || v == Exploded then 100.0
    else if v >= 0 then 0.0
    else
      var nums := SurroundingNumbers(b, p.x, p.y);
      if |nums| == 0 then 101.0
      else MeanLoop(b, nums, 0, 0.0)
  }

  /**
    For a covered cell every numbered neighbour has the cell itself among its
    covered cells, so the "no covered cells" exit cannot be taken.
   */
  lemma CoveredCellFeedsEveryClue(b: Grid, p: Point)
    requires b.InBounds(p) && Get(b, p) == Covered
    ensures forall q | q in SurroundingNumbers(b, p.x, p.y) :: p in SurroundingClicks(b, q.x, q.y)
    ensures HasCovered(b, SurroundingNumbers(b, p.x, p.y))
  {
    forall q | q in SurroundingNumbers(b, p.x, p.y)
      ensures p in SurroundingClicks(b, q.x, q.y)
    {
      NearSymmetric(p, q);
    }
  }

  /** Without 0s and 1s the loop adds up every ratio and divides by their number. */
  lemma {:induction false} MeanLoopIsMean(b: Grid, nums: seq<Point>, i: nat, sum: real)
    requires i <= |nums| && |nums| > 0
    requires HasCovered(b, nums)
    requires forall q | q in nums :: Get(b, q) != 0 && Get(b, q) != 1
    decreases |nums| - i
    ensures MeanLoop(b, nums, i, sum) == (sum + SumRatios(b, nums[i..])) / |nums| as real
  {
    if i < |nums| {
      var q := nums[i];
      assert q in nums;
      assert nums[i..][1..] == nums[i + 1..];
      MeanLoopIsMean(b, nums, i + 1, sum + Ratio(b, q));
    }
  }

  /** The loop over neighbours sorted by value is decided by the first one when it is 0 or 1. */
  lemma LoopSmallestFirst(b: Grid, nums: seq<Point>)
    requires |nums| > 0
    requires forall q | q in nums :: b.InBounds(q)
    requires forall i, j | 0 <= i < j < |nums| :: Get(b, nums[i]) <= Get(b, nums[j])
    requires forall q | q in nums :: 0 <= Get(b, q)
    ensures (exists q | q in nums :: Get(b, q) == 0) ==> MeanLoop(b, nums, 0, 0.0) == 0.0
    ensures (forall q | q in nums :: Get(b, q) != 0) && (exists q | q in nums :: Get(b, q) == 1) ==>
              MeanLoop(b, nums, 0, 0.0) == 100.0
  {
    if exists q | q in nums :: Get(b, q) <= 1 {
      var q :| q in nums && Get(b, q) <= 1;
      var k :| 0 <= k < |nums| && nums[k] == q;
      assert k == 0 || Get(b, nums[0]) <= Get(b, nums[k]);
      assert nums[0] in nums;
    }
  }

  /**
    A covered cell without numbered neighbours gets 101. One next to a
    revealed 0 gets 0, and one next to a 1 (but no 0) gets 100: neighbours are
    visited by ascending value, so the smallest comes first and decides.
   */
  lemma SmallestClueDecides(b: Grid, p: Point)
    requires b.InBounds(p) && Get(b, p) == Covered
    ensures SurroundingNumbers(b, p.x, p.y) == [] ==> BombProbability(b, p) == 101.0
    ensures (exists q | q in SurroundingNumbers(b, p.x, p.y) :: Get(b, q) == 0) ==>
              BombProbability(b, p) == 0.0
    ensures (forall q | q in SurroundingNumbers(b, p.x, p.y) :: Get(b, q) != 0) &&
            (exists q | q in SurroundingNumbers(b, p.x, p.y) :: Get(b, q) == 1) ==>
              BombProbability(b, p) == 100.0
  {
    var nums := SurroundingNumbers(b, p.x, p.y);
    if nums != [] {
      LoopSmallestFirst(b, nums);
    }
  }

  /**
    A covered cell whose numbered neighbours are all 2 or more gets the mean
    of their ratios 100 * (value - flagged) / covered.
   */
  lemma BombProbabilityIsMean(b: Grid, p: Point)
    requires b.InBounds(p) && Get(b, p) == Covered
    requires SurroundingNumbers(b, p.x, p.y) != []
    requires forall q | q in SurroundingNumbers(b, p.x, p.y) :: Get(b, q) >= 2
    ensures HasCovered(b, SurroundingNumbers(b, p.x, p.y))
    ensures BombProbability(b, p) ==
              SumRatios(b, SurroundingNumbers(b, p.x, p.y)) / |SurroundingNumbers(b, p.x, p.y)| as real
  {
    var nums := SurroundingNumbers(b, p.x, p.y);
    CoveredCellFeedsEveryClue(b, p);
    assert BombProbability(b, p) == MeanLoop(b, nums, 0, 0.0);
    MeanLoopIsMean(b, nums, 0, 0.0);
    assert nums[0..] == nums;
  }

  lemma ClueRatioAtMost(val: int, bombs: nat, clicks: nat)
    requires val <= 8 && clicks > 0
    ensures ClueRatio(val, bombs, clicks) <= 800.0
  {
    var d := (val - bombs) as real;
    var c := clicks as real;
    if d > 0.0 {
      var q := d / c;
      assert q * c == d;
      assert c >= 1.0;
      if q > d {
        assert q * c > d * c;
        assert d * c >= d * 1.0;
      }
    } else {
      assert d / c <= 0.0;
    }
  }

  /** A total of at most 800 per term averages to at most 800. */
  lemma MeanAtMost(sum: real, n: nat)
    requires n > 0 && sum <= 800.0 * n as real
    ensures sum / n as real <= 800.0
  {
    var m := sum / n as real;
    assert m * n as real == sum;
    if m > 800.0 {
      assert m * n as real > 800.0 * n as real;
    }
  }

  lemma {:induction false} MeanLoopAtMost(b: Grid, nums: seq<Point>, i: nat, sum: real)
    requires i <= |nums| && |nums| > 0
    requires forall q | q in nums :: b.InBounds(q) && IsNumber(Get(b, q))
    requires sum <= 800.0 * i as real
    decreases |nums| - i
    ensures MeanLoop(b, nums, i, sum) <= 800.0
  {
    if i == |nums| {
      MeanAtMost(sum, |nums|);
    } else {
      var q := nums[i];
      assert q in nums;
      MeanLoopUnfold(b, nums, i, sum);
      if Get(b, q) >= 2 && |SurroundingClicks(b, q.x, q.y)| > 0 {
        ClueRatioAtMost(Get(b, q), |SurroundingBombs(b, q.x, q.y)|, |SurroundingClicks(b, q.x, q.y)|);
        MeanLoopAtMost(b, nums, i + 1, sum + Ratio(b, q));
      }
    }
  }

  /** One step of the loop: a clue of 2 or more with a covered neighbour adds its ratio; any other clue ends the loop at 100 or less. */
  lemma MeanLoopUnfold(b: Grid, nums: seq<Point>, i: nat, sum: real)
    requires i < |nums|
    requires forall q | q in nums :: b.InBounds(q) && IsNumber(Get(b, q))
    ensures var q := nums[i];
            if Get(b, q) >= 2 && |SurroundingClicks(b, q.x, q.y)| > 0
            then MeanLoop(b, nums, i, sum) == MeanLoop(b, nums, i + 1, sum + Ratio(b, q))
            else MeanLoop(b, nums, i, sum) <= 100.0
  {
    var q := nums[i];
    assert q in nums;
    var val := Get(b, q);
    if val == 0 {
      assert MeanLoop(b, nums, i, sum) == 0.0;
    } else if val == 1 {
      assert MeanLoop(b, nums, i, sum) == 100.0;
    } else if |SurroundingClicks(b, q.x, q.y)| == 0 {
      assert MeanLoop(b, nums, i, sum) == 0.0;
    }
  }

  /**
    A covered cell's estimate never exceeds 800 (eight mines over one covered
    cell), so it is always below the guessing loops' starting value of 1000.
   */
  lemma CoveredBelowSentinel(b: Grid)
    ensures forall p | b.InBounds(p) && Get(b, p) == Covered :: BombProbability(b, p) <= 800.0
  {
    forall p | b.InBounds(p) && Get(b, p) == Covered
      ensures BombProbability(b, p) <= 800.0
    {
      var nums := SurroundingNumbers(b, p.x, p.y);
      if nums != [] {
        MeanLoopAtMost(b, nums, 0, 0.0);
      }
    }
  }
}
