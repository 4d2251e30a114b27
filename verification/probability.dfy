/**
  `ProbabilitySolver`: a per-cell estimate that is the largest of the
  truncated percentages 100 * (value - flagged) / covered of the clues around
  the cell (101 where no clue says anything), and a guess at the border
  square with the lowest estimate.
 */
module ProbabilitySolver {
  import opened Boards
  import opened Deduction
  import opened Heuristics
  import opened Selection
  import opened Oracles

  /** C#'s `(int)` cast of a double: truncation toward zero. */
  function Trunc(r: real): (n: int)
    ensures r >= 0.0 ==> n as real <= r < n as real + 1.0
    ensures r < 0.0 ==> n as real - 1.0 < r <= n as real
  {
    if r >= 0.0 then r.Floor else -((-r).Floor)
  }

  function RealMax(a: real, b: real): real { if a < b then b else a }

  /**
    Casting after taking the maximum with an integer is taking the maximum
    after casting: `(int) Math.Max(t, prob)` is `Max(prob, (int) t)`.
   */
  lemma TruncMax(t: real, m: int)
    ensures Trunc(RealMax(t, m as real)) == Max(m, Trunc(t))
  {
    assert Trunc(m as real) == m;
  }

  /** The clue at c has a covered neighbour, so `thisprob` is defined there. */
  predicate HasRoom(b: Grid, c: Point) {
    b.InBounds(c) && |SurroundingClicks(b, c.x, c.y)| > 0
  }

  /** The truncated percentage the clue at c gives each of its covered cells. */
  function Estimate(b: Grid, c: Point): int
    requires HasRoom(b, c)
  {
    Trunc(ClueRatio(Get(b, c), |SurroundingBombs(b, c.x, c.y)|, |SurroundingClicks(b, c.x, c.y)|))
  }

  /** The clue at c (a revealed 0..8) estimates the cell p, a covered neighbour of it. */
  predicate Contributes(b: Grid, c: Point, p: Point) {
    b.InBounds(c) && IsNumber(Get(b, c)) && p in SurroundingClicks(b, c.x, c.y)
  }

  /** `foreach (var p in sur) _prob[p] = (int) Math.Max(thisprob, _prob[p])`. */
  function Spread(prob: Grid, ps: seq<Point>, t: real): (r: Grid)
    requires forall q | q in ps :: prob.InBounds(q)
    decreases |ps|
    ensures r.cols == prob.cols && r.rows == prob.rows
    ensures forall q | prob.InBounds(q) && q in ps :: Get(r, q) == Max(Get(prob, q), Trunc(t))
    ensures forall q | prob.InBounds(q) && q !in ps :: Get(r, q) == Get(prob, q)
  {
    if ps == [] then prob
    else
      var q := ps[0];
      TruncMax(t, Get(prob, q));
      var next := Set(prob, q, Trunc(RealMax(t, Get(prob, q) as real)));
      assert forall q' | q' in ps[1..] :: q' in ps;
      Spread(next, ps[1..], t)
  }

  /** The body of the second pair of loops, for the cell c. */
  function ApplyClue(b: Grid, prob: Grid, c: Point): Grid
    requires b.InBounds(c) && prob.cols == b.cols && prob.rows == b.rows
  {
    var val := Get(b, c);
    if !(val >= 0 && val < 9) then prob
    else
      var sur := SurroundingClicks(b, c.x, c.y);
      if |sur| == 0 then prob
      else
        var bombCount := |SurroundingBombs(b, c.x, c.y)|;
        Spread(prob, sur, ClueRatio(val, bombCount, |sur|))
  }

  /**
    Reference definition, cell by cell: the running value of p after the clues
    cs have been seen, starting from acc.
   */
  function RawFrom(b: Grid, p: Point, cs: seq<Point>, acc: int): int
    requires forall c | c in cs :: b.InBounds(c)
  {
    if cs == [] then acc
    else
      var c := cs[0];
      var acc' := if Contributes(b, c, p) then Max(acc, Estimate(b, c)) else acc;
      RawFrom(b, p, cs[1..], acc')
  }

  /** The loops over the cells cs, applied to the whole estimate grid. */
  function Accumulate(b: Grid, prob: Grid, cs: seq<Point>): (r: Grid)
    requires forall c | c in cs :: b.InBounds(c)
    requires prob.cols == b.cols && prob.rows == b.rows
    decreases |cs|
    ensures r.cols == b.cols && r.rows == b.rows
    ensures forall p | b.InBounds(p) :: Get(r, p) == RawFrom(b, p, cs, Get(prob, p))
  {
    if cs == [] then prob
    else
      var next := ApplyClue(b, prob, cs[0]);
      var r := Accumulate(b, next, cs[1..]);
      assert forall p | b.InBounds(p) ::
        Get(next, p) == (if Contributes(b, cs[0], p) then Max(Get(prob, p), Estimate(b, cs[0])) else Get(prob, p));
      r
  }

  function Filled(cols: nat, rows: nat, v: int): (r: Grid)
    ensures r.cols == cols && r.rows == rows
    ensures forall p | r.InBounds(p) :: Get(r, p) == v
  {
    Board(cols, rows, seq(rows, _ => seq(cols, _ => v)))
  }

  /** The last pair of loops: entries still at -1 become 101. */
  function Finalize(prob: Grid): (r: Grid)
    ensures r.cols == prob.cols && r.rows == prob.rows
    ensures forall p | prob.InBounds(p) :: Get(r, p) == if Get(prob, p) == -1 then 101 else Get(prob, p)
  {
    Board(prob.cols, prob.rows,
      seq(prob.rows, y requires 0 <= y < prob.rows =>
        seq(prob.cols, x requires 0 <= x < prob.cols =>
          if prob.cells[y][x] == -1 then 101 else prob.cells[y][x])))
  }

  /** `UpdateProbabilities()`: the estimate grid `_prob`. */
  function Probabilities(b: Grid): (r: Grid)
    ensures r.cols == b.cols && r.rows == b.rows
    ensures forall p | b.InBounds(p) :: 0 <= Get(r, p) <= 800 || Get(r, p) == 101
  {
    var cs := Cells(b, AnyValue);
    RawInRange(b);
    Finalize(Accumulate(b, Filled(b.cols, b.rows, -1), cs))
  }

  /** Over the whole sweep, the running value of a cell ends at -1 or in 0..800. */
  lemma RawInRange(b: Grid)
    ensures forall p | b.InBounds(p) ::
              var raw := RawFrom(b, p, Cells(b, AnyValue), -1);
              raw == -1 || 0 <= raw <= 800
  {
    var cs := Cells(b, AnyValue);
    forall p | b.InBounds(p)
      ensures var raw := RawFrom(b, p, cs, -1); raw == -1 || 0 <= raw <= 800
    {
      var raw := RawFrom(b, p, cs, -1);
      RawFromIsMax(b, p, cs, -1);
      if raw != -1 {
        var c :| c in cs && Contributes(b, c, p) && Estimate(b, c) == raw;
        EstimateAtMost(b, c);
      }
    }
  }

  /** What the reference computes: the largest contributing estimate, or acc. */
  lemma {:induction false} RawFromIsMax(b: Grid, p: Point, cs: seq<Point>, acc: int)
    requires forall c | c in cs :: b.InBounds(c)
    decreases |cs|
    ensures RawFrom(b, p, cs, acc) >= acc
    ensures forall c | c in cs && Contributes(b, c, p) :: Estimate(b, c) <= RawFrom(b, p, cs, acc)
    ensures RawFrom(b, p, cs, acc) == acc ||
            exists c | c in cs && Contributes(b, c, p) :: Estimate(b, c) == RawFrom(b, p, cs, acc)
  {
    if cs != [] {
      var c := cs[0];
      var acc' := if Contributes(b, c, p) then Max(acc, Estimate(b, c)) else acc;
      RawFromIsMax(b, p, cs[1..], acc');
      assert forall d | d in cs[1..] :: d in cs;
      forall d | d in cs && Contributes(b, d, p)
        ensures Estimate(b, d) <= RawFrom(b, p, cs, acc)
      {
        if d != c {
          assert d in cs[1..];
        }
      }
    }
  }

  /** An estimate never exceeds 800: at most eight mines over at least one covered cell. */
  lemma EstimateAtMost(b: Grid, c: Point)
    requires HasRoom(b, c) && IsNumber(Get(b, c))
    ensures Estimate(b, c) <= 800
  {
    var t := ClueRatio(Get(b, c), |SurroundingBombs(b, c.x, c.y)|, |SurroundingClicks(b, c.x, c.y)|);
    ClueRatioAtMost(Get(b, c), |SurroundingBombs(b, c.x, c.y)|, |SurroundingClicks(b, c.x, c.y)|);
    assert t <= 800.0;
  }

  /** The table's entry at p is the reference maximum, or 101 when nothing contributes. */
  lemma ProbabilityIsRaw(b: Grid, p: Point)
    requires b.InBounds(p)
    ensures var raw := RawFrom(b, p, Cells(b, AnyValue), -1);
            Get(Probabilities(b), p) == if raw == -1 then 101 else raw
  {
  }

  /**
    After `UpdateProbabilities` the entry of a cell p is 101 when no clue
    estimates it at 0 or more, and otherwise the largest estimate of the
    clues around it; every entry lies in 0..800 or is 101.
   */
  lemma ProbabilitiesSpec(b: Grid, p: Point)
    requires b.InBounds(p)
    ensures 0 <= Get(Probabilities(b), p) <= 800 || Get(Probabilities(b), p) == 101
    ensures (forall c | Contributes(b, c, p) :: Estimate(b, c) < 0) ==> Get(Probabilities(b), p) == 101
    ensures (exists c | Contributes(b, c, p) :: Estimate(b, c) >= 0) ==>
              && (forall c | Contributes(b, c, p) :: Estimate(b, c) <= Get(Probabilities(b), p))
              && (exists c | Contributes(b, c, p) :: Estimate(b, c) == Get(Probabilities(b), p))
  {
    var cs := Cells(b, AnyValue);
    RawFromIsMax(b, p, cs, -1);
    ProbabilityIsRaw(b, p);
    if exists c | Contributes(b, c, p) :: Estimate(b, c) >= 0 {
      var c :| Contributes(b, c, p) && Estimate(b, c) >= 0;
      assert c in cs;
    }
  }

  /** Only covered cells next to a revealed clue are estimated; all others get 101. */
  lemma OnlyBorderEstimated(b: Grid, p: Point)
    requires b.InBounds(p)
    requires Get(b, p) != Covered || SurroundingNumbers(b, p.x, p.y) == []
    ensures Get(Probabilities(b), p) == 101
  {
    forall c | Contributes(b, c, p)
      ensures false
    {
      NearSymmetric(p, c);
    }
    ProbabilitiesSpec(b, p);
  }

  /**
    For a clue whose remaining mines are not negative, the truncated
    percentage is the integer quotient 100 * (value - flagged) / covered.
   */
  lemma EstimateIsQuotient(val: int, bombs: nat, clicks: nat)
    requires clicks > 0 && val >= bombs
    ensures Trunc(ClueRatio(val, bombs, clicks)) == (100 * (val - bombs)) / clicks
  {
    var n := 100 * (val - bombs);
    var q := n / clicks;
    var m := n % clicks;
    assert n == q * clicks + m && 0 <= m < clicks;
    var t := ClueRatio(val, bombs, clicks);
    assert t == n as real / clicks as real;
    assert t == q as real + m as real / clicks as real;
    assert 0.0 <= m as real / clicks as real < 1.0;
    assert q as real <= t < q as real + 1.0;
  }

  /**
    The guessing loop of `DoMove` over the border squares: the first square
    with the lowest entry below 1000, or (0, 0) with 1000 when there is none.
   */
  function LowestOnBorder(prob: Grid, bd: seq<Point>): (g: Guess)
    requires forall p | p in bd :: prob.InBounds(p)
    ensures g.target == Origin || g.target in bd
  {
    var vals := seq(|bd|, k requires 0 <= k < |bd| => Get(prob, bd[k]) as real);
    var i := FirstMin(vals, Sentinel);
    if i < 0 then Guess(Origin, Sentinel)
    else
      assert bd[i] in bd;
      Guess(bd[i], vals[i])
  }

  /**
    With entries below 1000, a non-empty border yields its first square of
    lowest entry, and an empty one yields (0, 0) with the value 1000.
   */
  lemma LowestOnBorderSpec(prob: Grid, bd: seq<Point>)
    requires forall p | p in bd :: prob.InBounds(p) && Get(prob, p) < 1000
    ensures bd == [] ==> LowestOnBorder(prob, bd) == Guess(Origin, Sentinel)
    ensures bd != [] ==>
              var g := LowestOnBorder(prob, bd);
              exists i | 0 <= i < |bd| ::
                && g.target == bd[i] && g.prob == Get(prob, bd[i]) as real
                && (forall j | 0 <= j < |bd| :: Get(prob, bd[i]) <= Get(prob, bd[j]))
                && (forall j | 0 <= j < i :: Get(prob, bd[i]) < Get(prob, bd[j]))
  {
    if bd != [] {
      var vals := seq(|bd|, k requires 0 <= k < |bd| => Get(prob, bd[k]) as real);
      assert bd[0] in bd;
      assert vals[0] < Sentinel;
      var i := FirstMin(vals, Sentinel);
      assert forall j | 0 <= j < |bd| :: vals[j] == Get(prob, bd[j]) as real;
    }
  }

  /** The guess `DoMove` makes on the board g. */
  function BorderGuess(o: Oracle, g: Grid): (r: Guess)
    requires o.Sound()
    ensures r.target == Origin || g.InBounds(r.target)
  {
    LowestOnBorder(Probabilities(g), o.border(g))
  }

  /**
    `ProbabilitySolver.DoMove()`: when the base pass fires, that is the move;
    otherwise click the border square of lowest estimate, as a flag iff the
    estimate is at least 100 (the `> 50` test is then redundant). With no
    border the square clicked is (0, 0), and reading it throws on a board
    without cells. The method returns true whenever it returns.
   */
  function ProbMove(o: Oracle, b: Grid, lost: nat -> bool): (r: Turn)
    requires o.Sound()
    ensures r.Throws? <==> !DoMove(b, lost).1 && !b.InBounds(Origin)
    ensures r.Played? ==> r.result && Monotone(b, r.board)
    ensures DoMove(b, lost).1 ==> r == Played(DoMove(b, lost).0, true)
  {
    var base := DoMove(b, lost);
    if base.1 then Played(base.0, true)
    else if !base.0.InBounds(BorderGuess(o, base.0).target) then Throws
    else
      var next := GuessClick(o, base.0);
      MonotoneTrans(b, base.0, next);
      Played(next, true)
  }

  /**
    When the base pass changes nothing on a board with cells, only the
    guessed square changes: it is flagged iff the lowest estimate is at
    least 100 and revealed otherwise.
   */
  lemma ProbMoveGuess(o: Oracle, b: Grid, lost: nat -> bool)
    requires o.Sound() && b.InBounds(Origin) && !DoMove(b, lost).1
    ensures var r := ProbMove(o, b, lost);
            var g := DoMove(b, lost).0;
            var t := BorderGuess(o, g).target;
            var lowest := BorderGuess(o, g).prob;
            && r.Played?
            && (Get(g, t) == Covered ==> (Get(r.board, t) == Flag <==> lowest >= 100.0))
            && (Get(g, t) == Covered ==> (Get(r.board, t) == Clicked <==> lowest < 100.0))
            && (forall q | b.InBounds(q) && q != t :: Get(r.board, q) == Get(g, q))
  {
    var g := DoMove(b, lost).0;
    var next := GuessClick(o, g);
    assert ProbMove(o, b, lost) == Played(next, true);
  }

  /** The guess made when the deduction pass changed nothing, on the board g it left. */
  function GuessClick(o: Oracle, g: Grid): (r: Grid)
    requires o.Sound() && g.InBounds(BorderGuess(o, g).target)
    ensures Monotone(g, r)
    ensures var t := BorderGuess(o, g).target;
            var lowest := BorderGuess(o, g).prob;
            && (Get(g, t) == Covered ==> (Get(r, t) == Flag <==> lowest >= 100.0))
            && (Get(g, t) == Covered ==> (Get(r, t) == Clicked <==> lowest < 100.0))
            && (forall q | g.InBounds(q) && q != t :: Get(r, q) == Get(g, q))
  {
    var guess := BorderGuess(o, g);
    ClickMonotone(g, guess.target, guess.prob > 50.0 && guess.prob >= 100.0);
    Click(g, guess.target, guess.prob > 50.0 && guess.prob >= 100.0)
  }

  /**
    The entries `DoMove` compares are all below 1000, so a non-empty border
    always yields one of its squares, the first of lowest estimate.
   */
  lemma BorderGuessSpec(o: Oracle, g: Grid)
    requires o.Sound()
    ensures var bd := o.border(g);
            var r := BorderGuess(o, g);
            && (bd == [] ==> r == Guess(Origin, Sentinel))
            && (bd != [] ==>
                  exists i | 0 <= i < |bd| ::
                    && r.target == bd[i]
                    && r.prob == Get(Probabilities(g), bd[i]) as real
                    && (forall j | 0 <= j < |bd| :: Get(Probabilities(g), bd[i]) <= Get(Probabilities(g), bd[j]))
                    && (forall j | 0 <= j < i :: Get(Probabilities(g), bd[i]) < Get(Probabilities(g), bd[j])))
  {
    var bd := o.border(g);
    var t := Probabilities(g);
    assert forall p | p in bd :: Get(t, p) < 1000;
    LowestOnBorderSpec(t, bd);
  }
}
