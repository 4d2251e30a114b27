/**
  The "lowest value, first wins" loop every guessing solver uses: a running
  minimum that starts at a sentinel and is replaced only by a strictly smaller
  value, so ties keep the earliest candidate.
 */
module Selection {
  import opened Boards

  /** A guessing loop's choice: the target cell and the running minimum it ended on. */
  datatype Guess = Guess(target: Point, prob: real)

  /** The guessing loops' starting value `lowestProb = 1000`. */
  const Sentinel: real := 1000.0

  /** The loop from index k on, with the best index so far (-1: none yet). */
  function MinFrom(vals: seq<real>, start: real, k: nat, best: int): (i: int)
    requires k <= |vals| && -1 <= best < k
    requires best == -1 ==> forall j | 0 <= j < k :: vals[j] >= start
    requires best >= 0 ==> vals[best] < start
    requires best >= 0 ==> forall j | 0 <= j < k :: vals[best] <= vals[j]
    requires best >= 0 ==> forall j | 0 <= j < best :: vals[best] < vals[j]
    decreases |vals| - k
    ensures -1 <= i < |vals|
    ensures i == -1 <==> forall j | 0 <= j < |vals| :: vals[j] >= start
    ensures i >= 0 ==> vals[i] < start
    ensures i >= 0 ==> forall j | 0 <= j < |vals| :: vals[i] <= vals[j]
    ensures i >= 0 ==> forall j | 0 <= j < i :: vals[i] < vals[j]
  {
    if k == |vals| then best
    else
      var cur := if best == -1 then start else vals[best];
      if vals[k] >= cur then MinFrom(vals, start, k + 1, best)
      else MinFrom(vals, start, k + 1, k)
  }

  /**
    The index of the first minimal value among those strictly below `start`,
    or -1 when every value is at least `start`.
   */
  function FirstMin(vals: seq<real>, start: real): (i: int)
    ensures -1 <= i < |vals|
    ensures i == -1 <==> forall j | 0 <= j < |vals| :: vals[j] >= start
    ensures i >= 0 ==> vals[i] < start
    ensures i >= 0 ==> forall j | 0 <= j < |vals| :: vals[i] <= vals[j]
    ensures i >= 0 ==> forall j | 0 <= j < i :: vals[i] < vals[j]
  {
    MinFrom(vals, start, 0, -1)
  }
}
