/**
  The board: a Rows x Columns matrix of integer cell codes, addressed at the
  API boundary by (x = column, y = row) and stored row-major, together with the
  neighbourhood queries every solver is built from.

  Cell codes (kept as integers because the solver relies on the odd ones):
    -3   clicked by the solver, not yet re-read from the screen
    -2   not yet read from the screen
    -1   covered
    0..8 revealed clue
    9    flag
    100  exploded mine
 */
module Boards {

  const Clicked := -3
  const Unread := -2
  const Covered := -1
  const Flag := 9
  const Exploded := 100

  /** The `type` argument of the neighbourhood query that selects every cell. */
  const AnyValue := -2

  predicate IsNumber(v: int) { 0 <= v <= 8 }

  function Max(a: int, b: int): int { if a < b then b else a }
  function Min(a: int, b: int): int { if a < b then a else b }

  datatype Point = Point(x: int, y: int)

  /** The point the source calls `Point.Empty`. */
  const Origin := Point(0, 0)

  datatype Board = Board(cols: nat, rows: nat, cells: seq<seq<int>>) {
    predicate WellFormed() {
      |cells| == rows && forall i | 0 <= i < |cells| :: |cells[i]| == cols
    }

    predicate InBounds(p: Point) {
      0 <= p.x < cols && 0 <= p.y < rows
    }
  }

  /** A board whose cell matrix really is Rows x Columns. */
  type Grid = b: Board | b.WellFormed() witness Board(0, 0, [])

  function Get(b: Grid, p: Point): int
    requires b.InBounds(p)
  {
    b.cells[p.y][p.x]
  }

  /** `SetSquare`: writes one cell and nothing else. */
  function Set(b: Grid, p: Point, v: int): (r: Grid)
    requires b.InBounds(p)
    ensures r.cols == b.cols && r.rows == b.rows
    ensures Get(r, p) == v
    ensures forall q | b.InBounds(q) && q != p :: Get(r, q) == Get(b, q)
  {
    Board(b.cols, b.rows, b.cells[p.y := b.cells[p.y][p.x := v]])
  }

  /** Two boards of the same shape that agree on every cell are the same board. */
  lemma Extensionality(a: Grid, b: Grid)
    requires a.cols == b.cols && a.rows == b.rows
    requires forall p | a.InBounds(p) :: Get(a, p) == Get(b, p)
    ensures a == b
  {
    assert |a.cells| == |b.cells|;
    forall i | 0 <= i < a.rows
      ensures a.cells[i] == b.cells[i]
    {
      forall j | 0 <= j < a.cols
        ensures a.cells[i][j] == b.cells[i][j]
      {
        assert Get(a, Point(j, i)) == Get(b, Point(j, i));
      }
    }
  }

  /** Writing the same cell twice keeps only the second write. */
  lemma SetSet(b: Grid, p: Point, v: int, w: int)
    requires b.InBounds(p)
    ensures Set(Set(b, p, v), p, w) == Set(b, p, w)
  {
    Extensionality(Set(Set(b, p, v), p, w), Set(b, p, w));
  }

  /** Writing back the value a cell already holds changes nothing. */
  lemma SetSame(b: Grid, p: Point)
    requires b.InBounds(p)
    ensures Set(b, p, Get(b, p)) == b
  {
    Extensionality(Set(b, p, Get(b, p)), b);
  }

  /** The 3x3 block centred on (x, y), centre included. */
  predicate Near(p: Point, x: int, y: int) {
    -1 <= p.x - x <= 1 && -1 <= p.y - y <= 1
  }

  /** Row-major order: earlier row first, then earlier column. */
  predicate Before(p: Point, q: Point) {
    p.y < q.y || (p.y == q.y && p.x < q.x)
  }

  predicate RowMajor(s: seq<Point>) {
    forall i, j | 0 <= i < j < |s| :: Before(s[i], s[j])
  }

  predicate Distinct<T(==)>(s: seq<T>) {
    forall i, j | 0 <= i < j < |s| :: s[i] != s[j]
  }

  predicate Matches(v: int, t: int) { t == AnyValue || v == t }

  /** The inner loop of `GetSurrounding`: columns j..jhi of row i. */
  function ScanRow(b: Grid, i: int, j: int, jhi: int, t: int): (r: seq<Point>)
    requires 0 <= i < b.rows && 0 <= j && jhi < b.cols
    decreases jhi - j + 1
    ensures forall q :: q in r <==> q.y == i && j <= q.x <= jhi && Matches(Get(b, q), t)
    ensures RowMajor(r)
    ensures |r| <= Max(0, jhi - j + 1)
  {
    if j > jhi then []
    else
      var rest := ScanRow(b, i, j + 1, jhi, t);
      if Matches(b.cells[i][j], t) then [Point(j, i)] + rest else rest
  }

  /** The outer loop of `GetSurrounding`: rows i..ihi, columns jlo..jhi. */
  function ScanBlock(b: Grid, i: int, ihi: int, jlo: int, jhi: int, t: int): (r: seq<Point>)
    requires 0 <= i && ihi < b.rows && 0 <= jlo && jhi < b.cols
    requires jhi - jlo <= 2
    decreases ihi - i + 1
    ensures forall q :: q in r <==> i <= q.y <= ihi && jlo <= q.x <= jhi && Matches(Get(b, q), t)
    ensures RowMajor(r)
    ensures forall q | q in r :: i <= q.y
    ensures |r| <= 3 * Max(0, ihi - i + 1)
  {
    if i > ihi then []
    else
      var row := ScanRow(b, i, jlo, jhi, t);
      var rest := ScanBlock(b, i + 1, ihi, jlo, jhi, t);
      assert forall k | 0 <= k < |row| :: row[k] in row;
      assert forall k | 0 <= k < |rest| :: rest[k] in rest;
      row + rest
  }

  /**
    `GetSurrounding(x, y, type)`: the in-bounds cells of the 3x3 block centred
    on (x, y), centre included, whose value is `t` (every cell when `t` is -2),
    in row-major order.
   */
  function Surrounding(b: Grid, x: int, y: int, t: int): (r: seq<Point>)
    ensures forall q :: q in r <==> b.InBounds(q) && Near(q, x, y) && Matches(Get(b, q), t)
    ensures RowMajor(r)
    ensures |r| <= 9
  {
    ScanBlock(b, Max(0, y - 1), Min(b.rows - 1, y + 1), Max(0, x - 1), Min(b.cols - 1, x + 1), t)
  }

  /** A sequence whose neighbours are in row-major order is in row-major order. */
  lemma {:induction false} ChainIsRowMajor(s: seq<Point>)
    requires forall i | 0 <= i < |s| - 1 :: Before(s[i], s[i + 1])
    ensures RowMajor(s)
  {
    if |s| > 1 {
      ChainIsRowMajor(s[1..]);
      assert forall j | 1 <= j < |s| :: Before(s[0], s[j]) by {
        forall j | 1 <= j < |s|
          ensures Before(s[0], s[j])
        {
          if j > 1 {
            assert Before(s[1..][0], s[1..][j - 1]);
          }
        }
      }
    }
  }

  /** A row-major sequence never repeats a point. */
  lemma RowMajorDistinct(s: seq<Point>)
    requires RowMajor(s)
    ensures Distinct(s)
  {
  }

  /** A repeat-free sequence is no longer than any sequence holding all of it. */
  lemma DistinctSubsetLength<T>(a: seq<T>, b: seq<T>)
    requires Distinct(a)
    requires forall q | q in a :: q in b
    ensures |a| <= |b|
  {
    var sa := set q | q in a;
    var sb := set q | q in b;
    assert sa <= sb;
    DistinctCard(a);
    SeqSetCard(b);
    assert sb == sa + (sb - sa);
    assert sa * (sb - sa) == {};
  }

  lemma DistinctCard<T>(a: seq<T>)
    requires Distinct(a)
    ensures |set q | q in a| == |a|
  {
    if a != [] {
      var rest := set q | q in a[1..];
      DistinctCard(a[1..]);
      assert (set q | q in a) == rest + {a[0]};
      assert a[0] !in rest;
    }
  }

  lemma SeqSetCard<T>(a: seq<T>)
    ensures |set q | q in a| <= |a|
  {
    if a != [] {
      SeqSetCard(a[1..]);
      assert (set q | q in a) == (set q | q in a[1..]) + {a[0]};
    }
  }

  /** The full block of an in-bounds centre holds between one and nine cells. */
  lemma SurroundingSize(b: Grid, x: int, y: int)
    requires b.InBounds(Point(x, y))
    ensures 1 <= |Surrounding(b, x, y, AnyValue)| <= 9
  {
    assert Point(x, y) in Surrounding(b, x, y, AnyValue);
  }

  /** `GetSurroundingBombs`: the flagged cells of the block. */
  function SurroundingBombs(b: Grid, x: int, y: int): (r: seq<Point>)
    ensures forall q :: q in r <==> b.InBounds(q) && Near(q, x, y) && Get(b, q) == Flag
    ensures Distinct(r)
  {
    Surrounding(b, x, y, Flag)
  }

  /** `GetSurroundingClicks`: the covered cells of the block. */
  function SurroundingClicks(b: Grid, x: int, y: int): (r: seq<Point>)
    ensures forall q :: q in r <==> b.InBounds(q) && Near(q, x, y) && Get(b, q) == Covered
    ensures Distinct(r)
    ensures RowMajor(r)
  {
    Surrounding(b, x, y, Covered)
  }

  /** The loop of `GetSurroundingNumbers` from value k on. */
  function NumbersFrom(b: Grid, x: int, y: int, k: int): (r: seq<Point>)
    requires 0 <= k
    decreases 9 - k
    ensures forall q :: q in r <==> b.InBounds(q) && Near(q, x, y) && k <= Get(b, q) <= 8
    ensures forall i, j | 0 <= i < j < |r| :: Get(b, r[i]) <= Get(b, r[j])
    ensures Distinct(r)
  {
    if k > 8 then []
    else
      var here := Surrounding(b, x, y, k);
      var rest := NumbersFrom(b, x, y, k + 1);
      assert forall i | 0 <= i < |here| :: here[i] in here && Get(b, here[i]) == k;
      assert forall i | 0 <= i < |rest| :: rest[i] in rest && Get(b, rest[i]) > k;
      here + rest
  }

  /**
    `GetSurroundingNumbers`: the clue cells (0..8) of the block, grouped by
    ascending value.
   */
  function SurroundingNumbers(b: Grid, x: int, y: int): (r: seq<Point>)
    ensures forall q :: q in r <==> b.InBounds(q) && Near(q, x, y) && IsNumber(Get(b, q))
    ensures forall i, j | 0 <= i < j < |r| :: Get(b, r[i]) <= Get(b, r[j])
    ensures Distinct(r)
  {
    NumbersFrom(b, x, y, 0)
  }

  /** Being in each other's block is symmetric. */
  lemma NearSymmetric(p: Point, q: Point)
    ensures Near(p, q.x, q.y) <==> Near(q, p.x, p.y)
  {
  }

  /**
    The nested `for y` / `for x` scans over the whole grid, from row i on: the
    cells whose value matches t, in row-major order.
   */
  function CellsFrom(b: Grid, i: nat, t: int): (r: seq<Point>)
    decreases b.rows - i
    ensures forall q :: q in r <==> b.InBounds(q) && i <= q.y && Matches(Get(b, q), t)
    ensures RowMajor(r)
  {
    if i >= b.rows || b.cols == 0 then []
    else
      var row := ScanRow(b, i, 0, b.cols - 1, t);
      var rest := CellsFrom(b, i + 1, t);
      assert forall k | 0 <= k < |row| :: row[k] in row;
      assert forall k | 0 <= k < |rest| :: rest[k] in rest;
      row + rest
  }

  /** Every cell of the grid whose value matches t, in row-major order. */
  function Cells(b: Grid, t: int): (r: seq<Point>)
    ensures forall q :: q in r <==> b.InBounds(q) && Matches(Get(b, q), t)
    ensures RowMajor(r)
  {
    CellsFrom(b, 0, t)
  }

  // ---------------------------------------------------------------------------
  // Whole-board predicates

  /** The private constructor: every cell covered. */
  function Blank(cols: nat, rows: nat): (r: Grid)
    ensures r.cols == cols && r.rows == rows
    ensures forall p | r.InBounds(p) :: Get(r, p) == Covered
  {
    Board(cols, rows, seq(rows, _ => seq(cols, _ => Covered)))
  }

  /** `IsComplete`: no cell is covered. */
  ghost predicate IsComplete(b: Grid) {
    forall p | b.InBounds(p) :: Get(b, p) != Covered
  }

  /** `IsNew`: every cell is covered. */
  ghost predicate IsNew(b: Grid) {
    forall p | b.InBounds(p) :: Get(b, p) == Covered
  }

  /** `IsFailed`: some cell shows an exploded mine. */
  ghost predicate IsFailed(b: Grid) {
    exists p | b.InBounds(p) :: Get(b, p) == Exploded
  }

  /**
    How the three states relate: a failed board is not new; a board with a
    cell is never both complete and new; a board without cells is both, and
    not failed.
   */
  lemma BoardStates(b: Grid)
    ensures IsFailed(b) ==> !IsNew(b)
    ensures b.InBounds(Origin) ==> !(IsComplete(b) && IsNew(b))
    ensures !b.InBounds(Origin) ==> IsComplete(b) && IsNew(b) && !IsFailed(b)
  {
    if b.InBounds(Origin) && IsNew(b) {
      assert Get(b, Origin) == Covered;
    }
  }

  /** A blank board is new, and on a non-empty grid it is not complete. */
  lemma BlankIsNew(cols: nat, rows: nat)
    ensures IsNew(Blank(cols, rows))
    ensures cols > 0 && rows > 0 ==> !IsComplete(Blank(cols, rows))
    ensures !IsFailed(Blank(cols, rows))
  {
    var b := Blank(cols, rows);
    if cols > 0 && rows > 0 {
      assert b.InBounds(Point(0, 0)) && Get(b, Point(0, 0)) == Covered;
    }
  }

  /** Number of entries of a row that are not covered. */
  function RowUncovered(row: seq<int>): (n: nat)
    ensures n <= |row|
    ensures n == |row| <==> forall j | 0 <= j < |row| :: row[j] != Covered
    ensures n == 0 <==> forall j | 0 <= j < |row| :: row[j] == Covered
  {
    if row == [] then 0
    else (if row[0] != Covered then 1 else 0) + RowUncovered(row[1..])
  }

  /** Number of cells in rows 0..k-1 that are not covered. */
  function Uncovered(b: Grid, k: nat): (n: nat)
    requires k <= b.rows
    ensures n <= k * b.cols
    ensures n == k * b.cols <==> forall p | b.InBounds(p) && p.y < k :: Get(b, p) != Covered
    ensures n == 0 <==> forall p | b.InBounds(p) && p.y < k :: Get(b, p) == Covered
  {
    if k == 0 then 0
    else
      var row := b.cells[k - 1];
      var m := RowUncovered(row);
      var rest := Uncovered(b, k - 1);
      assert k * b.cols == (k - 1) * b.cols + b.cols;
      assert forall p | b.InBounds(p) && p.y == k - 1 :: Get(b, p) == row[p.x];
      assert forall j | 0 <= j < |row| :: row[j] == Get(b, Point(j, k - 1));
      rest + m
  }

  /**
    `Score`: the percentage of cells that are not covered, truncated. The
    source divides by the cell count in floating point; on an empty grid that
    is 0/0, so the model returns no score there.
   */
  function Score(b: Grid): (s: Option<int>)
    ensures b.rows * b.cols == 0 <==> s.None?
    ensures s.Some? ==> 0 <= s.value <= 100
    ensures s.Some? && IsComplete(b) ==> s.value == 100
    ensures s.Some? && IsNew(b) ==> s.value == 0
  {
    var n := b.rows * b.cols;
    if n == 0 then None
    else
      var c := Uncovered(b, b.rows);
      PercentBounds(c, n);
      Some((100 * c) / n)
  }

  /** Truncated percentage of c out of n, for 0 <= c <= n. */
  lemma PercentBounds(c: nat, n: nat)
    requires 0 < n && c <= n
    ensures 0 <= (100 * c) / n <= 100
    ensures c == n ==> (100 * c) / n == 100
    ensures c == 0 ==> (100 * c) / n == 0
  {
    assert 100 * c <= 100 * n;
    assert (100 * n) / n == 100;
  }

  datatype Option<T> = None | Some(value: T)

  /** The skip rule of `Update`: without `full`, cells holding 0..8, 100 or any other non-negative code but 9 are kept. */
  predicate KeptByUpdate(v: int, full: bool) {
    !full && v >= 0 && v != Flag
  }

  /**
    `Update(image, full)`: re-reads the board. `read(p, v)` stands for
    `UpdateSquare` on cell p that held v (the pixel classification is not
    modelled; when no colour matches, the square keeps v, so the old value is
    an argument).
   */
  function Update(b: Grid, read: (Point, int) -> int, full: bool): (r: Grid)
    ensures r.cols == b.cols && r.rows == b.rows
    ensures forall p | b.InBounds(p) && KeptByUpdate(Get(b, p), full) :: Get(r, p) == Get(b, p)
    ensures forall p | b.InBounds(p) && !KeptByUpdate(Get(b, p), full) :: Get(r, p) == read(p, Get(b, p))
  {
    Board(b.cols, b.rows,
      seq(b.rows, y requires 0 <= y < b.rows =>
        seq(b.cols, x requires 0 <= x < b.cols =>
          var v := b.cells[y][x];
          if KeptByUpdate(v, full) then v else read(Point(x, y), v))))
  }

  /** A partial update keeps every revealed clue and exploded mine. */
  lemma PartialUpdateKeepsRevealed(b: Grid, read: (Point, int) -> int, p: Point)
    requires b.InBounds(p)
    requires IsNumber(Get(b, p)) || Get(b, p) == Exploded
    ensures Get(Update(b, read, false), p) == Get(b, p)
  {
  }

  /**
    `Board(Bitmap)`: a blank board of the detected size is filled with -2 and
    then fully updated, so every cell is whatever the reader reports for an
    unread cell.
   */
  function FromReading(cols: nat, rows: nat, read: (Point, int) -> int): (r: Grid)
    ensures r.cols == cols && r.rows == rows
    ensures forall p | r.InBounds(p) :: Get(r, p) == read(p, Unread)
  {
    var unread := Board(cols, rows, seq(rows, _ => seq(cols, _ => Unread)));
    assert forall p | unread.InBounds(p) :: Get(unread, p) == Unread;
    Update(unread, read, true)
  }

  // ---------------------------------------------------------------------------
  // Sequence facts

  /** Overwriting entry d and then dropping the entries before it. */
  lemma UpdateSlice<T>(list: seq<T>, d: nat, x: T)
    requires d < |list|
    ensures list[d := x][d..] == [x] + list[d + 1..]
    ensures list[d := x][d + 1..] == list[d + 1..]
  {
  }

  lemma SplitAt<T>(v: seq<T>, d: nat)
    requires d < |v|
    ensures v[d..] == [v[d]] + v[d + 1..]
  {
  }

  lemma Regroup<T>(w: seq<T>, x: seq<T>, y: seq<T>, z: seq<T>)
    ensures (w + x) + (y + z) == w + x + y + z
  {
  }

  lemma TailOfAppend<T>(xs: seq<T>, ys: seq<T>)
    requires xs != []
    ensures (xs + ys)[0] == xs[0] && (xs + ys)[1..] == xs[1..] + ys
  {
  }

  lemma Associative<T>(x: seq<T>, y: seq<T>, z: seq<T>)
    ensures x + (y + z) == (x + y) + z
  {
  }

  lemma MultisetAppend<T>(x: seq<T>, y: seq<T>)
    ensures multiset(x + y) == multiset(x) + multiset(y)
  {
  }

  // ---------------------------------------------------------------------------
  // Shared by the search solvers

  /** A `Dictionary`'s keys after adding s in order, skipping those in seen: first occurrences, in order. */
  function Dedup<T(==,!new)>(s: seq<T>, seen: seq<T>): (r: seq<T>)
    ensures Distinct(r)
    ensures forall x :: x in r <==> x in s && x !in seen
  {
    if s == [] then []
    else if s[0] in seen then Dedup(s[1..], seen)
    else
      var rest := Dedup(s[1..], seen + [s[0]]);
      assert forall k | 0 <= k < |rest| :: rest[k] in rest;
      [s[0]] + rest
  }

  /** The number of boards with a flag on p. */
  function MinesAt(boards: seq<Grid>, p: Point): (n: nat)
    requires forall g | g in boards :: g.InBounds(p)
    ensures n <= |boards|
    ensures n == 0 <==> forall g | g in boards :: Get(g, p) != Flag
    ensures n == |boards| <==> forall g | g in boards :: Get(g, p) == Flag
  {
    if boards == [] then 0
    else
      assert boards[0] in boards;
      assert forall g | g in boards[1..] :: g in boards;
      assert forall g | g in boards :: g == boards[0] || g in boards[1..];
      (if Get(boards[0], p) == Flag then 1 else 0) + MinesAt(boards[1..], p)
  }
}
