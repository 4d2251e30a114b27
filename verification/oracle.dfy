/**
  Board helpers whose bodies are not part of this model (`IsValid`,
  `IsFulfilled`, `IsBombful`, `GetBorderSquares`, `GetConnectedSquares`).
  They are left uninterpreted: each solver takes an `Oracle` holding one
  function per helper, and nothing is required of them beyond `Sound`
  where a solver indexes the grid with their results.
  The copy constructor `new Board(board)` is the identity on values and
  `SetSquare` is `Boards.Set`.
 */
module Oracles {
  import opened Boards

  datatype Oracle = Oracle(
    /** `board.IsValid()` */
    isValid: Grid -> bool,
    /** `board.IsFulfilled(x, y)` */
    isFulfilled: (Grid, Point) -> bool,
    /** `board.IsBombful(squares)` */
    isBombful: (Grid, seq<Point>) -> bool,
    /** `board.GetBorderSquares()` */
    border: Grid -> seq<Point>,
    /** `board.GetConnectedSquares(p, border)` */
    connected: (Grid, Point, seq<Point>) -> seq<Point>)
  {
    /**
      Required of the unseen helpers: the squares they return lie on the grid
      they were asked about (the solvers index and click them unchecked).
     */
    ghost predicate Sound() {
      && (forall g: Grid, p | p in border(g) :: g.InBounds(p))
      && (forall g: Grid, c, bd, p | p in connected(g, c, bd) :: g.InBounds(p))
    }
  }
}
