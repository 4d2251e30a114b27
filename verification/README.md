# MinesweeperSolver, board reasoning, in Dafny

This project models the board-reasoning core of MinesweeperSolver, a bot that plays Windows Minesweeper from screenshots. It covers the following parts:

- **The board** (`Boards`, board.dfy). A grid of integer cell codes, kept as the program's integers:
  - -3 is clicked by the solver but not yet re-read;
  - -2 is unread;
  - -1 is covered;
  - 0..8 are clues;
  - 9 is a flag;
  - 100 is an exploded mine.

  The board module also holds:
  - the 3×3-with-centre neighbourhood queries, shared by `Board` and `SweeperHelper`;
  - `IsComplete`, `IsNew`, `IsFailed` and `Score`;
  - the blank constructor;
  - the cell-skip rule of `Update`.
- **Clicks and the one-pass deduction** (`Deduction`). A click is a grid update. `Solver.DoMove` and the deduction half of `MineSolver.DoBestSweeperActions` are a single row-major pass, modelled as written: a flag (9) is tested like a clue, as the first Findings row shows. Later cells see earlier writes.
- **Local heuristics and guessing:**
  - `SweeperHelper.GetBombProbability` (`Heuristics`);
  - `MineSolver.DoBestSweeperActions` (`MineSolver`);
  - `ProbabilitySolver` (`ProbabilitySolver`);
  - the shared "lowest value, first wins" loop (`Selection`).
- **NewSolver:**
  - the border flood fill `GetBorderGroup`/`GetBorderGroups` (`BorderGroups`);
  - the exhaustive `GetValidBoards` (`Enumeration`);
  - the move built on them, `DoMove` (`NewSolver`).
- **SmartSolver** (`SmartSolver`):
  - the choice of the searched set, the size cutoff and the `_minMines` bound;
  - `ApplyBorderFlags` and the flag-vector enumeration `GetFlagCombinations`, kept as written: an assignment is collected once per node whose partial vector equals it;
  - the `_locs` tally, the uncovering, flag and guess steps, and the whole `DoMove`.
- **Sub-image search** (`Screen`). `ScreenHelper.GetBitmapPosition` over locked bitmap bytes.

Some helpers are called but their bodies are not part of this model:
- `IsValid`, `IsFulfilled`, `IsBombful`, `GetBorderSquares` and `GetConnectedSquares` are fields of an `Oracle` datatype (oracle.dfy). Only one thing is required of them: the squares they return are on the grid.
- The copy constructor is the identity on values, and `SetSquare` is `Boards.Set`.

Outside effects become parameters:
- The "window lost" checks of the deduction pass are a per-row predicate `lost`.
- `MineSolver.Running` and the ten-second stopwatch are abort oracles indexed by the search path.
- `ClickRandom` is the outcome `Random`.

## Model

| member | source | states |
|---|---|---|
| Boards.Set | MinesweeperSolver/Board.cs:117-128 | writing a cell changes that cell to the value and no other cell; reads are `Squares[y, x]` with x the column |
| Boards.Extensionality | MinesweeperSolver/Board.cs:11-13 | two boards of the same size that agree on every in-bounds cell are the same board |
| Boards.SetSet | MinesweeperSolver/Board.cs:117-128 | writing a cell twice leaves only the second value |
| Boards.SetSame | MinesweeperSolver/Board.cs:117-128 | writing a cell's own value back changes nothing |
| Boards.ScanRow | MinesweeperSolver/Board.cs:173-176 | the inner column loop collects exactly the cells of row i in the column range whose code matches the type (or every cell for type -2), left to right |
| Boards.ScanBlock | MinesweeperSolver/Board.cs:172-177 | the two loops collect exactly the matching cells of the clipped row and column ranges, in row-major order |
| Boards.Surrounding | MinesweeperSolver/Board.cs:170-179 | `GetSurrounding` returns exactly the in-bounds cells of the 3×3 block, centre included, that match the type, in row-major order, at most 9 |
| Boards.SurroundingSize | MinesweeperSolver/Board.cs:170-179 | for an in-bounds centre the unfiltered block has between 1 and 9 cells |
| Boards.RowMajorDistinct | MinesweeperSolver/Board.cs:170-179 | a list in strict row-major order has no repeats, so the neighbourhood lists are duplicate-free |
| Boards.SurroundingBombs | MinesweeperSolver/Board.cs:136-138 | exactly the block cells holding 9, without repeats |
| Boards.SurroundingClicks | MinesweeperSolver/SweeperHelper.cs:27-29 | exactly the block cells holding -1, without repeats, in row-major order; the `SweeperHelper` copy has the same meaning |
| Boards.NumbersFrom | MinesweeperSolver/Board.cs:158-159 | the loop from clue value k on collects exactly the block cells with values k..8, in ascending value order, without repeats |
| Boards.SurroundingNumbers | MinesweeperSolver/Board.cs:156-161 | exactly the block cells with values 0..8, ascending by value, without repeats |
| Boards.NearSymmetric | MinesweeperSolver/Board.cs:172-173 | q is in p's 3×3 block iff p is in q's |
| Boards.CellsFrom | MinesweeperSolver/MineSolver.cs:150-153 | the row-major sweep from row i on lists exactly the cells of those rows with the requested code |
| Boards.Cells | MinesweeperSolver/MineSolver.cs:150-153 | the full row-major sweep lists exactly the board's cells with the requested code, in order |
| Boards.Blank | MinesweeperSolver/Board.cs:18-27 | the blank constructor makes a board of the given size with every cell -1 |
| Boards.BoardStates | MinesweeperSolver/Board.cs:45-47 | a failed board is not new; a board with a cell is never both complete and new; a board without cells is both, and not failed |
| Boards.BlankIsNew | MinesweeperSolver/Board.cs:45-47 | a blank board is new and not failed, and if it has a cell it is not complete |
| Boards.RowUncovered | MinesweeperSolver/Board.cs:48 | the count of non-covered cells in a row is at most its length, equals it iff no cell is -1, and is zero iff every cell is -1 |
| Boards.Uncovered | MinesweeperSolver/Board.cs:45-48 | the count over the first k rows is at most k·cols, equals it iff none of those cells is -1 (`IsComplete`), and is zero iff all are -1 (`IsNew`) |
| Boards.Score | MinesweeperSolver/Board.cs:48 | for a board with cells the score lies in 0..100, is 100 when complete and 0 when new; an empty board has no score |
| Boards.Update | MinesweeperSolver/Board.cs:56-64 | cells holding 0..8 or 100 keep their value on a non-full update, and every other cell is re-read |
| Boards.PartialUpdateKeepsRevealed | MinesweeperSolver/Board.cs:59-60 | a revealed clue or exploded mine survives a non-full update unchanged |
| Boards.FromReading | MinesweeperSolver/Board.cs:33-42 | the screenshot constructor fills every cell with -2 and then reads every cell in a full update |
| Boards.Dedup | MinesweeperSolver/solvers/NewSolver.cs:58-71 | the dictionary's keys, in first-insertion order, are exactly the listed points not already present, without repeats |
| Boards.MinesAt | MinesweeperSolver/solvers/NewSolver.cs:60-70 | the number of boards with 9 at a point is at most the number of boards, zero iff none has 9 there, and all iff every one has |
| Deduction.Click | MinesweeperSolver/solvers/Solver.cs:56-70 | a click on a non-covered cell changes nothing; on a covered cell it writes 9 for a flag and -3 for an uncovering click; no other cell changes |
| Deduction.ClickList | MinesweeperSolver/solvers/Solver.cs:87-90 | clicking a list turns exactly the listed covered cells into the mark and leaves all else |
| Deduction.ClickMonotone | MinesweeperSolver/MineSolver.cs:67-80 | a click only turns covered cells into 9 or -3, and changes the board iff the target was covered |
| Deduction.ClickListMonotone | MinesweeperSolver/MineSolver.cs:100-103 | clicking a list only turns covered cells into 9 or -3 |
| Deduction.MonotoneTrans | MinesweeperSolver/solvers/Solver.cs:124-143 | successive clicks compose: covered-to-marked changes chain, and the result differs iff some step changed something |
| Deduction.UnchangedIsSame | MinesweeperSolver/solvers/Solver.cs:124-143 | a monotone step that changed no cell returns the same board |
| Deduction.MonotoneRefl | MinesweeperSolver/solvers/Solver.cs:124-143 | doing nothing is a monotone step that changes nothing |
| Deduction.ChangedDiffers | MinesweeperSolver/solvers/Solver.cs:150 | a board in which some cell changed is a different board |
| Deduction.Step | MinesweeperSolver/solvers/Solver.cs:126-142 | one cell of the pass: the uncover rule fires only when value minus flags is 0 and turns every covered block cell into -3; the flag rule fires only when value equals covered plus flags and flags every covered block cell; never both; a rule fires iff the board changed; a firing cell holds at least 1 |
| Deduction.StepRules | MinesweeperSolver/solvers/Solver.cs:126-131 | the two rules never both fire on a cell, and a cell holding 0 or a negative code fires nothing |
| Deduction.PassRow | MinesweeperSolver/solvers/Solver.cs:125-143 | the pass over one row only turns covered cells into 9 or -3, reports a firing iff something changed, and every cell it changes has, on the board it leaves, a cell of at least 1 (at most 8 in the clue-only pass) in its 3x3 block — the cell whose rule changed it |
| Deduction.PassFrom | MinesweeperSolver/solvers/Solver.cs:124-149 | the pass from row y on changes only covered cells, reports firing iff something changed, stops early only at a row where the window was lost, and every cell it changes has a firing-capable cell (at least 1; at most 8 when clue-only) in its 3x3 block on the board it leaves |
| Deduction.Pass | MinesweeperSolver/MineSolver.cs:116-143 | the whole pass changes only covered cells, reports firing iff something changed, returns the board untouched when nothing fired, and every cell it changes lies in the 3x3 block of a cell holding at least 1 when the pass ends (at most 8 in the clue-only pass) |
| Deduction.ExplainedTrans | MinesweeperSolver/solvers/Solver.cs:124-149 | a change explained after one stretch of the sweep stays explained after the next, because later firings only uncover or flag covered cells and never change the cell that explained it |
| Deduction.DoMove | MinesweeperSolver/solvers/Solver.cs:119-151 | `Solver.DoMove` runs the pass as written, flag-as-clue case included; its result is true only when the board changed, and, with the window kept, true exactly when it changed; only covered cells change |
| Deduction.NoCellsNoMove | MinesweeperSolver/solvers/Solver.cs:119-151 | on a board without cells the pass fires nothing and `DoMove` returns false |
| Deduction.CorrectedPassNeedsClues | MinesweeperSolver/solvers/Solver.cs:126-142 | with the rules restricted to clue cells, a board with no clue on it is left unchanged and reports no firing |
| Deduction.CorrectedRowNeedsClues | MinesweeperSolver/solvers/Solver.cs:125-143 | the same for one row of the restricted pass |
| Deduction.CorrectedFromNeedsClues | MinesweeperSolver/solvers/Solver.cs:124-149 | the same for the restricted pass from any row on |
| Deduction.FlagInCovered | MinesweeperSolver/solvers/Solver.cs:139-142 | the witness board: 3×3, a 9 in the centre, every other cell -1 |
| Deduction.FlagInCoveredCounts | MinesweeperSolver/solvers/Solver.cs:128-129 | on that board the centre sees 8 covered cells and one flag, itself |
| Deduction.FlagActsAsClue | MinesweeperSolver/solvers/Solver.cs:139-142 | as written, a flag with only covered neighbours satisfies 9 = covered + flags and flags all eight neighbours although the board holds no clue; the restricted rule does nothing there |
| Selection.FirstMin | MinesweeperSolver/solvers/ProbabilitySolver.cs:44-52 | the "skip if >= lowest, else take" loop returns -1 iff no value is below the start value; otherwise the index of a minimum, strictly below every earlier value (first wins on ties) |
| Selection.MinFrom | MinesweeperSolver/MineSolver.cs:150-161 | the same loop resumed at index k with the best-so-far kept |
| Heuristics.BombProbability | MinesweeperSolver/SweeperHelper.cs:71-77 | 100 for a cell holding 9 or 100, 0 for a revealed clue |
| Heuristics.SmallestClueDecides | MinesweeperSolver/SweeperHelper.cs:79-89 | for a covered cell: 101 when no neighbour is a clue; 0 when some neighbouring clue is 0; otherwise 100 when some neighbouring clue is 1, since clues are visited in ascending order |
| Heuristics.CoveredCellFeedsEveryClue | MinesweeperSolver/SweeperHelper.cs:90-92 | a covered cell lies in the covered list of each neighbouring clue, so the `clicks.Count == 0` guard is never taken |
| Heuristics.BombProbabilityIsMean | MinesweeperSolver/SweeperHelper.cs:95-101 | when every neighbouring clue is at least 2, the result is the mean over them of 100·(value − flags)/covered |
| Heuristics.MeanLoopIsMean | MinesweeperSolver/SweeperHelper.cs:84-101 | the loop from clue i on, with a running sum, ends at (sum + the remaining ratios) over the number of clues |
| Heuristics.LoopSmallestFirst | MinesweeperSolver/SweeperHelper.cs:84-89 | over a value-sorted clue list the loop returns 0 if a 0 is present, else 100 if a 1 is present |
| Heuristics.CoveredBelowSentinel | MinesweeperSolver/MineSolver.cs:148-156 | on any board, every covered cell's estimate is at most 800, so always below the 1000 start of the guess loop |
| MineSolver.Probability | MinesweeperSolver/MineSolver.cs:150-156 | the estimate the guessing loop compares is at most 800 on a covered cell, so below its start of 1000, and 100 on a flag or an exploded mine |
| MineSolver.GuessBy | MinesweeperSolver/MineSolver.cs:148-161 | the guessing loop's target is a covered cell or, when it never moves, (0, 0) |
| MineSolver.GuessNoneCovered | MinesweeperSolver/MineSolver.cs:148-149 | with no covered cell the target stays (0, 0) and the minimum stays 1000 |
| MineSolver.GuessByIsFirstMinimal | MinesweeperSolver/MineSolver.cs:150-161 | when some cell is covered and every estimate is below 1000, the target is covered, carries the least estimate, and every covered cell before it in row-major order has a strictly larger one |
| MineSolver.FirstMinIsFirst | MinesweeperSolver/MineSolver.cs:150-161 | over a row-major candidate list, first-wins by index is first-wins in row-major order |
| MineSolver.GuessIsFirstMinimal | MinesweeperSolver/MineSolver.cs:150-161 | with a covered cell present, the guess is the covered cell of least `GetBombProbability`, first in row-major order on ties |
| MineSolver.BestActions | MinesweeperSolver/MineSolver.cs:109-165 | runs the pass as written; returns true whenever it returns and only turns covered cells into 9 or -3; throws (the click reads (0, 0) off the board) exactly when the board has no cells and the window was not lost |
| MineSolver.GuessClick | MinesweeperSolver/MineSolver.cs:144-164 | when the pass as written fires nothing, the window stays and a cell is covered, the move returns and exactly the guessed cell changes, to 9 iff its probability exceeds 50, else to -3 |
| MineSolver.NothingCoveredNoChange | MinesweeperSolver/MineSolver.cs:149-163 | on a board with cells but none covered, nothing fires, the default target (0, 0) is clicked, the click does nothing, and the result is true |
| MineSolver.BestActionsProgress | MinesweeperSolver/MineSolver.cs:109-165 | with a covered cell and the window kept, the call always changes the board |
| ProbabilitySolver.Trunc | MinesweeperSolver/solvers/ProbabilitySolver.cs:27 | the `(int)` cast truncates toward zero |
| ProbabilitySolver.TruncMax | MinesweeperSolver/solvers/ProbabilitySolver.cs:27 | `(int) Math.Max(t, m)` equals the larger of m and the truncation of t |
| ProbabilitySolver.Spread | MinesweeperSolver/solvers/ProbabilitySolver.cs:26-27 | every listed cell's entry becomes the larger of its entry and the truncated estimate; others are untouched |
| ProbabilitySolver.Accumulate | MinesweeperSolver/solvers/ProbabilitySolver.cs:15-29 | after the clue sweep each entry is the running maximum over the clues that reach it |
| ProbabilitySolver.Filled | MinesweeperSolver/solvers/ProbabilitySolver.cs:10-14 | the fresh table holds -1 everywhere |
| ProbabilitySolver.Finalize | MinesweeperSolver/solvers/ProbabilitySolver.cs:31-36 | entries still -1 become 101; the rest are kept |
| ProbabilitySolver.Probabilities | MinesweeperSolver/solvers/ProbabilitySolver.cs:9-37 | `UpdateProbabilities` gives a table of the board's size whose every entry is 101 or lies in 0..800 |
| ProbabilitySolver.RawFromIsMax | MinesweeperSolver/solvers/ProbabilitySolver.cs:15-29 | the sweep's value for a cell is at least its start, at least every contributing estimate, and equals the start or one of them |
| ProbabilitySolver.EstimateAtMost | MinesweeperSolver/solvers/ProbabilitySolver.cs:24-25 | one clue's truncated estimate is at most 800 |
| ProbabilitySolver.ProbabilitiesSpec | MinesweeperSolver/solvers/ProbabilitySolver.cs:9-37 | every entry is 101 or in 0..800; it is 101 when no contributing clue gives a non-negative estimate, otherwise the maximum of the contributing estimates |
| ProbabilitySolver.OnlyBorderEstimated | MinesweeperSolver/solvers/ProbabilitySolver.cs:15-35 | a cell that is not covered, or has no neighbouring clue, ends at 101 |
| ProbabilitySolver.EstimateIsQuotient | MinesweeperSolver/solvers/ProbabilitySolver.cs:24-27 | for a non-negative remainder the truncated percentage is the integer quotient 100·(value − flags) / covered |
| ProbabilitySolver.LowestOnBorder | MinesweeperSolver/solvers/ProbabilitySolver.cs:44-52 | the chosen square is a border square or, if the loop never moves, (0, 0) |
| ProbabilitySolver.LowestOnBorderSpec | MinesweeperSolver/solvers/ProbabilitySolver.cs:44-52 | with entries below 1000, an empty border leaves (0, 0) and 1000; otherwise the choice is a border square of least entry, strictly below every earlier one |
| ProbabilitySolver.BorderGuess | MinesweeperSolver/solvers/ProbabilitySolver.cs:43-52 | the guess is on the grid or is (0, 0) |
| ProbabilitySolver.BorderGuessSpec | MinesweeperSolver/solvers/ProbabilitySolver.cs:43-52 | the guess is the first border square of least computed probability, or (0, 0) with 1000 for an empty border |
| ProbabilitySolver.ProbMove | MinesweeperSolver/solvers/ProbabilitySolver.cs:39-58 | returns true whenever it returns and only covered cells change; if the base pass fired, its board is the move; it throws (the click reads (0, 0) off the board) exactly when the pass did not fire and the board has no cells |
| ProbabilitySolver.ProbMoveGuess | MinesweeperSolver/solvers/ProbabilitySolver.cs:42-57 | when the base pass as written changed nothing on a board with cells, the move returns and only the guessed square changes, flagged iff the lowest probability is at least 100 and revealed otherwise |
| ProbabilitySolver.GuessClick | MinesweeperSolver/solvers/ProbabilitySolver.cs:43-56 | the guess on the board the pass left: only the guessed square changes, flagged iff the lowest probability is at least 100 (the `> 50` test is then redundant) and revealed otherwise |
| BorderGroups.GroupBound | MinesweeperSolver/solvers/NewSolver.cs:209-213 | a duplicate-free group of in-bounds cells is no larger than the grid, the measure the recursion descends on |
| BorderGroups.GroupFrom | MinesweeperSolver/solvers/NewSolver.cs:205-219 | `GetBorderGroup(p)` only appends, adds p exactly when p is covered, has a neighbouring clue and is not yet present, never adds duplicates, and leaves the part it added closed |
| BorderGroups.GroupList | MinesweeperSolver/solvers/NewSolver.cs:214-217 | the loop over covered neighbours adds every qualifying one and keeps the group duplicate-free and closed |
| BorderGroups.BorderGroup | MinesweeperSolver/solvers/NewSolver.cs:194-195 | the group of a starting point is empty if it does not qualify, and otherwise starts with it |
| BorderGroups.BorderGroupClosed | MinesweeperSolver/solvers/NewSolver.cs:211-217 | every covered, clue-adjacent neighbour of a group member is a member |
| BorderGroups.BorderGroupIsComponent | MinesweeperSolver/solvers/NewSolver.cs:205-219 | the group lies inside every closed set that contains its start, so it is the start's connected component |
| BorderGroups.OutsideClosed | MinesweeperSolver/solvers/NewSolver.cs:211-217 | the qualifying cells outside a closed set form a closed set |
| BorderGroups.RemoveFirst | MinesweeperSolver/solvers/NewSolver.cs:198 | `List.Remove` drops one occurrence if present and nothing otherwise |
| BorderGroups.RemoveAll | MinesweeperSolver/solvers/NewSolver.cs:197-198 | removing a group removes its elements as a multiset, and shrinks the list when the group's first element is in it |
| BorderGroups.RemoveAllMembers | MinesweeperSolver/solvers/NewSolver.cs:197-198 | what remains is from the list, and every list element outside the group remains |
| BorderGroups.RemoveAllDistinct | MinesweeperSolver/solvers/NewSolver.cs:197-198 | from a duplicate-free list, removal leaves no group element behind |
| BorderGroups.GroupsFromTerminates | MinesweeperSolver/solvers/NewSolver.cs:192-201 | the loop ends iff every border square is covered with a neighbouring clue; otherwise some round removes nothing and it spins |
| BorderGroups.GroupsFromStep | MinesweeperSolver/solvers/NewSolver.cs:192-201 | one round takes the group of the first square, removes at least one square and leaves the rest to the next rounds |
| BorderGroups.GroupsCover | MinesweeperSolver/solvers/NewSolver.cs:192-201 | every border square lands in some group |
| BorderGroups.GroupsClosed | MinesweeperSolver/solvers/NewSolver.cs:192-201 | every group is non-empty, duplicate-free and closed |
| BorderGroups.GroupsAvoid | MinesweeperSolver/solvers/NewSolver.cs:192-201 | no group reaches into a closed set that the border avoids |
| BorderGroups.GroupsDisjoint | MinesweeperSolver/solvers/NewSolver.cs:192-201 | from a duplicate-free border the groups are pairwise disjoint |
| BorderGroups.BorderGroups | MinesweeperSolver/solvers/NewSolver.cs:187-203 | `GetBorderGroups` returns iff every border square qualifies |
| Enumeration.Apply | MinesweeperSolver/solvers/NewSolver.cs:166-177 | writing values along the border keeps the board's size |
| Enumeration.ApplyCells | MinesweeperSolver/solvers/NewSolver.cs:172-177 | on a duplicate-free border each border square gets its value and every other cell is kept |
| Enumeration.ChecksFromMeans | MinesweeperSolver/solvers/NewSolver.cs:126-143 | the leaf loop from border index i on holds iff every listed clue of those squares is fulfilled |
| Enumeration.FulfilledFromMeans | MinesweeperSolver/solvers/NewSolver.cs:126-143 | the leaf check holds iff every clue next to a border square is fulfilled |
| Enumeration.ClueLoop | MinesweeperSolver/solvers/NewSolver.cs:131-139 | the inner loop holds iff every listed clue is fulfilled |
| Enumeration.Search | MinesweeperSolver/solvers/NewSolver.cs:119-180 | `GetValidBoards` crashes only on an empty border; otherwise it adds at most 2^remaining boards, each of the board's size |
| Enumeration.Branch | MinesweeperSolver/solvers/NewSolver.cs:174-179 | one guarded recursive call: the same bounds for the subtree |
| Enumeration.Join | MinesweeperSolver/solvers/NewSolver.cs:174-179 | the mine subtree's boards come before the covered subtree's, and the stop flag is set if either set it |
| Enumeration.ValidBoards | MinesweeperSolver/solvers/NewSolver.cs:119-180 | crashes iff the border is empty and the search runs; a search that is not running adds nothing; otherwise at most 2^n boards of the board's size |
| Enumeration.Assignments | MinesweeperSolver/solvers/NewSolver.cs:174-179 | the reference list of mine/covered assignments of length n has 2^n entries, each of length n and made of 9s and -1s only |
| Enumeration.Expected | MinesweeperSolver/solvers/NewSolver.cs:144-146 | the reference result: the completed boards of surviving assignments, in order, never more than the assignments |
| Enumeration.ExpectedSplit | MinesweeperSolver/solvers/NewSolver.cs:174-179 | the reference splits into the mine-first half followed by the covered half |
| Enumeration.ExpectedPruned | MinesweeperSolver/solvers/NewSolver.cs:175-178 | below a prefix that `IsValid` rejects nothing is kept |
| Enumeration.SearchMatches | MinesweeperSolver/solvers/NewSolver.cs:119-180 | with no abort, the search from any valid prefix returns exactly the reference list, unstopped |
| Enumeration.BranchMatches | MinesweeperSolver/solvers/NewSolver.cs:174-179 | the same for a guarded branch |
| Enumeration.ExpectedMembers | MinesweeperSolver/solvers/NewSolver.cs:123-157 | a board is in the reference list iff some assignment completing the prefix survives every check and yields it |
| Enumeration.AssignmentsComplete | MinesweeperSolver/solvers/NewSolver.cs:174-179 | every mine/covered vector of length n is enumerated |
| Enumeration.SearchSound | MinesweeperSolver/solvers/NewSolver.cs:119-180 | under any aborts, what the search keeps is a sub-list of the reference, in order |
| Enumeration.BranchSound | MinesweeperSolver/solvers/NewSolver.cs:174-179 | the same for a guarded branch |
| Enumeration.ValidBoardsComplete | MinesweeperSolver/solvers/NewSolver.cs:119-180 | with no abort and a non-empty border, the result is exactly the reference list |
| Enumeration.ValidBoardsKept | MinesweeperSolver/solvers/NewSolver.cs:119-180 | under any aborts, the result is a sub-list of the reference |
| Enumeration.ValidBoardsSound | MinesweeperSolver/solvers/NewSolver.cs:123-157 | every collected board is the completion of a surviving assignment |
| Enumeration.ValidBoardsAccepted | MinesweeperSolver/solvers/NewSolver.cs:144-146 | every collected board has every border clue fulfilled and is valid |
| NewSolver.PickBorder | MinesweeperSolver/solvers/NewSolver.cs:28-32 | the searched set is the whole border when no group is strictly smaller, else the first group of minimum size, strictly smaller than the border |
| NewSolver.Hits | MinesweeperSolver/solvers/NewSolver.cs:62-70 | one board adds at most the border's length to a point's count |
| NewSolver.HitsDistinct | MinesweeperSolver/solvers/NewSolver.cs:62-70 | on a duplicate-free border a board adds 1 to a border point's count iff it has 9 there |
| NewSolver.Count | MinesweeperSolver/solvers/NewSolver.cs:58-71 | a point off the border is counted 0 times, and on a border without repeats no point is counted more often than there are boards |
| NewSolver.HitsAbsent | MinesweeperSolver/solvers/NewSolver.cs:62-70 | points off the border are never counted |
| NewSolver.CountIsMines | MinesweeperSolver/solvers/NewSolver.cs:58-71 | a border point's count is the number of valid boards with 9 there |
| NewSolver.DecideStep | MinesweeperSolver/solvers/NewSolver.cs:78-107 | one key: when not stopped, a covered key with probability 0 becomes -3 and one with probability at least 1 becomes 9, no other cell changes, and the recorded highest certainty never drops and covers both sides of this key (the mine side only when not stopped) |
| NewSolver.Decide | MinesweeperSolver/solvers/NewSolver.cs:78-108 | the key loop keeps the board's size |
| NewSolver.DecideBoard | MinesweeperSolver/solvers/NewSolver.cs:78-92 | when not stopped, a covered key with probability 0 becomes -3 and one with probability 1 becomes 9; nothing else changes |
| NewSolver.DecideFound | MinesweeperSolver/solvers/NewSolver.cs:80-92 | a guarantee is found iff, when not stopped, some key has probability 0 or at least 1 |
| NewSolver.DecideHighest | MinesweeperSolver/solvers/NewSolver.cs:94-107 | the highest certainty never drops and bounds every key's empty side (and mine side when not stopped); the recorded point is a key carrying it |
| NewSolver.DecideMonotone | MinesweeperSolver/solvers/NewSolver.cs:78-92 | the key loop only turns covered cells into 9 or -3 |
| NewSolver.DecideUntouched | MinesweeperSolver/solvers/NewSolver.cs:78-92 | when stopped, or no probability is 0 or 1, the loop clicks nothing and finds no guarantee |
| NewSolver.DecideGuess | MinesweeperSolver/solvers/NewSolver.cs:94-114 | then the recorded point's certainty bounds every key's empty side, and its mine side when not stopped; a stopped search flags only when every key is a certain mine |
| NewSolver.Decided | MinesweeperSolver/solvers/NewSolver.cs:73-108 | the recorded point is a border square |
| NewSolver.Conclude | MinesweeperSolver/solvers/NewSolver.cs:73-116 | the final board has the board's size |
| NewSolver.ConcludeMonotone | MinesweeperSolver/solvers/NewSolver.cs:73-116 | only covered cells change, into 9 or -3 |
| NewSolver.Share | MinesweeperSolver/solvers/NewSolver.cs:86 | a point's share of mined boards lies in [0, 1], is 0 iff no board mines it, and 1 iff all do |
| NewSolver.Prob | MinesweeperSolver/solvers/NewSolver.cs:85-86 | `bombPoints[k] / validBoards.Count` is 0 off the border and lies in [0, 1] on a border without repeats |
| NewSolver.ProbIsShare | MinesweeperSolver/solvers/NewSolver.cs:58-86 | the computed probability of a border point is its share of mined boards |
| NewSolver.KeysAreShares | MinesweeperSolver/solvers/NewSolver.cs:58-86 | the dictionary's keys are exactly the border, each with its share |
| NewSolver.ConcludeCertain | MinesweeperSolver/solvers/NewSolver.cs:78-92 | when not stopped, a covered border point mined in no board is revealed and one mined in all is flagged |
| NewSolver.ConcludeOnlyCertain | MinesweeperSolver/solvers/NewSolver.cs:78-116 | when a guarantee exists, only covered border points of share 0 (to -3) or 1 (to 9) change |
| NewSolver.ConcludeGuess | MinesweeperSolver/solvers/NewSolver.cs:94-114 | without a guarantee the move is one click on the most certain point, flagging iff the mine side set the maximum |
| NewSolver.Target | MinesweeperSolver/solvers/NewSolver.cs:24-32 | the searched set is empty iff the border is, lies on the board, and is duplicate-free when the border is |
| NewSolver.TargetGroup | MinesweeperSolver/solvers/NewSolver.cs:24-32 | the searched set is the whole border or one closed group of it |
| NewSolver.NewMove | MinesweeperSolver/solvers/NewSolver.cs:18-117 | the base pass loses rows by `lost` and the fall-back `ProbabilitySolver`'s own pass by an independent `lost2`; only covered cells change; the move hangs iff the border holds a square that fails the group test; it crashes iff the border is empty and either the search runs or, with `Running` set again after it, the fallback guess reads (0, 0) on a board without cells; it returns false iff `Running` went false |
| NewSolver.AfterPass | MinesweeperSolver/solvers/NewSolver.cs:23-116 | past the base pass, only covered cells change; the move hangs iff a border square fails the group test; it crashes iff the border is empty and either the search runs or the fallback guess reads (0, 0) on a board without cells; it returns false iff `Running` went false |
| NewSolver.Settle | MinesweeperSolver/solvers/NewSolver.cs:45-116 | once the search has returned, the move crashes only when `Running` is set, nothing fits and the board has no cells (the fallback guess throws); otherwise it happens, only covers cells, and returns whether `Running` is still set |
| NewSolver.AfterPassSettles | MinesweeperSolver/solvers/NewSolver.cs:24-56 | when every border square qualifies and the search finds boards, those boards fit the searched set, which is non-empty if they are, and the rest of the move is the settling step over them |
| NewSolver.AfterPassConcludes | MinesweeperSolver/solvers/NewSolver.cs:43-116 | past the base pass, with valid boards found, the move is the conclusion over them and returns true |
| NewSolver.NewMoveConcludes | MinesweeperSolver/solvers/NewSolver.cs:43-116 | with valid boards found, the move is the conclusion over them and returns true |
| NewSolver.CertainFrom | MinesweeperSolver/solvers/NewSolver.cs:58-92 | past the base pass, with a duplicate-free qualifying border, surviving boards and no abort, a searched covered point mined in none is revealed and one mined in all is flagged |
| NewSolver.CertainWith | MinesweeperSolver/solvers/NewSolver.cs:58-92 | the same, for any aborts that leave the search unstopped with a non-empty result |
| NewSolver.NewMoveCertain | MinesweeperSolver/solvers/NewSolver.cs:18-117 | end to end with no abort: a searched covered point that no surviving assignment mines ends -3, and one that all mine ends 9 |
| SmartSolver.SmallestSet | MinesweeperSolver/solvers/SmartSolver.cs:41-43 | the searched set is the connected set of some border square, no larger than any other, and strictly smaller than those of all earlier squares |
| SmartSolver.MarkAll | MinesweeperSolver/solvers/SmartSolver.cs:65-68 | marking writes 9 on exactly the listed cells |
| SmartSolver.MarkClue | MinesweeperSolver/solvers/SmartSolver.cs:57-68 | one clue's loop fails (reads `clicks[i]` out of range) iff it needs more mines than it has covered cells; otherwise it marks distinct covered cells |
| SmartSolver.MarkClues | MinesweeperSolver/solvers/SmartSolver.cs:58-69 | the loop over one square's clues keeps the board's size |
| SmartSolver.MarkSquares | MinesweeperSolver/solvers/SmartSolver.cs:56-70 | the loop over the searched set keeps the board's size |
| SmartSolver.MarkAllTracks | MinesweeperSolver/solvers/SmartSolver.cs:65-68 | marking covered cells on the copy keeps it the live board plus exactly the marked cells |
| SmartSolver.TrackedSlack | MinesweeperSolver/solvers/SmartSolver.cs:59-62 | on such a copy each clue keeps its value and its room (covered minus still-needed mines) |
| SmartSolver.MarkCluesTracks | MinesweeperSolver/solvers/SmartSolver.cs:58-69 | if every clue has room on the live board, the clue loop never fails, and the copy stays the live board plus the marked cells |
| SmartSolver.MarkSquaresTracks | MinesweeperSolver/solvers/SmartSolver.cs:56-70 | the same for the loop over the searched set |
| SmartSolver.MinMines | MinesweeperSolver/solvers/SmartSolver.cs:54-71 | `_minMines` exists whenever every clue has room, and is half the number of distinct squares, covered on the live board, that the loop flags on its copy; the live board is untouched |
| SmartSolver.ApplyFlags | MinesweeperSolver/solvers/SmartSolver.cs:159-166 | `ApplyBorderFlags` flags exactly the squares whose entry is 1 and copies all else |
| SmartSolver.Combos | MinesweeperSolver/solvers/SmartSolver.cs:138-157 | `GetFlagCombinations` only varies entries up to its depth |
| SmartSolver.Visit | MinesweeperSolver/solvers/SmartSolver.cs:140-154 | one iteration only varies entries up to its depth |
| SmartSolver.CombosSound | MinesweeperSolver/solvers/SmartSolver.cs:144-147 | every collected vector has at least `_minMines` flags and a bombful board, and is 0/1 |
| SmartSolver.VisitSound | MinesweeperSolver/solvers/SmartSolver.cs:141-153 | the same for one iteration |
| SmartSolver.CombosCount | MinesweeperSolver/solvers/SmartSolver.cs:138-157 | when every board is accepted, a call at depth d collects 2^(d+2) − 2 vectors: each node collects its own partial vector |
| SmartSolver.VisitAccepting | MinesweeperSolver/solvers/SmartSolver.cs:141-153 | then an iteration collects its vector and then the subtree's |
| SmartSolver.CombosRepeat | MinesweeperSolver/solvers/SmartSolver.cs:138-157 | on two squares with everything accepted the list is [0,0], [0,0], [1,0], [0,1], [0,1], [1,1]: vectors with a zero low end are collected twice |
| SmartSolver.TopAccepting | MinesweeperSolver/solvers/SmartSolver.cs:140-153 | the unrolled top call when everything is accepted |
| SmartSolver.BottomAccepting | MinesweeperSolver/solvers/SmartSolver.cs:140-153 | the unrolled depth-0 call when everything is accepted |
| SmartSolver.LeafCombosOnce | MinesweeperSolver/solvers/SmartSolver.cs:138-157 | the leaves-only reading collects every 0/1 vector exactly once, 2^(d+1) of them, when everything is accepted |
| SmartSolver.LeafVisitOnce | MinesweeperSolver/solvers/SmartSolver.cs:140-154 | the same for one iteration of that reading |
| SmartSolver.Lower | MinesweeperSolver/solvers/SmartSolver.cs:141-142 | the partial vector seen at depth d: entries below d reset to 0 |
| SmartSolver.LeafCombosExact | MinesweeperSolver/solvers/SmartSolver.cs:138-157 | the leaves-only reading collects, once each, exactly the bombful 0/1 vectors with enough flags whose every partial vector passes the descent test |
| SmartSolver.LeafVisitExact | MinesweeperSolver/solvers/SmartSolver.cs:140-154 | the same for one iteration |
| SmartSolver.LeafDropsInvalid | MinesweeperSolver/solvers/SmartSolver.cs:138-157 | on two squares, with every board bombful and none valid and `_minMines` 0, the code as written collects [0,0] and [0,1], and the leaves-only reading collects nothing: that reading drops more than repeats |
| SmartSolver.Low | MinesweeperSolver/solvers/SmartSolver.cs:141-142 | the number of leading zero entries of a vector |
| SmartSolver.CombosExact | MinesweeperSolver/solvers/SmartSolver.cs:138-157 | as written, a vector is collected iff it is reached along a path of passing descents and its node accepts it; a vector with k leading zeros is collected at most k+1 times |
| SmartSolver.VisitExact | MinesweeperSolver/solvers/SmartSolver.cs:140-154 | the same for one iteration |
| SmartSolver.Zeros | MinesweeperSolver/solvers/SmartSolver.cs:129 | the fresh `int[]` is all zeros |
| SmartSolver.Vectors | MinesweeperSolver/solvers/SmartSolver.cs:124-136 | `GetValidMinePlacements` starts from all zeros at the last index; every vector has one entry per square |
| SmartSolver.VectorsExact | MinesweeperSolver/solvers/SmartSolver.cs:124-157 | the vectors collected are exactly the collectable ones, each at most (leading zeros + 1) times |
| SmartSolver.Placements | MinesweeperSolver/solvers/SmartSolver.cs:124-166 | there is no result (an index out of range) iff the set is empty; otherwise each layout is bombful and is the live board with some searched squares flagged |
| SmartSolver.MinedExactly | MinesweeperSolver/solvers/SmartSolver.cs:73-92 | a covered cell is mined in no layout iff no collectable vector flags it, and in every layout iff every one does |
| SmartSolver.FlaggedOn | MinesweeperSolver/solvers/SmartSolver.cs:159-166 | the squares a layout flags, without repeats on a duplicate-free list |
| SmartSolver.MinedCells | MinesweeperSolver/solvers/SmartSolver.cs:79-90 | one layout's row-major sweep counts exactly the cells covered live and 9 in the layout |
| SmartSolver.AddCells | MinesweeperSolver/solvers/SmartSolver.cs:85-89 | adding cells raises each listed cell's count by one and inserts new keys |
| SmartSolver.TallyFrom | MinesweeperSolver/solvers/SmartSolver.cs:78-92 | the tally stays consistent |
| SmartSolver.Locs | MinesweeperSolver/solvers/SmartSolver.cs:77-92 | `_locs` is a consistent tally |
| SmartSolver.TallyFromCounts | MinesweeperSolver/solvers/SmartSolver.cs:78-92 | each covered cell's count grows by the number of layouts mining it, and it becomes a key iff that is positive |
| SmartSolver.LocsSpec | MinesweeperSolver/solvers/SmartSolver.cs:77-92 | the keys are exactly the live covered cells mined in some layout, without repeats, each counting its layouts |
| SmartSolver.Unlisted | MinesweeperSolver/solvers/SmartSolver.cs:96 | the searched squares that are not keys |
| SmartSolver.Full | MinesweeperSolver/solvers/SmartSolver.cs:107-108 | the keys whose count equals the number of layouts |
| SmartSolver.Lowest | MinesweeperSolver/solvers/SmartSolver.cs:104-113 | -1 iff no count is below 1,000,000; otherwise the first key of least count |
| SmartSolver.Reveal | MinesweeperSolver/solvers/SmartSolver.cs:94-101 | every searched square that no layout mines is revealed; the move ends early only if one was; otherwise, with the window kept, keys and other cells are unchanged |
| SmartSolver.Counts | MinesweeperSolver/solvers/SmartSolver.cs:106-107 | the key counts in key order |
| SmartSolver.FinishAsWritten | MinesweeperSolver/solvers/SmartSolver.cs:103-121 | as written: keys mined in every layout are flagged; `ClickRandom` is taken iff no count is below 1,000,000 or the chosen key is (0, 0); otherwise the first least-count key is revealed; nothing else changes |
| SmartSolver.OriginNeverChosen | MinesweeperSolver/solvers/SmartSolver.cs:114-117 | a key at (0, 0) of least count is never clicked as written, but is under the correction |
| SmartSolver.Finish | MinesweeperSolver/solvers/SmartSolver.cs:103-121 | corrected: keys mined in every layout are flagged, the first least-count key is revealed, `ClickRandom` is taken iff no count is below 1,000,000, and nothing else changes |
| SmartSolver.Resolve | MinesweeperSolver/solvers/SmartSolver.cs:77-121 | the tally, the uncovering step and the finish as written only turn covered cells into 9 or -3 |
| SmartSolver.ResolveSafe | MinesweeperSolver/solvers/SmartSolver.cs:94-99 | a searched covered square mined in no layout ends revealed |
| SmartSolver.ResolveCertain | MinesweeperSolver/solvers/SmartSolver.cs:106-108 | with the window kept, a covered cell mined in every layout ends flagged by the finish as written, unless the second base pass after the uncovering step fired and ended the move |
| SmartSolver.FromBound | MinesweeperSolver/solvers/SmartSolver.cs:52-121 | the move after the cutoff crashes iff `_minMines` reads out of range or the set is empty; otherwise only covered cells change |
| SmartSolver.FromBoundSafe | MinesweeperSolver/solvers/SmartSolver.cs:73-99 | a searched covered square that no collectable vector flags ends revealed |
| SmartSolver.SmartMove | MinesweeperSolver/solvers/SmartSolver.cs:18-122 | returns the base pass's board when it fired and a random click on an empty border; crashes exactly when the set is below 27 and empty or `_minMines` fails; otherwise only covered cells change |
| SmartSolver.SmartMoveSafe | MinesweeperSolver/solvers/SmartSolver.cs:18-122 | end to end: a covered square of the searched set that no collectable vector flags ends revealed |
| SmartSolver.SmartMoveNoCells | MinesweeperSolver/solvers/SmartSolver.cs:19-36 | on a board without cells the base pass fires nothing, the border is empty, and the move is `ClickRandom` on the unchanged board |
| Screen.PixelFormatSize | MinesweeperSolver/ScreenHelper.cs:54 | the bits per pixel of a format code, below 256 |
| Screen.PixelFrom | MinesweeperSolver/ScreenHelper.cs:90-95 | the byte loop of one pixel finds no difference iff every byte from c on is in range and equal; a fault means some byte was out of range |
| Screen.RowFrom | MinesweeperSolver/ScreenHelper.cs:86-98 | the pixel loop of one row finds no difference iff every byte of the row's remaining pixels matches |
| Screen.RowsFrom | MinesweeperSolver/ScreenHelper.cs:83-101 | the row loop finds no difference iff every byte of every remaining row matches |
| Screen.Full | MinesweeperSolver/ScreenHelper.cs:82-101 | `shouldStop` stays false iff every byte of every search pixel equals the source byte under it; row padding is not compared |
| Screen.Candidate | MinesweeperSolver/ScreenHelper.cs:72-103 | a position is returned only where the search image matches |
| Screen.PreCheck | MinesweeperSolver/ScreenHelper.cs:73-78 | the pre-check reads exactly the bytes of the full comparison's first pixel and reaches the same verdict |
| Screen.PreCheckRedundant | MinesweeperSolver/ScreenHelper.cs:73-80 | on a non-empty search image the pre-check skips only candidates the full comparison also rejects |
| Screen.ScanRow | MinesweeperSolver/ScreenHelper.cs:69-105 | within a row, a hit matches and every earlier candidate was rejected; the row yields nothing iff every candidate was rejected |
| Screen.ScanFrom | MinesweeperSolver/ScreenHelper.cs:67-106 | a hit matches and lies in the window, every candidate before it in scan order (rows from starty, columns from startx) was rejected; nothing is found iff all were |
| Screen.GetBitmapPosition | MinesweeperSolver/ScreenHelper.cs:46-108 | throws for a null image, differing formats, or a search image larger than the source; a returned point is a match in the window or, with none, `Point.Empty` |
| Screen.GetBitmapPositionFirst | MinesweeperSolver/ScreenHelper.cs:67-107 | on a non-empty search image the returned point is the first match in scan order, and `Point.Empty` without a match means there is none |
| Screen.NoFaultInside | MinesweeperSolver/ScreenHelper.cs:57-64 | for images whose locked data holds stride·height bytes with rows wide enough, no candidate in the window reads out of range |
| Screen.NeverThrows | MinesweeperSolver/ScreenHelper.cs:66-107 | with such images and non-negative starts the search never throws |
| Screen.EmptyIsAmbiguous | MinesweeperSolver/ScreenHelper.cs:107 | `Point.Empty` is the answer both for a match at (0, 0) and for no match |

## Left out

- Screen capture, window finding, mouse input, `Thread.Sleep`, console output and the WinForms UI: these are I/O. A click is modelled by its effect on the grid.
- `Board(Bitmap)` pixel classification (`UpdateSquare`, `NumberColors`, the rounded size computation): the screen read is a parameter `read` of `Boards.Update` and `Boards.FromReading`.
- `GetBrainImage` in SmartSolver, ProbabilitySolver and Solver: GDI drawing only.
- `IsValid`, `IsFulfilled`, `IsBombful`, `GetBorderSquares`, `GetConnectedSquares` and `ClickRandom`: their bodies are not part of this model. They are oracle parameters, and `ClickRandom` is the outcome `Random`.
- Stopwatches and `MineSolver.Running`: these are abort oracles indexed by the search path (`Enumeration.Aborts`) and per-row `lost` predicates. They are not time.
- The ProbabilitySolver fall-back that NewSolver and SmartSolver build on a fresh `Board` after `Update()` is modelled as ProbabilitySolver's move on the same grid. The fresh screen read is not modelled.
- Floating point is exact `real` arithmetic. This covers the doubles of `GetBombProbability` and `ProbabilitySolver`, NewSolver's `float` ratios, and `Score`'s double. Results are not bit-exact.
- `Boards.Score`: on a 0×0 board the source computes `(int)` of NaN; the model returns no score there.
- `Dictionary` key order is taken to be insertion order (`Boards.Dedup`, `SmartSolver.Locs`). That is what .NET does without removals, but the language does not promise it.
- C# 32-bit integer overflow is not modelled. This matters for the `_locs` counts and the byte index arithmetic of `GetBitmapPosition`. A searched set has at most 26 squares, because 27 or more go to the fall-back. So `GetFlagCombinations` runs at depth 25 or less and collects at most 2^27 − 2 vectors (`SmartSolver.CombosCount`). Every `_locs` count is therefore below 2^31. The byte indices are `y·Stride + x·pixSize + c` with y and x inside the loops' bounds, so they stay below the length of the locked buffer, itself an `int`. The exception is a negative start, where the index can be negative; the model reports such a read as `OutOfRange`.
- `Screen.GetBitmapPosition`: `LockBits` may hand over a negative stride for bottom-up bitmaps. The model takes the stride as given and turns every out-of-range read into `OutOfRange`; it does not model `new byte[]` with a negative length.
- `Screen.PreCheckRedundant` and `Screen.GetBitmapPositionFirst` require a search image of at least one pixel, which GDI+ bitmaps always have. For an empty image the pre-check still reads one pixel.
- Negative start positions of `GetBitmapPosition` are allowed. The callers pass `window.X - 1`. The model reports the reads that leave the data as `OutOfRange`, and `Screen.NeverThrows` covers only non-negative starts.

## Findings

| source | as written | input that shows it | evidently intended | confidence | as-written member | corrected member |
|---|---|---|---|---|---|---|
| MinesweeperSolver/solvers/Solver.cs:126-142 | the deduction rules test every cell whose value is not 0, so a flag (9) counts as a clue "9" whose block includes itself (MineSolver.cs:118-136 has the same test) | a 3×3 board with a 9 in the centre and -1 elsewhere: 9 = 8 covered + 1 flag, so all eight neighbours are flagged with no clue on the board | the rules apply only to clue cells 1..8 | not executed | Deduction.FlagActsAsClue | Deduction.CorrectedPassNeedsClues |
| MinesweeperSolver/solvers/SmartSolver.cs:104-117 | `Point.Empty` marks "no key chosen", but (0, 0) is also a real square, so a least-likely key at (0, 0) is never clicked and `ClickRandom` runs instead | keys [(0, 0)] with count 1 out of 2 layouts, (0, 0) covered | click the chosen key whenever one was chosen | not executed | SmartSolver.OriginNeverChosen | SmartSolver.Finish |
| MinesweeperSolver/solvers/SmartSolver.cs:138-157 | `GetFlagCombinations` adds the current vector at every depth, not only at the last square, so a vector is collected once more for each leading 0; the repeats weigh the `_locs` counts and can change which key has the lowest count (the certain-mine test is unaffected, since `possibilities.Count` counts the repeats too) | two squares, helpers accepting every board, `_minMines` 0: six vectors, [0,0] and [0,1] twice each | collect each vector once, at the last square. This is the same as dropping the repeats only when every bombful board is also valid. Otherwise it also drops a vector with a leading 0 whose board is bombful but not valid: the code collects such a vector once, at its own node, and never descends to the last square (`SmartSolver.LeafDropsInvalid`) | not executed | SmartSolver.CombosRepeat | SmartSolver.LeafCombosExact |

Every solver in this model follows the code as written: `Deduction.DoMove` and `MineSolver.BestActions` use the pass as written, `SmartSolver.Resolve` finishes with `SmartSolver.FinishAsWritten`, and `SmartSolver.Placements` collects as `GetFlagCombinations` does. The corrected members state what was evidently intended and are proved on their own.
