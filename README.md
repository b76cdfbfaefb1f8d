# sudoku-js in Dafny

A model of the Sudoku engine in `sudoku.js`. A game is an 81-character board in row-major order. A cell is filled when it holds one of the digit symbols `'1'` to `'9'`; any other symbol marks it empty. The engine has four layers, and each is a Dafny module:

- **Grid** (`grid.dfy`): the units of a board.
  - `get_row`, `get_col` and `get_square` are `Row`, `Col` and `Square`.
  - The generators `iter_rows`, `iter_cols` and `iter_squares` are methods with counter loops that collect the nine units of each kind.
- **Validate** (`validate.dfy`): `check_item` and `is_complete`.
  - `CheckItem` either returns a boolean or throws `ItemError`, modelled as `Result<bool>` with `Err(ItemError(item))`.
  - `IsComplete` requires all 27 units to pass.
- **CandidateEngine** (`candidates.dfy`): `difference` and `get_candidates`.
  - A JavaScript `Set` of symbols is a duplicate-free sequence kept in insertion order.
  - `difference` is the method `Difference`. It copies its first argument and deletes the elements of the second one at a time. It is proved equal to the function `Without`, which `get_candidates` (`Candidates`) uses.
- **Solver** (`solve.dfy`): the recursive generator `solve`.
  - It is the function `Solve`, which yields the finite sequence of boards the generator would produce.
  - `Solve` is mutually recursive with `Branches`, the loop over the candidates of the first empty cell. Each branch restarts its scan at position 0.
- **IterativeSolver** (`solve_iter.dfy`): `solve_iter`.
  - It is the method `SolveIter`. It runs over an explicit stack of `(board, start)` frames, with a pop, a scan loop and a push loop.
  - The stack is a `seq<Frame>` whose last element is the top.
  - The loop terminates because the sum over the stack of `10^(empty cells of the frame)` decreases at each step.
- **Seqs** (`seqs.dfy`): generic facts about sequences used as sets, and about reversal.

The main results:
- `solve` enumerates exactly the completions of the game, each once. A completion is a complete board that keeps every digit of the game.
  - Soundness is in the contract of `Solve`.
  - Completeness is proved by `SolveFindsEverySolution`.
  - Distinctness is proved by `SolveDistinct`.
- `solve_iter` yields precisely the reverse of what `solve` yields, so it yields the same set of boards. This holds whenever no empty cell lies before the start position.
- If an empty cell lies before the start position, `solve_iter` yields nothing, because its scan never goes back to that cell. `solve`'s children restart at 0, so in that case `solve` can still find solutions.

The source starts the work stack with the caller's `(game, start_at)` frame (sudoku.js:230), not with `(game, 0)`. The model follows the code: `SolveIter` takes the start position as a parameter.

## Model

| member | source | states |
|---|---|---|
| Grid.DigitsAreDigits | sudoku.js:132 | the digit symbols are exactly the characters '1' to '9', each once, in ascending order, so membership in the digit set is the range check used for cells |
| Grid.Row | sudoku.js:35-37 | row r has nine cells, and its j-th cell is board position 9r+j |
| Grid.SquareCell | sudoku.js:67-78 | the k-th cell of the square holding (x, y) lies on the board, in row 3(y/3)+k/3 and column 3(x/3)+k%3 |
| Grid.Square | sudoku.js:67-80 | the square has nine cells, and its k-th cell is the board cell at SquareCell(x, y, k): three 3-cell sub-rows, top to bottom |
| Grid.ThreeSlices | sudoku.js:68-79 | joining the three 3-cell slices of rows 3(y/3) to 3(y/3)+2 reads the square's cells in order |
| Grid.SameBandsSameSquare | sudoku.js:74-75 | two coordinates with the same x/3 and the same y/3 give the same square |
| Grid.SquareIsNthSquare | sudoku.js:94-101 | get_square(x, y) equals the square that iter_squares yields at index 3(y/3)+x/3 |
| Grid.CellInItsUnits | sudoku.js:35-80 | cell p is entry p%9 of row p/9, entry p/9 of column p%9, and entry 3((p/9)%3)+(p%9)%3 of its square |
| Grid.IterRows | sudoku.js:82-86 | yields nine units, unit r being row r |
| Grid.IterCols | sudoku.js:88-92 | yields nine units of nine cells, cell k of unit c being board position 9k+c, so each unit is get_col (sudoku.js:46-57) in row order |
| Grid.IterSquares | sudoku.js:94-101 | yields nine units, unit k being the square with top-left cell at column 3(k%3), row 3(k/3) |
| Validate.DigitSet | sudoku.js:132 | the digit symbols repeat nothing, and their set holds exactly the nine digits |
| Validate.CheckItemOutcome | sudoku.js:170-178 | check_item throws ItemError, carrying the unit, iff the length is not 9; otherwise it returns true iff the unit is a permutation of the nine digits |
| Validate.CheckItemAcceptsExactly | sudoku.js:171-177 | check_item returns true iff the unit has length 9, only digits and no repeated symbol |
| Validate.PassingItemHoldsDigits | sudoku.js:175-177 | the set of a passing unit's symbols is exactly the nine digits |
| Validate.PassingItemIsPermutation | sudoku.js:175-177 | a passing unit is a permutation of the nine digits |
| Validate.PermutationPasses | sudoku.js:171-177 | every permutation of the nine digits passes |
| Validate.CheckItemExamples | test.js:39-58 | the units of the test suite give true, false or ItemError as the tests expect |
| Validate.CompleteUnitsArePermutations | sudoku.js:109-115 | every row, column and square of a complete board is a permutation of the nine digits |
| Validate.PermutationUnitsAreComplete | sudoku.js:109-115 | a board whose 27 units are permutations of the nine digits is complete |
| Validate.CompleteIsFilled | sudoku.js:109-115 | a complete board has no empty cell |
| Validate.CompleteUnitsAreDistinct | sudoku.js:109-115 | no row, column or square of a complete board repeats a symbol |
| Validate.EmptyCellIsNotComplete | sudoku.js:109-115 | a board with an empty cell is never complete |
| CandidateEngine.Without | sudoku.js:124-130 | the result holds exactly the elements of the first argument absent from the second, and is no longer |
| CandidateEngine.WithoutNothing | sudoku.js:125 | the initial copy of setA deletes nothing |
| CandidateEngine.WithoutTwice | sudoku.js:126-128 | deleting one set and then another deletes their union, so each loop step deletes one more element |
| CandidateEngine.WithoutKeepsDistinct | sudoku.js:124-130 | deleting keeps a set free of duplicates |
| CandidateEngine.WithoutKeepsIncreasing | sudoku.js:124-130 | deleting keeps the remaining elements in their ascending insertion order |
| CandidateEngine.Difference | sudoku.js:124-130 | after deleting every element of setB, the copy holds exactly the elements of setA not in setB, without duplicates |
| CandidateEngine.Candidates | sudoku.js:141-151 | a symbol is a candidate iff it is a digit absent from row y, column x and the square of (x, y); candidates are ascending, at most nine |
| Solver.FirstEmpty | sudoku.js:191-196 | the scan stops at the first empty cell at or after start, with every cell before it filled; if there is none, every cell from start on is filled |
| Solver.PlaceDigitCount | sudoku.js:207 | placing a digit in an empty cell leaves exactly one empty cell fewer |
| Solver.Solve | sudoku.js:188-219 | every board yielded is complete and keeps every digit of the game |
| Solver.Branches | sudoku.js:206-211 | every board yielded by the candidate loop is complete, keeps the game's digits, and holds one of the candidates at the branching cell |
| Solver.SolutionDigitIsCandidate | sudoku.js:198-200 | the digit any completion puts in an empty cell is among that cell's candidates |
| Solver.DeadEndHasNoSolution | sudoku.js:202-204 | when an empty cell has no candidates, no completion of the game exists |
| Solver.StartSkipsFilledCells | sudoku.js:191 | when every cell before start is filled, solving from start yields the same as solving from 0 |
| Solver.BranchesContain | sudoku.js:206-211 | a solution found under one candidate is yielded by the candidate loop |
| Solver.SolveFindsEverySolution | sudoku.js:181-219 | every complete board that keeps the game's digits is yielded |
| Solver.SolveDistinct | sudoku.js:188-219 | no board is yielded twice |
| Solver.BranchesDistinct | sudoku.js:206-211 | branches over distinct candidates yield distinct boards |
| Solver.SolveEnumeratesCompletions | sudoku.js:181-219 | with no empty cell before start, a board is yielded iff it is a completion of the game, and each is yielded once |
| IterativeSolver.FrameOutputEnumerates | sudoku.js:221-263 | a frame yields each completion of its board once when no empty cell precedes its start, and otherwise nothing |
| IterativeSolver.PushTop | sudoku.js:253 | pushing a frame puts its output in front of the stack's and adds its weight |
| IterativeSolver.PopTop | sudoku.js:233 | popping splits the stack's output and weight into the top frame's and the rest's |
| IterativeSolver.StackAppend | sudoku.js:230-254 | stacking frames on top puts their output first, and the weights add up |
| IterativeSolver.ChildrenCons | sudoku.js:250-254 | the first candidate's frame is pushed first |
| IterativeSolver.ChildOutput | sudoku.js:251-253 | a child frame that resumes at the placed cell yields what solve yields for the child board, reversed |
| IterativeSolver.ChildrenOutput | sudoku.js:250-254 | the pushed children yield the candidate loop of solve in reverse |
| IterativeSolver.StrandedChildrenOutput | sudoku.js:235-254 | children of a frame that started past an empty cell yield nothing |
| IterativeSolver.ChildrenWeight | sudoku.js:250-254 | each child weighs a tenth of its parent |
| IterativeSolver.BranchWeight | sudoku.js:250-254 | the children of an empty cell together weigh less than their parent |
| IterativeSolver.LeafOutput | sudoku.js:259-261 | a frame with no empty cell from its start yields its board iff it is complete, and pushes nothing |
| IterativeSolver.BranchYield | sudoku.js:242-256 | the children of the first empty cell yield what the popped frame stands for |
| IterativeSolver.BranchOutput | sudoku.js:242-261 | a frame that branches is not complete and is replaced, loss-free, by lighter children |
| IterativeSolver.StackStep | sudoku.js:232-262 | one pass of the main loop keeps the total output and lowers the stack weight |
| IterativeSolver.Scan | sudoku.js:235-240 | the scan returns the first empty position at or after start, or 81 |
| IterativeSolver.PushChildren | sudoku.js:250-254 | pushes one frame per candidate, in candidate order, each resuming at the placed cell |
| IterativeSolver.SolveIter | sudoku.js:228-263 | yields the reverse of what solve yields, when no empty cell precedes start, and otherwise nothing; so it yields each completion of the game exactly once |

## Left out

- The `range` generator (sudoku.js:14-26) only counts. Dafny index ranges and sequence comprehensions replace it.
- Lazy generator semantics and early termination by the consumer (sudoku.js:82-101, 188, 228) are not modelled. Each enumeration is the finite sequence of everything it would yield.
- The text of the `ItemError` message and the subclassing of `Error` (sudoku.js:156-162, 172) are not modelled. The error keeps only the offending unit.
- Boards whose length is not 81 are excluded by the `Board` type. The source reads `game.length` without checking it.
- A missing or non-numeric `start_at` (`start_at || 0`) is modelled as a natural number, with 0 for the default.
- Validate.IsComplete: it is a predicate on `CheckItem(...) == Ok(true)`, so it does not model `ItemError` propagating out of `is_complete`. That error cannot occur: every unit of an 81-cell board has nine symbols.
- Grid.Col: its contract states only its length. Its index formula is stated by `IterCols` and `CellInItsUnits`.
- Grid.NthSquare: its contract states only its length. Its cells are given by `SquareIsNthSquare` together with `Square`.
- The whole-board examples of the test suite (get_* on the striped board, is_complete on the solved board, get_candidates, solving the easy and medium games) are not proved as concrete lemmas. Evaluating 81-cell literals symbolically is beyond the verifier's resource limit. The general lemmas above cover that behaviour.
- JavaScript numbers are doubles. All indices here are below 81, so there is no rounding or overflow to model.
