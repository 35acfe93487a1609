# Verified model of the EDAA01 Sudoku backtracking engine

This project models the solving engine of a generalised Sudoku solver, `SudokuBacktracker`, and the interface it implements, `SudokuSolver`. The engine owns an integer grid. Its logical dimension is `size = sqDim * sqDim`, where `sqDim` is the floor of the square root of the absolute value of the requested size. The engine offers:

- single-cell writes, reads and clears with argument checks;
- the sudoku rule check for one cell (`isValid`) and for the whole field (`isAllValid`);
- a row-major backtracking search (`solve`) that writes tentative digits in place and undoes them on failure;
- bulk copy in and out of the grid (`getMatrix`, `setMatrix`, `clear`).

Files:

- `sudoku_solver.dfy`, module `SudokuSolver`: the interface. It holds the outcome type `Result` and the argument bounds the interface documents. The documented default dimension is 9.
- `sudoku_rules.dfy`, module `SudokuRules`: the rules on grid values. It defines peers (same row, column or box), `Allowed`, `AllValid` and what a solution of a search from a cell is. It also holds the lemmas the search rests on, one search step at a time.
- `sudoku_backtracker.dfy`, module `SudokuBacktracker`: the class `Backtracker` over an `array2<int>`. A ghost field `Cells` mirrors the array as a grid value. The module also holds the integer square root, the box-range arithmetic, and lemmas that compare the engine with the interface's documentation.
- `sudoku_scenarios.dfy`, module `SudokuScenarios`: the JUnit scenarios, written as client methods that use only the operations' contracts.

Modelling choices:

- **Exceptions.** Where Java throws `IllegalArgumentException`, `getNumber`, `isValid`, `isAllValid` and `solve` return `Result.IllegalArgument`. `setNumber` and `clearNumber` return `false` instead. In both cases the state is unchanged.
- **Storage versus logical size.** Storage versus logical size is kept as the code has it. The constructor allocates abs(n) by abs(n), while `clear` and `setMatrix` reallocate at `size` by `size`. `setNumber`, `getNumber` and `clearNumber` check indices against the storage, which is what Java's array bounds check does. `isValid` checks them against `size`.
- **Where the code and the documentation disagree, the model follows the code.**
  - For a non-square size the storage is larger than the field. `NonSquareStorageExceedsDimension` shows that `setNumber` then accepts a cell the interface documents as out of range. `GetMatrix` also returns a zero grid in that case, because neither side of the storage equals `size`.
  - `setNumber` bounds the value by `size`, not by 9.
  - `isAllValid` fails with `IllegalArgument` rather than returning `false` when the first bad cell holds a value outside `[0..size]`.
  - `setMatrix` never rejects its argument.
- **The search.** `solve` is proved sound and complete. It returns `Ok(true)` exactly when a solution of the grid exists: every cell filled and the rules kept, with every nonzero cell unchanged. On success the grid is such a solution. Otherwise the grid is unchanged. Every empty grid has a solution, so `solve` succeeds on a fresh or cleared engine. The witness is the pattern grid in which row i holds 1..size rotated by sqDim*(i mod sqDim) + i/sqDim.
- **Square root.** `Math.sqrt` followed by `(int)` is modelled as the exact integer floor square root. For non-negative Java `int` values the double result never rounds across an integer, so the two agree.

## Model

| member | source | states |
|---|---|---|
| `SudokuBacktracker.Backtracker.constructor` | EDAA01_project/src/SudokuBacktracker.java:8-16 | storage is abs(n) by abs(n), all cells 0, and sqDim*sqDim <= abs(n) < (sqDim+1)^2 with size == sqDim*sqDim |
| `SudokuBacktracker.SqrtFrom` | EDAA01_project/src/SudokuBacktracker.java:12-13 | the search upward from s ends at the r with r*r <= m < (r+1)^2 |
| `SudokuBacktracker.FloorSqrt` | EDAA01_project/src/SudokuBacktracker.java:12-13 | the result s satisfies s*s <= m < (s+1)^2 |
| `SudokuBacktracker.FloorSqrtUnique` | EDAA01_project/src/SudokuBacktracker.java:12-14 | that bracket determines sqDim uniquely |
| `SudokuBacktracker.Backtracker.SetNumber` | EDAA01_project/src/SudokuBacktracker.java:20-29 | succeeds iff 1 <= nbr <= size and (r,c) is a storage cell; then only cell (r,c) changes and it holds nbr; on failure nothing changes |
| `SudokuBacktracker.Backtracker.GetNumber` | EDAA01_project/src/SudokuBacktracker.java:32-38 | IllegalArgument iff (r,c) is outside the storage, otherwise the cell's value (0 when empty); reads only |
| `SudokuBacktracker.Backtracker.ClearNumber` | EDAA01_project/src/SudokuBacktracker.java:41-47 | succeeds iff (r,c) is a storage cell; then only that cell changes and it holds 0; on failure nothing changes |
| `SudokuBacktracker.Backtracker.IsValid` | EDAA01_project/src/SudokuBacktracker.java:50-70 | IllegalArgument iff r, c are outside [0,size) or nbr is outside [0,size]; otherwise true iff nbr is 0 or no other cell of the row, the column or the box holds nbr |
| `SudokuBacktracker.BoxBounds` | EDAA01_project/src/SudokuBacktracker.java:64-65 | the box scan of row (column) r runs from (r/sqDim)*sqDim to (r/sqDim+1)*sqDim, covers r, and stays inside the field |
| `SudokuBacktracker.BoxRange` | EDAA01_project/src/SudokuBacktracker.java:64-68 | a row lies in the scanned box range iff it has r's box index, so the box loop covers exactly the box |
| `SudokuRules.PeerSymmetric` | EDAA01_project/src/SudokuBacktracker.java:55-68 | the peer relation the three scans check is symmetric |
| `SudokuBacktracker.Backtracker.IsAllValid` | EDAA01_project/src/SudokuBacktracker.java:73-80 | Ok(true) iff every field cell holds a value in [0,size] that the rules allow; Ok(false) iff the first bad cell in row-major order holds a value in [0,size], IllegalArgument iff it holds one outside; reads only |
| `SudokuRules.FirstFaultUnique` | EDAA01_project/src/SudokuBacktracker.java:74-77 | only one cell can be the first bad cell of the row-major scan, so isAllValid's outcome is determined |
| `SudokuRules.FaultIsInvalid` | EDAA01_project/src/SudokuBacktracker.java:76 | a bad cell makes the grid invalid |
| `SudokuBacktracker.Backtracker.Solve` | EDAA01_project/src/SudokuBacktracker.java:83-89 | Ok(true) iff the grid has a solution; on Ok(true) the grid is full, valid and keeps every nonzero cell; otherwise the grid is unchanged; IllegalArgument iff the first bad cell in row-major order holds a value outside [0,size], as isAllValid throws there |
| `SudokuRules.SolutionKeepsValid` | EDAA01_project/src/SudokuBacktracker.java:84-85 | a grid with a solution is itself valid, so the up-front isAllValid check loses no solvable puzzle |
| `SudokuRules.InvalidIsUnsolvable` | EDAA01_project/src/SudokuBacktracker.java:86-87 | an invalid grid has no solution, so returning false without searching is correct |
| `SudokuBacktracker.Backtracker.SolveFrom` | EDAA01_project/src/SudokuBacktracker.java:91-116 | terminates by (size-r, size-c); on true the grid completes the entry grid from (r,c), with earlier and nonzero cells unchanged, later cells filled and the grid valid; on false the grid equals its entry state and no completion exists |
| `SudokuRules.EndOfSearch` | EDAA01_project/src/SudokuBacktracker.java:92 | past the last row a valid grid is its own solution |
| `SudokuRules.BeforeNext` | EDAA01_project/src/SudokuBacktracker.java:93-100 | the next cell in scan order is the one right after (r,c) in row-major order |
| `SudokuRules.PlaceKeepsValid` | EDAA01_project/src/SudokuBacktracker.java:105-106 | placing a digit isValid allows keeps the whole grid valid |
| `SudokuRules.PlaceShaped` | EDAA01_project/src/SudokuBacktracker.java:106 | writing a cell changes that cell only |
| `SudokuRules.PlaceUndo` | EDAA01_project/src/SudokuBacktracker.java:106-108 | writing a digit into an empty cell and then 0 restores the grid exactly |
| `SudokuRules.EmptyCellCompletes` | EDAA01_project/src/SudokuBacktracker.java:106-109 | a solution found after placing a digit is a solution from the current cell |
| `SudokuRules.EmptyCellChoice` | EDAA01_project/src/SudokuBacktracker.java:103-111 | every solution from an empty cell holds there a digit in [1,size] the rules allow, and is a solution after placing it |
| `SudokuRules.PlacedDigitAllowed` | EDAA01_project/src/SudokuBacktracker.java:105 | a digit that leads to a solution is one the rules allow |
| `SudokuRules.DisallowedDeadEnd` | EDAA01_project/src/SudokuBacktracker.java:105 | skipping a digit isValid rejects loses no solution |
| `SudokuRules.ExhaustedCell` | EDAA01_project/src/SudokuBacktracker.java:104-111 | when every digit 1..size fails at an empty cell, the grid has no solution from that cell |
| `SudokuRules.FixedCellCompletes` | EDAA01_project/src/SudokuBacktracker.java:112-113 | at a nonzero cell the solutions from it and from the next cell coincide |
| `SudokuRules.FixedCellSolvable` | EDAA01_project/src/SudokuBacktracker.java:112-114 | at a nonzero cell, solvable from it iff solvable from the next cell |
| `SudokuBacktracker.Backtracker.CopyMatrix` | EDAA01_project/src/SudokuBacktracker.java:118-130 | a fresh size by size array: zeros when the input is null or neither side equals size, otherwise the element-wise copy |
| `SudokuBacktracker.Backtracker.Clear` | EDAA01_project/src/SudokuBacktracker.java:131-134 | fresh size by size storage with every cell 0 |
| `SudokuRules.Blank` | EDAA01_project/src/SudokuBacktracker.java:133 | a grid of the given side whose every cell is 0 |
| `SudokuBacktracker.Backtracker.GetMatrix` | EDAA01_project/src/SudokuBacktracker.java:136-139 | a fresh array, not aliasing the engine, holding the field; all zeros when the storage is not size by size |
| `SudokuBacktracker.Backtracker.SetMatrix` | EDAA01_project/src/SudokuBacktracker.java:141-144 | the grid becomes a fresh size by size copy of the argument, or all zeros when copyMatrix resets |
| `SudokuBacktracker.Backtracker.GetDimension` | EDAA01_project/src/SudokuBacktracker.java:146-149 | the dimension is sqDim squared, and its floor square root is sqDim |
| `SudokuSolver.DefaultDimension` | EDAA01_project/src/SudokuSolver.java:101-103 | the interface's default dimension is 9 |
| `SudokuSolver.DocCellInRange` | EDAA01_project/src/SudokuSolver.java:28-29 | the documented cell bounds: r and c in [0..getDimension()-1] |
| `SudokuSolver.DocSetNumberAccepts` | EDAA01_project/src/SudokuSolver.java:12-14 | the documented arguments of setNumber: a cell in bounds and a number in [1..9] |
| `SudokuSolver.DocIsValidAccepts` | EDAA01_project/src/SudokuSolver.java:54-55 | the documented arguments of isValid: a cell in bounds and a number in [0..9] |
| `SudokuBacktracker.SetNumberMatchesDocumentation` | EDAA01_project/src/SudokuSolver.java:3-16 | with storage equal to the field, setNumber's checks are the documented cell bounds with the value bound [1..d]; at dimension 9 exactly the documented [1..9] |
| `SudokuBacktracker.CellChecksMatchDocumentation` | EDAA01_project/src/SudokuSolver.java:18-42 | getNumber's and clearNumber's index check is the documented [0..getDimension()-1] when storage equals the field |
| `SudokuBacktracker.IsValidMatchesDocumentation` | EDAA01_project/src/SudokuSolver.java:44-57 | at dimension 9, isValid rejects exactly the out-of-bounds r, c, nbr |
| `SudokuBacktracker.DimensionMatchesDefault` | EDAA01_project/src/SudokuSolver.java:96-103 | a requested size of 9..15 gives the interface's default dimension 9 with box side 3 |
| `SudokuBacktracker.NonSquareStorageExceedsDimension` | EDAA01_project/src/SudokuBacktracker.java:12-25 | a requested size of 7 gives dimension 4 over 7 by 7 storage, where setNumber accepts cell (5,5), which the interface documents as out of range |
| `SudokuScenarios.NewStandard` | EDAA01_project/src/SudokuTest.java:12-15 | a 9-request engine has box side 3, dimension 9 and an empty 9 by 9 grid |
| `SudokuScenarios.EmptyPlacementIsValid` | EDAA01_project/src/SudokuTest.java:98-101 | isValid(0,0,0) is Ok(true) |
| `SudokuScenarios.WrongInputRejected` | EDAA01_project/src/SudokuTest.java:75-87 | setNumber(4,4,-1) and setNumber(4,4,10) fail and the cell stays 0 |
| `SudokuScenarios.ClashesAreUnsolvable` | EDAA01_project/src/SudokuTest.java:27-40 | equal fixed digits in one column, one row or one box make solve return false, with clear between the cases |
| `SudokuScenarios.SolveWithPair` | EDAA01_project/src/SudokuTest.java:29-31 | a 5 at (0,0) and at a peer of it makes solve return Ok(false) |
| `SudokuScenarios.GetMatrixReturnsCopy` | EDAA01_project/src/SudokuTest.java:102-107 | writing into getMatrix's result leaves getNumber(0,0) at 0 |
| `SudokuScenarios.SetMatrixKeepsCopy` | EDAA01_project/src/SudokuTest.java:115-121 | after setMatrix(m), setNumber does not write into m |
| `SudokuRules.EmptyFieldSolvable` | EDAA01_project/src/SudokuBacktracker.java:83-89 | an all-zero grid of any side m has a solution on its field of side b*b <= m, so solve succeeds on every fresh or cleared engine |
| `SudokuRules.PatternPeersDiffer` | EDAA01_project/src/SudokuBacktracker.java:55-68 | in the pattern solution no two peers (row, column or box) hold the same digit |
| `SudokuScenarios.FreshEngineSolvable` | EDAA01_project/src/SudokuBacktracker.java:8-16 | a freshly constructed engine of any requested size solves its empty grid: solve returns Ok(true) |
| `SudokuScenarios.SetupSolvable` | EDAA01_project/src/SudokuTest.java:109-114 | requested sizes -1 and 7 both give engines whose solve returns true |
| `SudokuScenarios.EmptyGridSolvable` | EDAA01_project/src/SudokuTest.java:23-25 | solve on the empty 9 by 9 grid returns true |
| `SudokuScenarios.ClearedGridSolvable` | EDAA01_project/src/SudokuTest.java:57-63 | two 5s in one column make solve return false; after clear, solve returns true |

## Left out

- `SudokuBacktracker.Backtracker.constructor`: requires the requested size to be above `Integer.MIN_VALUE`. Negating that value overflows, and Java then fails to allocate a negative-size array. Running out of memory for a large size is not modelled.
- `SudokuBacktracker.Backtracker.CopyMatrix`: the inputs on which Java throws `ArrayIndexOutOfBoundsException` are excluded by a precondition (`CopyDefined`). These are a zero-row matrix whose row count differs from `size`, and a copied matrix with fewer than `size` rows or columns. The same precondition applies to `SetMatrix`. Ragged `int[][]` inputs cannot be expressed, because the model's argument is a rectangular `array2`.
- `SudokuBacktracker.Backtracker.SetMatrix`: the interface documents an exception for a wrong dimension or values outside [0..9]. The implementation does not raise it, so the model does not raise it either.
- Java `int` overflow elsewhere: none can occur. `size` is at most 46340², and the search index, the box bounds and `size + 1` stay below that.
- The interface itself: Dafny traits are not used. The interface's documented argument bounds are predicates, and lemmas relate them to the engine's checks.
- The 9 by 9 searches of the JUnit tests `testUnsolvable` and `testSolvable` are not modelled as scenarios. Their answers depend on particular clue sets: one would need a concrete 9 by 9 solution of the given clues, the other a proof that no completion exists. `Solve`'s contract reduces each to the solvability of its clue set, which is not proved here. The empty grid, fresh and cleared, is covered by `EmptyFieldSolvable`.
- `SudokuBacktracker.Backtracker.Solve`: the model has no call-stack limit. In Java the recursive `solve(r, c)` nests `size*size + 1` calls deep, so a large enough grid ends in `StackOverflowError`. The model's Ok(true) on a solvable grid holds only where the Java stack is deep enough.
- The Swing front end (`SudokuWindow.java`) is not part of this model.
