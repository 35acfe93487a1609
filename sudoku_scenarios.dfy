/**
 * The engine's unit-test scenarios, as client methods that rely only on the
 * operations' contracts.
 */
module SudokuScenarios {
  import opened SudokuRules
  import opened SudokuSolver
  import opened SudokuBacktracker

  /** A fresh engine for the standard 9-by-9 puzzle. */
  method NewStandard() returns (e: Backtracker)
    ensures fresh(e) && fresh(e.numbers) && e.Valid()
    ensures e.sqDim == 3 && e.size == 9 && e.numbers.Length0 == 9
    ensures e.Cells == Blank(9)
  {
    e := new Backtracker(9);
    FloorSqrtUnique(9, 3);
    FloorSqrtUnique(9, e.sqDim);
  }

  /** Placing 0 is allowed anywhere. */
  method EmptyPlacementIsValid() returns (res: Result<bool>)
    ensures res == Ok(true)
  {
    var e := NewStandard();
    res := e.IsValid(0, 0, 0);
  }

  /** Numbers -1 and 10 are rejected by a 9-by-9 grid, which stays empty. */
  method WrongInputRejected() returns (low: bool, high: bool, v: Result<int>)
    ensures !low && !high && v == Ok(0)
  {
    var e := NewStandard();
    low := e.SetNumber(4, 4, -1);
    high := e.SetNumber(4, 4, 10);
    v := e.GetNumber(4, 4);
  }

  /** Two equal fixed digits in one column, one row or one box make the puzzle unsolvable. */
  method ClashesAreUnsolvable() returns (column: Result<bool>, row: Result<bool>, box: Result<bool>)
    ensures column == Ok(false) && row == Ok(false) && box == Ok(false)
  {
    var e := NewStandard();
    column := SolveWithPair(e, 8, 0);
    e.Clear();
    row := SolveWithPair(e, 0, 8);
    e.Clear();
    box := SolveWithPair(e, 1, 1);
  }

  /** Sets 5 at (0, 0) and at its peer (r, c) of an empty 9-by-9 grid, then solves. */
  method SolveWithPair(e: Backtracker, r: int, c: int) returns (res: Result<bool>)
    requires e.Valid() && e.sqDim == 3 && e.numbers.Length0 == 9 && e.Cells == Blank(9)
    requires InField(9, r, c) && Peer(3, r, c, 0, 0)
    modifies e, e.numbers
    ensures e.Valid() && e.numbers == old(e.numbers)
    ensures res == Ok(false)
  {
    var ok1 := e.SetNumber(0, 0, 5);
    var ok2 := e.SetNumber(r, c, 5);
    ghost var g := e.Cells;
    assert g == Place(Place(Blank(9), 0, 0, 5), r, c, 5);
    assert g[r][c] == 5 && g[0][0] == 5;
    assert forall i, j :: 0 <= i < 9 && 0 <= j < 9 ==> g[i][j] == 0 || g[i][j] == 5;
    assert !Good(g, 9, 3, 0, 0);
    InvalidIsUnsolvable(g, 9, 3, 0, 0);
    res := e.Solve();
    assert e.Cells == g;
    assert forall i, j :: 0 <= i < 9 && 0 <= j < 9 ==> 0 <= e.Cells[i][j] <= 9;
    assert res != Ok(true);
    assert !res.IllegalArgument?;
    assert res.Ok? && !res.value;
  }

  /** getMatrix hands out a copy: writing into it leaves the engine's cell empty. */
  method GetMatrixReturnsCopy() returns (v: Result<int>)
    ensures v == Ok(0)
  {
    var e := NewStandard();
    var m := e.GetMatrix();
    m[0, 0] := 3;
    v := e.GetNumber(0, 0);
  }

  /** setMatrix keeps a copy: a later setNumber does not write into the caller's matrix. */
  method SetMatrixKeepsCopy() returns (x: int)
    ensures x == 0
  {
    var e := NewStandard();
    var m := new int[5, 5]((i, j) => 0);
    e.SetMatrix(m);
    var ok := e.SetNumber(0, 0, 5);
    x := m[0, 0];
  }

  /** A fresh engine of any requested size solves its empty grid. */
  method FreshEngineSolvable(n: int) returns (res: Result<bool>)
    requires -0x8000_0000 < n < 0x8000_0000
    ensures res == Ok(true)
  {
    var e := new Backtracker(n);
    EmptyFieldSolvable(e.numbers.Length0, e.sqDim);
    res := e.Solve();
  }

  /** Requested sizes -1 (a 1-by-1 grid) and 7 (a 4-by-4 field in 7-by-7 storage) both give solvable engines. */
  method SetupSolvable() returns (negative: Result<bool>, nonSquare: Result<bool>)
    ensures negative == Ok(true) && nonSquare == Ok(true)
  {
    negative := FreshEngineSolvable(-1);
    nonSquare := FreshEngineSolvable(7);
  }

  /** The empty 9-by-9 grid is solvable. */
  method EmptyGridSolvable() returns (res: Result<bool>)
    ensures res == Ok(true)
  {
    var e := NewStandard();
    EmptyFieldSolvable(9, 3);
    res := e.Solve();
  }

  /** Two clashing 5s make solve fail; after clear the grid is solvable again. */
  method ClearedGridSolvable() returns (before: Result<bool>, after: Result<bool>)
    ensures before == Ok(false) && after == Ok(true)
  {
    var e := NewStandard();
    before := SolveWithPair(e, 8, 0);
    e.Clear();
    EmptyFieldSolvable(9, 3);
    after := e.Solve();
  }
}
