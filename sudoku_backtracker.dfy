/**
 * The solving engine: a grid of integers kept in a two-dimensional array,
 * single-cell and whole-grid operations on it, the sudoku rule checks, and
 * a row-major backtracking search that fills the empty cells in place.
 *
 * The array's side is the storage dimension: the absolute value of the
 * requested size after construction, the logical size after clear and
 * setMatrix. The logical size is sqDim * sqDim where sqDim is the floor of
 * the square root of the requested size; the rules and the search only
 * look at the logical size-by-size field.
 */
module SudokuBacktracker {
  import opened SudokuRules
  import opened SudokuSolver

  // ---------------------------------------------------------------------
  // Integer square root (the constructor's Math.sqrt followed by a cast)
  // ---------------------------------------------------------------------

  lemma SquareAtLeast(x: nat)
    ensures x <= x * x
  {
    if x > 0 {
      assert x * x == x * (x - 1) + x;
    }
  }

  /** The largest r >= s whose square is at most m. */
  function SqrtFrom(m: nat, s: nat): (r: nat)
    requires s * s <= m
    ensures s <= r && r * r <= m < (r + 1) * (r + 1)
    decreases m - s
  {
    SquareAtLeast(s + 1);
    if (s + 1) * (s + 1) > m then s else SqrtFrom(m, s + 1)
  }

  /** The floor of the square root of m. */
  function FloorSqrt(m: nat): (s: nat)
    ensures s * s <= m < (s + 1) * (s + 1)
  {
    SqrtFrom(m, 0)
  }

  /** The floor square root is the only s with s*s <= m < (s+1)*(s+1). */
  lemma FloorSqrtUnique(m: nat, s: nat)
    requires s * s <= m < (s + 1) * (s + 1)
    ensures FloorSqrt(m) == s
  {
    var t := FloorSqrt(m);
    if t < s {
      MulMono(t + 1, s);
    } else if s < t {
      MulMono(s + 1, t);
    }
  }

  lemma MulMono(x: nat, y: nat)
    requires x <= y
    ensures x * x <= y * y
  {
    assert x * x <= x * y <= y * y;
  }

  // ---------------------------------------------------------------------
  // Boxes: the index range a box scan visits
  // ---------------------------------------------------------------------

  /** The box holding row (or column) r starts at (r/b)*b and stays inside the field. */
  lemma BoxBounds(b: nat, r: int)
    requires b > 0 && 0 <= r < b * b
    ensures 0 <= (r / b) * b <= r < (r / b) * b + b <= b * b
    ensures (r / b + 1) * b == (r / b) * b + b
  {
    var q := r / b;
    assert r == q * b + r % b && 0 <= r % b < b;
    assert 0 <= q;
    if q >= b {
      MulLeft(b, q, b);
      assert false;
    }
    MulLeft(q, b - 1, b);
    assert (b - 1) * b == b * b - b;
  }

  /** i shares r's box index exactly when it lies in r's box range. */
  lemma BoxRange(b: nat, r: int, i: int)
    requires b > 0 && 0 <= r && 0 <= i
    ensures i / b == r / b <==> (r / b) * b <= i < (r / b) * b + b
  {
    var q := r / b;
    assert i == (i / b) * b + i % b;
    if (i / b) < q {
      assert (i / b) * b <= (q - 1) * b;
    } else if (i / b) > q {
      assert (i / b) * b >= (q + 1) * b;
    }
  }

  // ---------------------------------------------------------------------
  // Argument checks of the single-cell operations
  // ---------------------------------------------------------------------

  /** setNumber's checks: a number in [1..size] and a cell of the storage. */
  predicate SetNumberAccepted(storage: int, size: int, r: int, c: int, nbr: int) {
    1 <= nbr <= size && CellAccepted(storage, r, c)
  }

  /** getNumber's and clearNumber's check: a cell of the storage. */
  predicate CellAccepted(storage: int, r: int, c: int) {
    InField(storage, r, c)
  }

  /** isValid's checks: a cell of the logical field and a number in [0..size]. */
  predicate IsValidAccepted(size: int, r: int, c: int, nbr: int) {
    InField(size, r, c) && 0 <= nbr <= size
  }

  /** copyMatrix hands back a zero grid: no matrix, or neither side matches. */
  predicate CopyResets(matrix: array2?<int>, size: int) {
    matrix == null || (matrix.Length0 != size && matrix.Length1 != size)
  }

  /**
   * copyMatrix finishes without an index error: the first row exists when it
   * is consulted, and a matrix that is copied is at least size by size.
   */
  predicate CopyDefined(matrix: array2?<int>, size: int) {
    matrix == null ||
    (matrix.Length0 == size && matrix.Length1 >= size) ||
    (matrix.Length0 != size && matrix.Length0 > 0 && (matrix.Length1 != size || matrix.Length0 >= size))
  }

  /** The contents of an array as a grid value. */
  ghost function Snapshot(a: array2<int>): (g: Grid)
    reads a
    ensures |g| == a.Length0
    ensures forall i :: 0 <= i < |g| ==> |g[i]| == a.Length1
    ensures forall i, j :: 0 <= i < a.Length0 && 0 <= j < a.Length1 ==> g[i][j] == a[i, j]
  {
    seq(a.Length0, i requires 0 <= i < a.Length0 reads a =>
      seq(a.Length1, j requires 0 <= j < a.Length1 reads a => a[i, j]))
  }

  class Backtracker {
    const sqDim: nat
    const size: nat := sqDim * sqDim
    var numbers: array2<int>
    /** The contents of numbers, as a grid value. */
    ghost var Cells: Grid

    ghost predicate Valid()
      reads this, numbers
    {
      numbers.Length0 == numbers.Length1 && size <= numbers.Length0 &&
      |Cells| == numbers.Length0 && Shaped(Cells, size) &&
      forall i, j :: 0 <= i < numbers.Length0 && 0 <= j < numbers.Length1 ==> Cells[i][j] == numbers[i, j]
    }

    /** A grid of side |n|, every cell empty, whose logical size is the largest square <= |n|. */
    constructor (n: int)
      requires -0x8000_0000 < n < 0x8000_0000
      ensures Valid() && fresh(numbers)
      ensures numbers.Length0 == (if n < 0 then -n else n)
      ensures sqDim * sqDim <= numbers.Length0 < (sqDim + 1) * (sqDim + 1)
      ensures Cells == Blank(numbers.Length0)
    {
      var m := if n < 0 then -n else n;
      sqDim := FloorSqrt(m);
      numbers := new int[m, m]((i, j) => 0);
      Cells := Blank(m);
    }

    /** The array write numbers[r][c] = v, with the grid value kept in step. */
    method Write(r: int, c: int, v: int)
      requires Valid() && 0 <= r < numbers.Length0 && 0 <= c < numbers.Length1
      modifies this, numbers
      ensures Valid() && numbers == old(numbers)
      ensures Cells == Place(old(Cells), r, c, v)
    {
      numbers[r, c] := v;
      Cells := Place(Cells, r, c, v);
    }

    /** Writes nbr into cell (r, c); fails, changing nothing, on a bad number or cell. */
    method SetNumber(r: int, c: int, nbr: int) returns (ok: bool)
      requires Valid()
      modifies this, numbers
      ensures Valid() && numbers == old(numbers)
      ensures ok == SetNumberAccepted(numbers.Length0, size, r, c, nbr)
      ensures Cells == if ok then Place(old(Cells), r, c, nbr) else old(Cells)
    {
      if nbr < 1 || nbr > size {
        return false;
      }
      if r < 0 || r >= numbers.Length0 || c < 0 || c >= numbers.Length1 {
        return false;
      }
      Write(r, c, nbr);
      return true;
    }

    /** The number in cell (r, c), 0 when it is empty. */
    method GetNumber(r: int, c: int) returns (res: Result<int>)
      requires Valid()
      ensures res.IllegalArgument? <==> !CellAccepted(|Cells|, r, c)
      ensures res.Ok? ==> res.value == Cells[r][c]
    {
      if r < 0 || r >= numbers.Length0 || c < 0 || c >= numbers.Length1 {
        return IllegalArgument;
      }
      return Ok(numbers[r, c]);
    }

    /** Empties cell (r, c); fails, changing nothing, on a bad cell. */
    method ClearNumber(r: int, c: int) returns (ok: bool)
      requires Valid()
      modifies this, numbers
      ensures Valid() && numbers == old(numbers)
      ensures ok == CellAccepted(numbers.Length0, r, c)
      ensures Cells == if ok then Place(old(Cells), r, c, 0) else old(Cells)
    {
      if r < 0 || r >= numbers.Length0 || c < 0 || c >= numbers.Length1 {
        return false;
      }
      Write(r, c, 0);
      return true;
    }

    /** Whether the rules allow nbr at (r, c): no other cell of its row, column or box holds it. */
    method IsValid(r: int, c: int, nbr: int) returns (res: Result<bool>)
      requires Valid()
      ensures res.IllegalArgument? <==> !IsValidAccepted(size, r, c, nbr)
      ensures res.Ok? ==> (res.value <==> Allowed(Cells, size, sqDim, r, c, nbr))
    {
      if r < 0 || c < 0 || r >= size || c >= size || nbr < 0 || nbr > size {
        return IllegalArgument;
      }
      if nbr == 0 {
        return Ok(true);
      }
      // the row
      for col := 0 to size
        invariant forall j :: 0 <= j < col && j != c ==> Cells[r][j] != nbr
      {
        if nbr == numbers[r, col] && col != c {
          assert Peer(sqDim, r, col, r, c);
          return Ok(false);
        }
      }
      // the column
      for row := 0 to size
        invariant forall i :: 0 <= i < row && i != r ==> Cells[i][c] != nbr
      {
        if nbr == numbers[row, c] && row != r {
          assert Peer(sqDim, row, c, r, c);
          return Ok(false);
        }
      }
      // the box
      BoxBounds(sqDim, r);
      BoxBounds(sqDim, c);
      var top, left := (r / sqDim) * sqDim, (c / sqDim) * sqDim;
      for row := top to (r / sqDim + 1) * sqDim
        invariant forall i, j :: top <= i < row && left <= j < left + sqDim && i != r && j != c ==>
          Cells[i][j] != nbr
      {
        for col := left to (c / sqDim + 1) * sqDim
          invariant forall i, j :: top <= i < row && left <= j < left + sqDim && i != r && j != c ==>
            Cells[i][j] != nbr
          invariant forall j :: left <= j < col && row != r && j != c ==> Cells[row][j] != nbr
        {
          if nbr == numbers[row, col] && row != r && col != c {
            BoxRange(sqDim, r, row);
            BoxRange(sqDim, c, col);
            assert Peer(sqDim, row, col, r, c);
            return Ok(false);
          }
        }
      }
      forall i, j | 0 <= i < size && 0 <= j < size && Peer(sqDim, i, j, r, c)
        ensures Cells[i][j] != nbr
      {
        if i != r && j != c {
          BoxRange(sqDim, r, i);
          BoxRange(sqDim, c, j);
        }
      }
      return Ok(true);
    }

    /**
     * Whether the whole field complies with the rules. The cells are checked
     * in row-major order; the first one that is not good decides: a value
     * outside [0..size] makes isValid, and so this check, fail.
     */
    /** Every first fault of the grid is (r, c), so it alone decides isAllValid. */
    lemma OnlyFault(r: int, c: int)
      requires Valid() && FirstFault(Cells, size, sqDim, r, c)
      ensures forall r', c' :: FirstFault(Cells, size, sqDim, r', c') ==> r' == r && c' == c
    {
      forall r', c' | FirstFault(Cells, size, sqDim, r', c')
        ensures r' == r && c' == c
      {
        FirstFaultUnique(Cells, size, sqDim, r, c, r', c');
      }
    }

    method IsAllValid() returns (res: Result<bool>)
      requires Valid()
      ensures res == Ok(true) <==> AllValid(Cells, size, sqDim)
      ensures res == Ok(false) <==>
        exists r, c :: FirstFault(Cells, size, sqDim, r, c) && 0 <= Cells[r][c] <= size
      ensures res.IllegalArgument? <==>
        exists r, c :: FirstFault(Cells, size, sqDim, r, c) && !(0 <= Cells[r][c] <= size)
    {
      for r := 0 to size
        invariant GoodBefore(Cells, size, sqDim, r, 0)
      {
        for c := 0 to size
          invariant GoodBefore(Cells, size, sqDim, r, c)
        {
          var v := IsValid(r, c, numbers[r, c]);
          if v.IllegalArgument? {
            assert FirstFault(Cells, size, sqDim, r, c);
            OnlyFault(r, c);
            return IllegalArgument;
          }
          if !v.value {
            assert FirstFault(Cells, size, sqDim, r, c);
            FaultIsInvalid(Cells, size, sqDim, r, c);
            OnlyFault(r, c);
            return Ok(false);
          }
        }
      }
      return Ok(true);
    }

    /**
     * Fills every empty cell so that the field complies with the rules,
     * keeping every nonzero cell. Succeeds exactly when such a filling
     * exists; otherwise the grid is left as it was.
     */
    method Solve() returns (res: Result<bool>)
      requires Valid()
      modifies this, numbers
      ensures Valid() && numbers == old(numbers)
      ensures res == Ok(true) <==> Solvable(old(Cells), size, sqDim, 0, 0)
      ensures res == Ok(true) ==> Completes(old(Cells), Cells, size, sqDim, 0, 0)
      ensures res != Ok(true) ==> Cells == old(Cells)
      ensures res.IllegalArgument? <==>
        exists r, c :: FirstFault(old(Cells), size, sqDim, r, c) && !(0 <= old(Cells)[r][c] <= size)
    {
      var valid := IsAllValid();
      if valid.IllegalArgument? {
        ghost var r, c :| FirstFault(Cells, size, sqDim, r, c) && !(0 <= Cells[r][c] <= size);
        FaultIsInvalid(Cells, size, sqDim, r, c);
        InvalidIsUnsolvable(Cells, size, sqDim, 0, 0);
        return IllegalArgument;
      }
      if !valid.value {
        InvalidIsUnsolvable(Cells, size, sqDim, 0, 0);
        return Ok(false);
      }
      var solved := SolveFrom(0, 0);
      return Ok(solved);
    }

    /**
     * The search from cell (r, c) in row-major order. On success the grid is
     * a solution of the grid on entry for a search from (r, c); on failure
     * there is none and the grid is as it was on entry.
     */
    method SolveFrom(r: int, c: int) returns (b: bool)
      requires Valid() && AllValid(Cells, size, sqDim)
      requires 0 <= r <= size && 0 <= c && (r < size ==> c < size)
      modifies this, numbers
      ensures Valid() && numbers == old(numbers)
      ensures b ==> Completes(old(Cells), Cells, size, sqDim, r, c)
      ensures !b ==> Cells == old(Cells) && !Solvable(old(Cells), size, sqDim, r, c)
      decreases size - r, size - c
    {
      if r == size {
        EndOfSearch(Cells, size, sqDim, c);
        return true;
      }
      var nextRow, nextCol;
      if c < size - 1 {
        nextCol := c + 1;
        nextRow := r;
      } else {
        nextRow := r + 1;
        nextCol := 0;
      }
      assert (nextRow, nextCol) == Next(size, r, c);

      b := false;
      ghost var g := Cells;
      if numbers[r, c] == 0 {
        for nbr := 1 to size + 1
          invariant Valid() && numbers == old(numbers)
          invariant Cells == g
          invariant forall v :: 1 <= v < nbr ==> Refuted(g, size, sqDim, r, c, v)
        {
          var allowed := IsValid(r, c, nbr);
          if allowed.value {
            PlaceKeepsValid(g, size, sqDim, r, c, nbr);
            Write(r, c, nbr);
            b := SolveFrom(nextRow, nextCol);
            if !b {
              Write(r, c, 0);
              PlaceUndo(g, size, r, c, nbr);
            } else {
              EmptyCellCompletes(g, Cells, size, sqDim, r, c, nbr);
              break;
            }
          } else {
            DisallowedDeadEnd(g, size, sqDim, r, c, nbr);
          }
        }
        if !b {
          ExhaustedCell(g, size, sqDim, r, c);
        }
      } else {
        b := SolveFrom(nextRow, nextCol);
        FixedCellSolvable(g, size, sqDim, r, c);
        if b {
          FixedCellCompletes(g, Cells, size, sqDim, r, c);
        }
      }
    }

    /**
     * A fresh size-by-size copy of matrix, or a fresh zero grid when there is
     * no matrix or neither of its sides is size.
     */
    method CopyMatrix(matrix: array2?<int>) returns (copy: array2<int>)
      requires CopyDefined(matrix, size)
      ensures fresh(copy) && copy.Length0 == size && copy.Length1 == size
      ensures CopyResets(matrix, size) ==>
        forall i, j :: 0 <= i < size && 0 <= j < size ==> copy[i, j] == 0
      ensures !CopyResets(matrix, size) ==>
        matrix.Length0 >= size && matrix.Length1 >= size &&
        forall i, j :: 0 <= i < size && 0 <= j < size ==> copy[i, j] == matrix[i, j]
    {
      if matrix == null {
        copy := new int[size, size]((i, j) => 0);
        return;
      }
      if matrix.Length0 != size && matrix.Length1 != size {
        copy := new int[size, size]((i, j) => 0);
        return;
      }
      copy := new int[size, size]((i, j) => 0);
      for r := 0 to size
        invariant forall i, j :: 0 <= i < r && 0 <= j < size ==> copy[i, j] == matrix[i, j]
      {
        for c := 0 to size
          invariant forall i, j :: 0 <= i < r && 0 <= j < size ==> copy[i, j] == matrix[i, j]
          invariant forall j :: 0 <= j < c ==> copy[r, j] == matrix[r, j]
        {
          copy[r, c] := matrix[r, c];
        }
      }
    }

    /** Empties every cell; the storage becomes size by size. */
    method Clear()
      requires Valid()
      modifies this
      ensures Valid() && fresh(numbers)
      ensures numbers.Length0 == size && Cells == Blank(size)
    {
      numbers := new int[size, size]((i, j) => 0);
      Cells := Blank(size);
    }

    /**
     * A fresh size-by-size copy of the field; all zeros when the storage is
     * not size by size (a grid built from a non-square size and not yet
     * cleared or replaced).
     */
    method GetMatrix() returns (m: array2<int>)
      requires Valid()
      ensures fresh(m) && m.Length0 == size && m.Length1 == size
      ensures forall i, j :: 0 <= i < size && 0 <= j < size ==>
        m[i, j] == if numbers.Length0 == size then Cells[i][j] else 0
    {
      m := CopyMatrix(numbers);
    }

    /** Replaces the grid by a size-by-size copy of nbrs (a zero grid when copyMatrix resets). */
    method SetMatrix(nbrs: array2?<int>)
      requires Valid() && CopyDefined(nbrs, size)
      modifies this
      ensures Valid() && fresh(numbers) && numbers.Length0 == size
      ensures CopyResets(nbrs, size) ==> Cells == Blank(size)
      ensures !CopyResets(nbrs, size) ==>
        nbrs.Length0 >= size && nbrs.Length1 >= size &&
        forall i, j :: 0 <= i < size && 0 <= j < size ==> Cells[i][j] == nbrs[i, j]
    {
      numbers := CopyMatrix(nbrs);
      Cells := Snapshot(numbers);
      if CopyResets(nbrs, size) {
        forall i | 0 <= i < size
          ensures Cells[i] == Blank(size)[i]
        {
        }
      }
    }

    /** The logical dimension: the square of the box side. */
    function GetDimension(): (d: nat)
      ensures d == sqDim * sqDim
      ensures FloorSqrt(d) == sqDim
    {
      FloorSqrtUnique(size, sqDim);
      size
    }
  }

  // ---------------------------------------------------------------------
  // The engine against the interface's documentation
  // ---------------------------------------------------------------------

  /**
   * When the storage is exactly the logical field, setNumber rejects what the
   * interface documents, with the value bound read as the dimension; for the
   * default dimension this is the documented [1..9].
   */
  lemma SetNumberMatchesDocumentation(d: nat, r: int, c: int, nbr: int)
    ensures SetNumberAccepted(d, d, r, c, nbr) <==> DocCellInRange(d, r, c) && 1 <= nbr <= d
    ensures d == DefaultDimension() ==>
      (SetNumberAccepted(d, d, r, c, nbr) <==> DocSetNumberAccepts(d, r, c, nbr))
  {
  }

  /** getNumber and clearNumber reject exactly the cells the interface documents when storage is the field. */
  lemma CellChecksMatchDocumentation(d: nat, r: int, c: int)
    ensures CellAccepted(d, r, c) <==> DocCellInRange(d, r, c)
  {
  }

  /** isValid rejects exactly the documented arguments at the default dimension. */
  lemma IsValidMatchesDocumentation(r: int, c: int, nbr: int)
    ensures IsValidAccepted(DefaultDimension(), r, c, nbr) <==> DocIsValidAccepts(DefaultDimension(), r, c, nbr)
  {
  }

  /** Requested sizes 9 to 15 give the default dimension 9 with box side 3. */
  lemma DimensionMatchesDefault(m: nat)
    requires 9 <= m < 16
    ensures FloorSqrt(m) == 3 && FloorSqrt(m) * FloorSqrt(m) == DefaultDimension()
  {
    FloorSqrtUnique(m, 3);
  }

  /**
   * A requested size of 7 gives dimension 4 over 7-by-7 storage: setNumber
   * then accepts cell (5, 5), which the interface documents as out of range.
   */
  lemma NonSquareStorageExceedsDimension()
    ensures FloorSqrt(7) * FloorSqrt(7) == 4
    ensures SetNumberAccepted(7, 4, 5, 5, 1) && !DocSetNumberAccepts(4, 5, 5, 1)
  {
    FloorSqrtUnique(7, 2);
  }
}
