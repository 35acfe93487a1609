/**
 * The SudokuSolver interface: the outcome type shared by its operations and
 * the argument bounds its documentation promises. An operation that the
 * documentation says throws IllegalArgumentException returns
 * IllegalArgument (or reports failure) instead.
 */
module SudokuSolver {

  datatype Result<T> = Ok(value: T) | IllegalArgument

  /** The dimension reported by an implementation that keeps the interface's getDimension. */
  function DefaultDimension(): nat {
    9
  }

  /** Documented bounds of a cell: r and c in [0..d-1]. */
  predicate DocCellInRange(d: int, r: int, c: int) {
    0 <= r <= d - 1 && 0 <= c <= d - 1
  }

  /** Documented arguments of setNumber: a cell in range and a number in [1..9]. */
  predicate DocSetNumberAccepts(d: int, r: int, c: int, nbr: int) {
    DocCellInRange(d, r, c) && 1 <= nbr <= 9
  }

  /**
   * Documented arguments of isValid: a cell in range and a number in bounds,
   * read as [0..9], the values the interface lets a grid hold.
   */
  predicate DocIsValidAccepts(d: int, r: int, c: int, nbr: int) {
    DocCellInRange(d, r, c) && 0 <= nbr <= 9
  }
}
