/**
 * The rules of generalised Sudoku, stated on grid values.
 *
 * A grid is a square array of integers. Its top-left n-by-n region is the
 * playing field, where n = b*b and b is the side of a box. A cell holds 0
 * when it is empty and a digit 1..n otherwise. Cells outside the playing
 * field are storage the rules never look at.
 */
module SudokuRules {

  type Grid = seq<seq<int>>

  /** Every row of g is |g| long and the n-by-n playing field fits inside g. */
  ghost predicate Shaped(g: Grid, n: nat) {
    n <= |g| && forall i :: 0 <= i < |g| ==> |g[i]| == |g|
  }

  predicate InField(n: int, i: int, j: int) {
    0 <= i < n && 0 <= j < n
  }

  /** (i, j) lies in the same b-by-b box as (r, c). */
  predicate SameBox(b: int, i: int, j: int, r: int, c: int) {
    b > 0 && i / b == r / b && j / b == c / b
  }

  /** (i, j) is a peer of (r, c): another cell of its row, its column or its box. */
  predicate Peer(b: int, i: int, j: int, r: int, c: int) {
    (i != r || j != c) && (i == r || j == c || SameBox(b, i, j, r, c))
  }

  /** Row-major order of cells: (i, j) is visited before (r, c). */
  predicate Before(i: int, j: int, r: int, c: int) {
    i < r || (i == r && j < c)
  }

  /** The cell visited after (r, c) in row-major order over an n-by-n field. */
  function Next(n: int, r: int, c: int): (int, int) {
    if c < n - 1 then (r, c + 1) else (r + 1, 0)
  }

  /** The grid with cell (r, c) set to v. */
  function Place(g: Grid, r: int, c: int, v: int): Grid
    requires 0 <= r < |g| && 0 <= c < |g[r]|
  {
    g[r := g[r][c := v]]
  }

  /** A side-by-side grid of zeros. */
  function Blank(m: nat): (g: Grid)
    ensures Shaped(g, m) && |g| == m
    ensures forall i, j :: 0 <= i < m && 0 <= j < m ==> g[i][j] == 0
  {
    seq(m, _ => seq(m, _ => 0))
  }

  /** The sudoku rules allow v at (r, c): v is 0, or no peer of (r, c) holds v. */
  ghost predicate Allowed(g: Grid, n: nat, b: int, r: int, c: int, v: int)
    requires Shaped(g, n)
  {
    v == 0 || forall i, j :: 0 <= i < n && 0 <= j < n && Peer(b, i, j, r, c) ==> g[i][j] != v
  }

  /** The value of cell (i, j) lies in 0..n and the rules allow it there. */
  ghost predicate Good(g: Grid, n: nat, b: int, i: int, j: int)
    requires Shaped(g, n) && InField(n, i, j)
  {
    0 <= g[i][j] <= n && Allowed(g, n, b, i, j, g[i][j])
  }

  /** The whole field complies with the rules; empty cells are allowed. */
  ghost predicate AllValid(g: Grid, n: nat, b: int)
    requires Shaped(g, n)
  {
    forall i, j :: 0 <= i < n && 0 <= j < n ==> Good(g, n, b, i, j)
  }

  /** Every cell visited before (r, c) is good. */
  ghost predicate GoodBefore(g: Grid, n: nat, b: int, r: int, c: int)
    requires Shaped(g, n)
  {
    forall i, j :: 0 <= i < n && 0 <= j < n && Before(i, j, r, c) ==> Good(g, n, b, i, j)
  }

  /** (r, c) is the first cell, in row-major order, that is not good. */
  ghost predicate FirstFault(g: Grid, n: nat, b: int, r: int, c: int)
    requires Shaped(g, n)
  {
    InField(n, r, c) && GoodBefore(g, n, b, r, c) && !Good(g, n, b, r, c)
  }

  /** No cell of the field from (r, c) onwards is empty. */
  ghost predicate FilledFrom(g: Grid, n: nat, r: int, c: int)
    requires Shaped(g, n)
  {
    forall i, j :: 0 <= i < n && 0 <= j < n && !Before(i, j, r, c) ==> g[i][j] != 0
  }

  /**
   * h agrees with g except in empty cells of the field at or after (r, c):
   * the cells a search started at (r, c) may fill in.
   */
  ghost predicate Extends(g: Grid, h: Grid, n: nat, r: int, c: int)
    requires Shaped(g, n)
  {
    |h| == |g| && Shaped(h, n) &&
    forall i, j :: 0 <= i < |g| && 0 <= j < |g| ==>
      h[i][j] == g[i][j] || (InField(n, i, j) && !Before(i, j, r, c) && g[i][j] == 0)
  }

  /** h is a solution of g for a search started at (r, c). */
  ghost predicate Completes(g: Grid, h: Grid, n: nat, b: int, r: int, c: int)
    requires Shaped(g, n)
  {
    Extends(g, h, n, r, c) && FilledFrom(h, n, r, c) && AllValid(h, n, b)
  }

  ghost predicate Solvable(g: Grid, n: nat, b: int, r: int, c: int)
    requires Shaped(g, n)
  {
    exists h :: Completes(g, h, n, b, r, c)
  }

  // ---------------------------------------------------------------------
  // Facts about placing a value
  // ---------------------------------------------------------------------

  lemma PlaceShaped(g: Grid, n: nat, r: int, c: int, v: int)
    requires Shaped(g, n) && 0 <= r < |g| && 0 <= c < |g|
    ensures Shaped(Place(g, r, c, v), n) && |Place(g, r, c, v)| == |g|
    ensures Place(g, r, c, v)[r][c] == v
    ensures forall i, j :: 0 <= i < |g| && 0 <= j < |g| && (i != r || j != c) ==>
      Place(g, r, c, v)[i][j] == g[i][j]
  {
  }

  /** Writing a value and then 0 into an empty cell gives back the grid. */
  lemma PlaceUndo(g: Grid, n: nat, r: int, c: int, v: int)
    requires Shaped(g, n) && 0 <= r < |g| && 0 <= c < |g| && g[r][c] == 0
    ensures Place(Place(g, r, c, v), r, c, 0) == g
  {
    assert Place(g, r, c, v)[r][c := 0] == g[r];
  }

  /** Being a peer is symmetric. */
  lemma PeerSymmetric(b: int, i: int, j: int, r: int, c: int)
    ensures Peer(b, i, j, r, c) <==> Peer(b, r, c, i, j)
  {
  }

  /** Placing a digit the rules allow into a valid grid keeps it valid. */
  lemma PlaceKeepsValid(g: Grid, n: nat, b: int, r: int, c: int, v: int)
    requires Shaped(g, n) && InField(n, r, c)
    requires AllValid(g, n, b) && 1 <= v <= n && Allowed(g, n, b, r, c, v)
    ensures Shaped(Place(g, r, c, v), n)
    ensures AllValid(Place(g, r, c, v), n, b)
  {
    var p := Place(g, r, c, v);
    PlaceShaped(g, n, r, c, v);
    forall i, j | 0 <= i < n && 0 <= j < n
      ensures Good(p, n, b, i, j)
    {
      if i == r && j == c {
        forall k, l | 0 <= k < n && 0 <= l < n && Peer(b, k, l, r, c)
          ensures p[k][l] != v
        {
          assert p[k][l] == g[k][l];
        }
      } else {
        assert Good(g, n, b, i, j);
        var w := g[i][j];
        if w != 0 {
          forall k, l | 0 <= k < n && 0 <= l < n && Peer(b, k, l, i, j)
            ensures p[k][l] != w
          {
            if k == r && l == c {
              PeerSymmetric(b, k, l, i, j);
              assert g[i][j] != v;
            } else {
              assert p[k][l] == g[k][l];
            }
          }
        }
      }
    }
  }

  // ---------------------------------------------------------------------
  // Facts about solutions, one step of the row-major search at a time
  // ---------------------------------------------------------------------

  /** The cells before Next(n, r, c) are those before (r, c) and (r, c) itself. */
  lemma BeforeNext(n: int, r: int, c: int, i: int, j: int)
    requires 0 <= c < n && 0 <= j < n
    ensures Before(i, j, Next(n, r, c).0, Next(n, r, c).1) <==> Before(i, j, r, c) || (i == r && j == c)
  {
  }

  /** A solution never disagrees with a nonzero cell of the grid it extends. */
  lemma SolutionKeepsValid(g: Grid, h: Grid, n: nat, b: int, r: int, c: int)
    requires Shaped(g, n) && Completes(g, h, n, b, r, c)
    ensures AllValid(g, n, b)
  {
    forall i, j | 0 <= i < n && 0 <= j < n
      ensures Good(g, n, b, i, j)
    {
      var w := g[i][j];
      if w != 0 {
        assert h[i][j] == w;
        assert Good(h, n, b, i, j);
        forall k, l | 0 <= k < n && 0 <= l < n && Peer(b, k, l, i, j)
          ensures g[k][l] != w
        {
          if g[k][l] != 0 {
            assert h[k][l] == g[k][l];
          }
        }
      }
    }
  }

  /** A grid that breaks the rules has no solution. */
  lemma InvalidIsUnsolvable(g: Grid, n: nat, b: int, r: int, c: int)
    requires Shaped(g, n) && !AllValid(g, n, b)
    ensures !Solvable(g, n, b, r, c)
  {
    if h :| Completes(g, h, n, b, r, c) {
      SolutionKeepsValid(g, h, n, b, r, c);
    }
  }

  /** At a nonzero cell, a solution from (r, c) is exactly a solution from the next cell. */
  lemma FixedCellCompletes(g: Grid, h: Grid, n: nat, b: int, r: int, c: int)
    requires Shaped(g, n) && InField(n, r, c) && g[r][c] != 0
    ensures Completes(g, h, n, b, r, c) <==> Completes(g, h, n, b, Next(n, r, c).0, Next(n, r, c).1)
  {
    var (nr, nc) := Next(n, r, c);
    forall i, j | 0 <= j < n
      ensures Before(i, j, nr, nc) <==> Before(i, j, r, c) || (i == r && j == c)
    {
      BeforeNext(n, r, c, i, j);
    }
  }

  lemma FixedCellSolvable(g: Grid, n: nat, b: int, r: int, c: int)
    requires Shaped(g, n) && InField(n, r, c) && g[r][c] != 0
    ensures Solvable(g, n, b, r, c) <==> Solvable(g, n, b, Next(n, r, c).0, Next(n, r, c).1)
  {
    var (nr, nc) := Next(n, r, c);
    forall h
      ensures Completes(g, h, n, b, r, c) <==> Completes(g, h, n, b, nr, nc)
    {
      FixedCellCompletes(g, h, n, b, r, c);
    }
  }

  /** At an empty cell, a solution after placing a digit there is a solution of the grid. */
  lemma EmptyCellCompletes(g: Grid, h: Grid, n: nat, b: int, r: int, c: int, v: int)
    requires Shaped(g, n) && InField(n, r, c) && g[r][c] == 0 && v != 0
    requires Completes(Place(g, r, c, v), h, n, b, Next(n, r, c).0, Next(n, r, c).1)
    ensures Completes(g, h, n, b, r, c)
  {
    var (nr, nc) := Next(n, r, c);
    var p := Place(g, r, c, v);
    PlaceShaped(g, n, r, c, v);
    forall i, j | 0 <= j < n
      ensures Before(i, j, nr, nc) <==> Before(i, j, r, c) || (i == r && j == c)
    {
      BeforeNext(n, r, c, i, j);
    }
    assert h[r][c] == v;
    forall i, j | 0 <= i < |g| && 0 <= j < |g|
      ensures h[i][j] == g[i][j] || (InField(n, i, j) && !Before(i, j, r, c) && g[i][j] == 0)
    {
      if i != r || j != c {
        assert p[i][j] == g[i][j];
      }
    }
  }

  /**
   * At an empty cell, every solution from (r, c) holds there a digit the rules
   * allow, and is a solution after placing that digit.
   */
  lemma EmptyCellChoice(g: Grid, h: Grid, n: nat, b: int, r: int, c: int)
    requires Shaped(g, n) && InField(n, r, c) && g[r][c] == 0
    requires Completes(g, h, n, b, r, c)
    ensures 1 <= h[r][c] <= n && Allowed(g, n, b, r, c, h[r][c])
    ensures Completes(Place(g, r, c, h[r][c]), h, n, b, Next(n, r, c).0, Next(n, r, c).1)
  {
    var v := h[r][c];
    var (nr, nc) := Next(n, r, c);
    var p := Place(g, r, c, v);
    PlaceShaped(g, n, r, c, v);
    assert Good(h, n, b, r, c);
    assert v != 0;
    forall i, j | 0 <= i < n && 0 <= j < n && Peer(b, i, j, r, c)
      ensures g[i][j] != v
    {
      if g[i][j] != 0 {
        assert h[i][j] == g[i][j];
      }
    }
    forall i, j | 0 <= j < n
      ensures Before(i, j, nr, nc) <==> Before(i, j, r, c) || (i == r && j == c)
    {
      BeforeNext(n, r, c, i, j);
    }
    forall i, j | 0 <= i < |p| && 0 <= j < |p|
      ensures h[i][j] == p[i][j] || (InField(n, i, j) && !Before(i, j, nr, nc) && p[i][j] == 0)
    {
      if i != r || j != c {
        assert p[i][j] == g[i][j];
      }
    }
  }

  /** A solution after placing v at the empty cell (r, c) shows that the rules allow v there. */
  lemma PlacedDigitAllowed(g: Grid, h: Grid, n: nat, b: int, r: int, c: int, v: int)
    requires Shaped(g, n) && InField(n, r, c) && g[r][c] == 0
    requires Shaped(Place(g, r, c, v), n)
    requires Completes(Place(g, r, c, v), h, n, b, Next(n, r, c).0, Next(n, r, c).1)
    ensures Allowed(g, n, b, r, c, v)
  {
    if v != 0 {
      EmptyCellCompletes(g, h, n, b, r, c, v);
      EmptyCellChoice(g, h, n, b, r, c);
      BeforeNext(n, r, c, r, c);
      assert h[r][c] == v;
    }
  }

  /** Writing v into (r, c) leaves no solution from the next cell on. */
  ghost predicate Refuted(g: Grid, n: nat, b: int, r: int, c: int, v: int)
    requires 0 <= r < |g| && 0 <= c < |g[r]|
  {
    Shaped(Place(g, r, c, v), n) && !Solvable(Place(g, r, c, v), n, b, Next(n, r, c).0, Next(n, r, c).1)
  }

  /** A digit the rules forbid at (r, c) leads to no solution. */
  lemma DisallowedDeadEnd(g: Grid, n: nat, b: int, r: int, c: int, v: int)
    requires Shaped(g, n) && InField(n, r, c) && g[r][c] == 0
    requires !Allowed(g, n, b, r, c, v)
    ensures Refuted(g, n, b, r, c, v)
  {
    PlaceShaped(g, n, r, c, v);
    var (nr, nc) := Next(n, r, c);
    if h :| Completes(Place(g, r, c, v), h, n, b, nr, nc) {
      PlacedDigitAllowed(g, h, n, b, r, c, v);
      assert false;
    }
  }

  /** When no digit 1..n at an empty cell leads to a solution, the grid has none. */
  lemma ExhaustedCell(g: Grid, n: nat, b: int, r: int, c: int)
    requires Shaped(g, n) && InField(n, r, c) && g[r][c] == 0
    requires forall v :: 1 <= v <= n ==> Refuted(g, n, b, r, c, v)
    ensures !Solvable(g, n, b, r, c)
  {
    forall v | 1 <= v <= n
      ensures Shaped(Place(g, r, c, v), n) && !Solvable(Place(g, r, c, v), n, b, Next(n, r, c).0, Next(n, r, c).1)
    {
      assert Refuted(g, n, b, r, c, v);
    }
    if h :| Completes(g, h, n, b, r, c) {
      EmptyCellChoice(g, h, n, b, r, c);
    }
  }

  /** Past the last row, a valid grid is its own solution. */
  lemma EndOfSearch(g: Grid, n: nat, b: int, c: int)
    requires Shaped(g, n) && AllValid(g, n, b)
    ensures Completes(g, g, n, b, n, c)
  {
  }

  /** Only one cell can be the first fault, so the outcome of a row-major scan is determined. */
  lemma FirstFaultUnique(g: Grid, n: nat, b: int, r: int, c: int, r': int, c': int)
    requires Shaped(g, n)
    requires FirstFault(g, n, b, r, c) && FirstFault(g, n, b, r', c')
    ensures r == r' && c == c'
  {
    if Before(r, c, r', c') {
      assert false;
    } else if Before(r', c', r, c) {
      assert false;
    }
  }

  /** A first fault means the grid breaks the rules. */
  lemma FaultIsInvalid(g: Grid, n: nat, b: int, r: int, c: int)
    requires Shaped(g, n) && FirstFault(g, n, b, r, c)
    ensures !AllValid(g, n, b)
  {
  }

  // ---------------------------------------------------------------------
  // The empty field has a solution
  // ---------------------------------------------------------------------

  lemma MulLeft(x: int, y: int, k: nat)
    requires x <= y
    ensures x * k <= y * k
  {
  }

  /** Row or column i of a field of side b*b lies in box band i / b, one of b bands. */
  lemma BandBelow(b: nat, i: int)
    requires b > 0 && 0 <= i < b * b
    ensures 0 <= i / b < b
  {
    if i / b >= b {
      MulLeft(b, i / b, b);
      assert false;
    }
  }

  /** Distinct integers less than n apart differ modulo n. */
  lemma ModDistinct(x: int, y: int, n: int)
    requires n > 0 && x != y && -n < y - x < n
    ensures x % n != y % n
  {
    var k := y / n - x / n;
    assert y - x == n * k + (y % n - x % n);
    if k >= 1 {
      MulLeft(1, k, n);
    } else if k <= -1 {
      MulLeft(k, -1, n);
    }
  }

  /** b*d + e, with d and e digits of either sign in base b, is 0 only when both are, and below b*b in size. */
  lemma DigitPair(b: int, d: int, e: int)
    requires b > 0 && -b < d < b && -b < e < b && (d != 0 || e != 0)
    ensures b * d + e != 0 && -(b * b) < b * d + e < b * b
  {
    assert (b - 1) * b == b * b - b;
    if d >= 1 {
      MulLeft(1, d, b);
      MulLeft(d, b - 1, b);
    } else if d <= -1 {
      MulLeft(d, -1, b);
      MulLeft(-(b - 1), d, b);
    }
  }

  /** How far row i of the pattern solution is rotated: b*(i % b) + i / b. */
  function Shift(b: nat, i: int): int
    requires b > 0
  {
    b * (i % b) + i / b
  }

  /** The digit at (i, j) of the pattern solution: 1..b*b rotated by Shift(b, i). */
  function Pattern(b: nat, i: int, j: int): int
    requires b > 0
  {
    (Shift(b, i) + j) % (b * b) + 1
  }

  /** The rotations of rows i and k differ by b times the box-position gap plus the band gap. */
  lemma ShiftGap(b: nat, i: int, k: int)
    requires b > 0
    ensures Shift(b, k) - Shift(b, i) == b * (k % b - i % b) + (k / b - i / b)
  {
  }

  /** Distinct indices differ in their position inside a band or in their band. */
  lemma SplitDistinct(b: nat, i: int, k: int)
    requires b > 0 && i != k
    ensures k % b != i % b || k / b != i / b
  {
    assert i == b * (i / b) + i % b && k == b * (k / b) + k % b;
  }

  /** Different rows of the field have different rotations, less than a full turn apart. */
  lemma ShiftsDiffer(b: nat, i: int, k: int)
    requires b > 0 && 0 <= i < b * b && 0 <= k < b * b && i != k
    ensures Shift(b, k) != Shift(b, i) && -(b * b) < Shift(b, k) - Shift(b, i) < b * b
  {
    BandBelow(b, i);
    BandBelow(b, k);
    ShiftGap(b, i, k);
    SplitDistinct(b, i, k);
    DigitPair(b, k % b - i % b, k / b - i / b);
  }

  /** Two distinct cells of one box, in different rows and columns, are rotated apart by less than a full turn. */
  lemma BoxCellsDiffer(b: nat, i: int, j: int, k: int, l: int)
    requires b > 0 && 0 <= i && 0 <= j && 0 <= k && 0 <= l && i != k && j != l
    requires SameBox(b, k, l, i, j)
    ensures Shift(b, k) + l != Shift(b, i) + j
    ensures -(b * b) < (Shift(b, k) + l) - (Shift(b, i) + j) < b * b
  {
    ShiftGap(b, i, k);
    SplitDistinct(b, i, k);
    assert l - j == l % b - j % b by {
      assert l == b * (l / b) + l % b && j == b * (j / b) + j % b;
    }
    DigitPair(b, k % b - i % b, l % b - j % b);
  }

  /** Two peers of the field never hold the same pattern digit. */
  lemma PatternPeersDiffer(b: nat, i: int, j: int, k: int, l: int)
    requires b > 0 && InField(b * b, i, j) && InField(b * b, k, l) && Peer(b, k, l, i, j)
    ensures Pattern(b, k, l) != Pattern(b, i, j)
  {
    if i == k {
    } else if j == l {
      ShiftsDiffer(b, i, k);
    } else {
      BoxCellsDiffer(b, i, j, k, l);
    }
    ModDistinct(Shift(b, i) + j, Shift(b, k) + l, b * b);
  }

  /** Every empty grid of side m has a solution on the field of side b*b it holds. */
  lemma EmptyFieldSolvable(m: nat, b: nat)
    requires b * b <= m
    ensures Solvable(Blank(m), b * b, b, 0, 0)
  {
    var n := b * b;
    var h := seq(m, i => seq(m, j => if b > 0 && i < n && j < n then Pattern(b, i, j) else 0));
    assert Shaped(h, n);
    forall i, j | 0 <= i < n && 0 <= j < n
      ensures Good(h, n, b, i, j)
    {
      forall k, l | 0 <= k < n && 0 <= l < n && Peer(b, k, l, i, j)
        ensures h[k][l] != h[i][j]
      {
        PatternPeersDiffer(b, i, j, k, l);
      }
    }
    assert Completes(Blank(m), h, n, b, 0, 0);
  }
}
