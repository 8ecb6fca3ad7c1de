/**
 * The occupancy grid as a value: a square of `Option<Piece>` cells, a point
 * update, and the number of pieces of one colour it holds.
 */
module Grids {
  import opened Types

  type Grid = seq<seq<Option<Piece>>>

  /** `g` has `n` rows of `n` cells each. */
  predicate IsSquare(g: Grid, n: nat) {
    |g| == n && forall r :: 0 <= r < n ==> |g[r]| == n
  }

  /** A cell holds no piece and lies on the board. */
  predicate IsFreeCell(g: Grid, n: nat, c: Cell)
    requires IsSquare(g, n)
  {
    InBounds(n, c.row, c.col) && g[c.row][c.col] == None
  }

  /** `g` with the cell (row, col) set to `v`. */
  function SetCell(g: Grid, row: int, col: int, v: Option<Piece>): (h: Grid)
    requires 0 <= row < |g| && 0 <= col < |g[row]|
    ensures |h| == |g| && forall r :: 0 <= r < |g| ==> |h[r]| == |g[r]|
    ensures h[row][col] == v
    ensures forall r, c :: 0 <= r < |g| && 0 <= c < |g[r]| && (r != row || c != col) ==> h[r][c] == g[r][c]
  {
    g[row := g[row][col := v]]
  }

  function Ind(v: Option<Piece>, p: Piece): nat {
    if v == Some(p) then 1 else 0
  }

  /** Number of cells of a row that hold `p`. */
  function CountRow(s: seq<Option<Piece>>, p: Piece): nat {
    if s == [] then 0 else CountRow(s[..|s| - 1], p) + Ind(s[|s| - 1], p)
  }

  /** Number of cells of the grid that hold `p`. */
  function Count(g: Grid, p: Piece): nat {
    if g == [] then 0 else Count(g[..|g| - 1], p) + CountRow(g[|g| - 1], p)
  }

  /** Overwriting one cell of a row changes its count by what left and what came in. */
  lemma {:induction false} CountRowUpdate(s: seq<Option<Piece>>, i: int, v: Option<Piece>, p: Piece)
    requires 0 <= i < |s|
    ensures CountRow(s[i := v], p) + Ind(s[i], p) == CountRow(s, p) + Ind(v, p)
  {
    var k := |s| - 1;
    if i < k {
      assert s[i := v][..k] == s[..k][i := v];
      CountRowUpdate(s[..k], i, v, p);
    } else {
      assert s[i := v][..k] == s[..k];
    }
  }

  /** Replacing one row of a grid changes its count by the difference of the rows' counts. */
  lemma {:induction false} CountUpdate(g: Grid, i: int, row: seq<Option<Piece>>, p: Piece)
    requires 0 <= i < |g|
    ensures Count(g[i := row], p) + CountRow(g[i], p) == Count(g, p) + CountRow(row, p)
  {
    var k := |g| - 1;
    if i < k {
      assert g[i := row][..k] == g[..k][i := row];
      CountUpdate(g[..k], i, row, p);
    } else {
      assert g[i := row][..k] == g[..k];
    }
  }

  /** Setting one cell changes the grid's count by what left the cell and what came in. */
  lemma SetCellCount(g: Grid, row: int, col: int, v: Option<Piece>, p: Piece)
    requires 0 <= row < |g| && 0 <= col < |g[row]|
    ensures Count(SetCell(g, row, col, v), p) + Ind(g[row][col], p) == Count(g, p) + Ind(v, p)
  {
    CountRowUpdate(g[row], col, v, p);
    CountUpdate(g, row, g[row][col := v], p);
  }

  /**
   * Emptying an occupied cell and putting its piece on an empty cell leaves the
   * number of pieces of every colour as it was.
   */
  lemma MoveKeepsCount(g: Grid, n: nat, fromRow: int, fromCol: int, toRow: int, toCol: int, p: Piece)
    requires IsSquare(g, n) && InBounds(n, fromRow, fromCol)
    requires g[fromRow][fromCol].Some? && IsFreeCell(g, n, Cell(toRow, toCol))
    ensures Count(SetCell(SetCell(g, fromRow, fromCol, None), toRow, toCol, g[fromRow][fromCol]), p) == Count(g, p)
  {
    var h := SetCell(g, fromRow, fromCol, None);
    SetCellCount(g, fromRow, fromCol, None, p);
    SetCellCount(h, toRow, toCol, g[fromRow][fromCol], p);
  }
}
