/**
 * The move rule as a function of the occupancy grid. A piece steps one cell
 * diagonally forward onto an empty cell of the board: black towards higher
 * rows, red towards lower rows. There are no captures, kings or turns.
 * `ValidStep` is the rule PieceMover.ts checks before committing a move;
 * `Targets` is the list of cells MoveHighlighter.ts marks.
 */
module MoveRules {
  import opened Types
  import opened Grids
  import opened Layout

  /** The row offset of a forward step. */
  function Forward(p: Piece): int {
    match p
    case Black => 1
    case Red => -1
  }

  /** The two step offsets (row, col) of a piece, left diagonal first. */
  function Directions(p: Piece): seq<(int, int)> {
    match p
    case Black => [(1, -1), (1, 1)]
    case Red => [(-1, -1), (-1, 1)]
  }

  /** The cells the steps of `p` from (row, col) lead to, in the order of `Directions`. */
  function Candidates(row: int, col: int, p: Piece): seq<Cell> {
    var ds := Directions(p);
    seq(|ds|, i requires 0 <= i < |ds| => Cell(row + ds[i].0, col + ds[i].1))
  }

  /**
   * The move rule: (fromRow, fromCol) holds a piece, and one of its step
   * offsets leads exactly to (toRow, toCol), which is a free cell.
   */
  predicate ValidStep(g: Grid, n: nat, fromRow: int, fromCol: int, toRow: int, toCol: int)
    requires IsSquare(g, n) && InBounds(n, fromRow, fromCol)
  {
    match g[fromRow][fromCol]
    case None => false
    case Some(p) =>
      var ds := Directions(p);
      exists i :: 0 <= i < |ds| && fromRow + ds[i].0 == toRow && fromCol + ds[i].1 == toCol && IsFreeCell(g, n, Cell(toRow, toCol))
  }

  /** The cells of `cs` that are free, in their order. */
  function KeepFree(g: Grid, n: nat, cs: seq<Cell>): seq<Cell>
    requires IsSquare(g, n)
  {
    if cs == [] then []
    else KeepFree(g, n, cs[..|cs| - 1]) + (if IsFreeCell(g, n, cs[|cs| - 1]) then [cs[|cs| - 1]] else [])
  }

  /** The cells highlighted for the piece on (row, col): its free step targets; none on an empty cell. */
  function Targets(g: Grid, n: nat, row: int, col: int): seq<Cell>
    requires IsSquare(g, n) && InBounds(n, row, col)
  {
    match g[row][col]
    case None => []
    case Some(p) => KeepFree(g, n, Candidates(row, col, p))
  }

  /**
   * The move rule in closed form: the origin holds a piece p, the target is one
   * row forward for p and one column to either side, and the target is free.
   * So every valid move changes the row by exactly 1 and the column by exactly
   * 1 and lands on an in-bounds empty cell.
   */
  lemma ValidStepRule(g: Grid, n: nat, fromRow: int, fromCol: int, toRow: int, toCol: int)
    requires IsSquare(g, n) && InBounds(n, fromRow, fromCol)
    ensures ValidStep(g, n, fromRow, fromCol, toRow, toCol) <==>
      g[fromRow][fromCol].Some? &&
      toRow == fromRow + Forward(g[fromRow][fromCol].value) &&
      (toCol == fromCol - 1 || toCol == fromCol + 1) &&
      IsFreeCell(g, n, Cell(toRow, toCol))
    ensures ValidStep(g, n, fromRow, fromCol, toRow, toCol) ==>
      (toRow - fromRow == 1 || toRow - fromRow == -1) && (toCol - fromCol == 1 || toCol - fromCol == -1) &&
      InBounds(n, toRow, toCol) && g[toRow][toCol] == None
    ensures g[fromRow][fromCol].None? ==> !ValidStep(g, n, fromRow, fromCol, toRow, toCol)
  {
    if g[fromRow][fromCol].Some? {
      var p := g[fromRow][fromCol].value;
      var ds := Directions(p);
      if toRow == fromRow + Forward(p) && (toCol == fromCol - 1 || toCol == fromCol + 1) && IsFreeCell(g, n, Cell(toRow, toCol)) {
        var i := if toCol == fromCol - 1 then 0 else 1;
        assert fromRow + ds[i].0 == toRow && fromCol + ds[i].1 == toCol;
      }
    }
  }

  /** A cell is kept by `KeepFree` exactly when it is among the candidates and free. */
  lemma {:induction false} KeepFreeMembers(g: Grid, n: nat, cs: seq<Cell>, c: Cell)
    requires IsSquare(g, n)
    ensures c in KeepFree(g, n, cs) <==> c in cs && IsFreeCell(g, n, c)
  {
    if cs != [] {
      var k := |cs| - 1;
      KeepFreeMembers(g, n, cs[..k], c);
      assert cs == cs[..k] + [cs[k]];
    }
  }

  /**
   * For an unchanged grid the highlighted cells of (row, col) are exactly the
   * cells a move from (row, col) may go to.
   */
  lemma TargetsAreValidSteps(g: Grid, n: nat, row: int, col: int, to: Cell)
    requires IsSquare(g, n) && InBounds(n, row, col)
    ensures to in Targets(g, n, row, col) <==> ValidStep(g, n, row, col, to.row, to.col)
  {
    ValidStepRule(g, n, row, col, to.row, to.col);
    if g[row][col].Some? {
      var p := g[row][col].value;
      var cs := Candidates(row, col, p);
      KeepFreeMembers(g, n, cs, to);
      assert cs == [Cell(row + Forward(p), col - 1), Cell(row + Forward(p), col + 1)];
    }
  }

  /** The candidates of `p` from (row, col): forward-left, then forward-right. */
  lemma CandidatesAre(row: int, col: int, p: Piece)
    ensures Candidates(row, col, p) == [Cell(row + Forward(p), col - 1), Cell(row + Forward(p), col + 1)]
  {
  }

  lemma KeepFreePair(g: Grid, n: nat, left: Cell, right: Cell)
    requires IsSquare(g, n)
    ensures KeepFree(g, n, [left, right]) ==
      (if IsFreeCell(g, n, left) then [left] else []) + (if IsFreeCell(g, n, right) then [right] else [])
  {
    var cs := [left, right];
    assert cs[..1] == [left] && [left][..0] == [];
    assert KeepFree(g, n, [left]) == KeepFree(g, n, []) + (if IsFreeCell(g, n, left) then [left] else []);
    assert KeepFree(g, n, cs) == KeepFree(g, n, [left]) + (if IsFreeCell(g, n, right) then [right] else []);
  }

  /**
   * The highlighted cells in closed form: none for an empty origin, otherwise
   * the forward-left cell if free, then the forward-right cell if free. So
   * there are at most two, each free, left before right.
   */
  lemma TargetsInOrder(g: Grid, n: nat, row: int, col: int)
    requires IsSquare(g, n) && InBounds(n, row, col)
    ensures Targets(g, n, row, col) ==
      match g[row][col]
      case None => []
      case Some(p) =>
        var left, right := Cell(row + Forward(p), col - 1), Cell(row + Forward(p), col + 1);
        (if IsFreeCell(g, n, left) then [left] else []) + (if IsFreeCell(g, n, right) then [right] else [])
    ensures |Targets(g, n, row, col)| <= 2
    ensures forall c :: c in Targets(g, n, row, col) ==> IsFreeCell(g, n, c)
  {
    if g[row][col].Some? {
      var p := g[row][col].value;
      CandidatesAre(row, col, p);
      KeepFreePair(g, n, Cell(row + Forward(p), col - 1), Cell(row + Forward(p), col + 1));
    }
  }

  /**
   * In the 8 x 8 opening position: the red piece on (5, 0) has the single
   * target (4, 1); the black piece on (2, 7) has the single target (3, 6);
   * the black piece on (2, 1) has (3, 0) and then (3, 2); the empty cell
   * (0, 0) has none.
   */
  lemma OpeningTargets()
    ensures IsSquare(InitialGrid(8), 8)
    ensures Targets(InitialGrid(8), 8, 5, 0) == [Cell(4, 1)]
    ensures Targets(InitialGrid(8), 8, 2, 7) == [Cell(3, 6)]
    ensures Targets(InitialGrid(8), 8, 2, 1) == [Cell(3, 0), Cell(3, 2)]
    ensures Targets(InitialGrid(8), 8, 0, 0) == []
  {
    var g := InitialGrid(8);
    OpeningPosition(8, 5, 0);
    OpeningPosition(8, 4, 1);
    TargetsInOrder(g, 8, 5, 0);
    OpeningPosition(8, 2, 7);
    OpeningPosition(8, 3, 6);
    TargetsInOrder(g, 8, 2, 7);
    OpeningPosition(8, 2, 1);
    OpeningPosition(8, 3, 0);
    OpeningPosition(8, 3, 2);
    TargetsInOrder(g, 8, 2, 1);
    OpeningPosition(8, 0, 0);
    TargetsInOrder(g, 8, 0, 0);
  }
}
