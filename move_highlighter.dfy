/**
 * MoveHighlighter.ts: the list of highlight markers shown for the selected
 * piece. The list is a sequence field that the methods reassign.
 */
module Highlighting {
  import opened Types
  import opened Grids
  import opened MoveRules
  import opened BoardState

  /** The cells the markers record, in list order. */
  function MarkerCells(ms: seq<Marker>): (cs: seq<Cell>)
    ensures |cs| == |ms|
    ensures forall i :: 0 <= i < |ms| ==> cs[i] == Cell(ms[i].row, ms[i].col)
  {
    if ms == [] then [] else MarkerCells(ms[..|ms| - 1]) + [Cell(ms[|ms| - 1].row, ms[|ms| - 1].col)]
  }

  class MoveHighlighter {
    const board: GameBoard
    var highlightMeshes: seq<Marker>

    /** Every marker sits on the cell it records. */
    ghost predicate Valid()
      reads this
    {
      forall i :: 0 <= i < |highlightMeshes| ==> OnItsCell(highlightMeshes[i])
    }

    constructor (board: GameBoard)
      ensures Valid() && this.board == board && highlightMeshes == []
    {
      this.board := board;
      highlightMeshes := [];
    }

    /**
     * Discards the previous markers and marks the free step targets of the
     * piece on (row, col), in the order of its directions; none when the cell
     * is empty.
     */
    method HighlightMoves(row: int, col: int)
      requires Valid() && board.Valid() && InBounds(board.boardSize, row, col)
      modifies this
      ensures Valid()
      ensures MarkerCells(highlightMeshes) == Targets(board.Occupancy, board.boardSize, row, col)
    {
      ClearHighlights();
      var piece := board.GetPiece(row, col);
      if piece.None? {
        return;
      }
      var directions := Directions(piece.value);
      ghost var candidates := Candidates(row, col, piece.value);
      for i := 0 to |directions|
        invariant Valid()
        invariant MarkerCells(highlightMeshes) == KeepFree(board.Occupancy, board.boardSize, candidates[..i])
      {
        var newRow := row + directions[i].0;
        var newCol := col + directions[i].1;
        assert candidates[..i + 1] == candidates[..i] + [Cell(newRow, newCol)];
        if IsValidMove(newRow, newCol) {
          HighlightSquare(newRow, newCol);
        }
      }
      assert candidates[..|directions|] == candidates;
    }

    /** The highlighter's own copy of the target check; it agrees with the board's. */
    predicate IsValidMove(row: int, col: int)
      requires board.Valid()
      reads board.Repr()
      ensures IsValidMove(row, col) <==> board.IsValidMove(row, col)
    {
      if row < 0 || row >= board.boardSize || col < 0 || col >= board.boardSize then false
      else board.GetPiece(row, col) == None
    }

    /** Appends a marker placed on (row, col) that records (row, col). */
    method HighlightSquare(row: int, col: int)
      requires Valid()
      modifies this
      ensures Valid()
      ensures highlightMeshes == old(highlightMeshes) + [Marker(col, row, row, col)]
    {
      highlightMeshes := highlightMeshes + [Marker(col, row, row, col)];
    }

    /** Removes every marker. */
    method ClearHighlights()
      modifies this
      ensures Valid() && highlightMeshes == []
    {
      highlightMeshes := [];
    }
  }
}
