/**
 * PieceMover.ts: commits a move when the selected piece's player clicks a
 * highlight marker, and tracks the marker under the pointer.
 */
module Moving {
  import opened Types
  import opened Grids
  import opened MoveRules
  import opened BoardState
  import opened Highlighting
  import opened Selecting

  class PieceMover {
    const board: GameBoard
    const pieceSelector: PieceSelector
    var highlightedSpot: Option<Marker>

    ghost predicate Valid()
      reads this, board.Repr(), pieceSelector, pieceSelector.moveHighlighter
    {
      pieceSelector.board == board && board.Valid() && pieceSelector.Valid()
    }

    constructor (board: GameBoard, pieceSelector: PieceSelector)
      requires pieceSelector.board == board && board.Valid() && pieceSelector.Valid()
      ensures Valid() && this.board == board && this.pieceSelector == pieceSelector
      ensures highlightedSpot == None
    {
      this.board := board;
      this.pieceSelector := pieceSelector;
      highlightedSpot := None;
    }

    /**
     * The move rule as the mover checks it: the origin holds a piece and one
     * of that piece's step offsets leads exactly to the target, which the
     * board accepts.
     */
    predicate IsValidMove(fromRow: int, fromCol: int, toRow: int, toCol: int)
      requires board.Valid() && InBounds(board.boardSize, fromRow, fromCol)
      reads board.Repr()
      ensures IsValidMove(fromRow, fromCol, toRow, toCol) <==>
        ValidStep(board.Occupancy, board.boardSize, fromRow, fromCol, toRow, toCol)
    {
      var piece := board.GetPiece(fromRow, fromCol);
      if piece.None? then false
      else
        var validDirections := Directions(piece.value);
        exists i :: 0 <= i < |validDirections| &&
          fromRow + validDirections[i].0 == toRow && fromCol + validDirections[i].1 == toCol &&
          board.IsValidMove(toRow, toCol)
    }

    /** A left click on a highlight marker, with a piece selected, whose cell the selected piece may move to. */
    ghost predicate Commits(button: int, hit: Hit)
      requires Valid()
      reads this, board.Repr(), pieceSelector, pieceSelector.moveHighlighter
    {
      var sel := pieceSelector.selectedPiece;
      button == 0 && hit.HighlightHit? && sel.Some? &&
      IsValidMove(sel.value.row, sel.value.col, hit.marker.row, hit.marker.col)
    }

    /**
     * Handles a mouse button press whose topmost hit is `hit`. When the press
     * commits a move, the selected piece moves to the marker's cell with its
     * mesh, the selection and the markers are cleared and no marker stays
     * hovered; no other cell changes. Otherwise nothing changes, and any
     * selection is kept. Either way each colour keeps its number of pieces.
     */
    method OnMouseDown(button: int, hit: Hit)
      requires Valid()
      modifies this, board.Repr(), pieceSelector, pieceSelector.moveHighlighter
      ensures Valid()
      ensures old(Commits(button, hit)) ==>
        var sel := old(pieceSelector.selectedPiece).value;
        var piece := old(board.Occupancy)[sel.row][sel.col];
        var to := hit.marker;
        piece.Some? &&
        board.Occupancy == SetCell(SetCell(old(board.Occupancy), sel.row, sel.col, None), to.row, to.col, piece) &&
        board.pieceMeshes[sel.row, sel.col] == None &&
        board.pieceMeshes[to.row, to.col] == Some(Placed(sel.mesh, to.row, to.col, piece.value)) &&
        (forall r, c :: InBounds(board.boardSize, r, c) && (r != sel.row || c != sel.col) && (r != to.row || c != to.col) ==>
          board.pieceMeshes[r, c] == old(board.pieceMeshes[r, c])) &&
        pieceSelector.selectedPiece == None && pieceSelector.moveHighlighter.highlightMeshes == [] &&
        highlightedSpot == None
      ensures !old(Commits(button, hit)) ==>
        unchanged(this, board, board.pieces, board.pieceMeshes, pieceSelector, pieceSelector.moveHighlighter)
      ensures forall p :: Count(board.Occupancy, p) == old(Count(board.Occupancy, p))
    {
      if button != 0 {
        return;
      }
      if !hit.Nothing? {
        var selectedPiece := pieceSelector.GetSelectedPiece();
        if selectedPiece.Some? && hit.HighlightHit? {
          var row, col := hit.marker.row, hit.marker.col;
          var sel := selectedPiece.value;
          if IsValidMove(sel.row, sel.col, row, col) {
            ValidStepRule(board.Occupancy, board.boardSize, sel.row, sel.col, row, col);
            board.MovePiece(sel.row, sel.col, row, col, sel.mesh);
            pieceSelector.ClearSelection();
            ClearHighlight();
          }
        }
      }
    }

    /** After a pointer move, the hovered marker is the top hit if that is a marker, and none otherwise. */
    method OnMouseMove(hit: Hit)
      modifies this
      ensures highlightedSpot == if hit.HighlightHit? then Some(hit.marker) else None
    {
      if !hit.Nothing? {
        if hit.HighlightHit? {
          if highlightedSpot != Some(hit.marker) {
            highlightedSpot := Some(hit.marker);
          }
        } else {
          ClearHighlight();
        }
      } else {
        ClearHighlight();
      }
    }

    /** Forgets the hovered marker; a second call changes nothing more. */
    method ClearHighlight()
      modifies this
      ensures highlightedSpot == None
    {
      if highlightedSpot.Some? {
        highlightedSpot := None;
      }
    }
  }
}
