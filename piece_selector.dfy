/**
 * PieceSelector.ts: the selection state machine. The state is the selected
 * piece and the highlighted (selected) mesh; a left click on one of the
 * player's pieces toggles its selection and any other left click clears it.
 */
module Selecting {
  import opened Types
  import opened Grids
  import opened MoveRules
  import opened BoardState
  import opened Highlighting

  /** The selected piece: its cell (row = position z, col = position x) and its mesh. */
  datatype Selection = Selection(row: int, col: int, mesh: Mesh)

  /** Only meshes tagged as the player's can be selected. */
  predicate IsSelectablePiece(mesh: Mesh) {
    mesh.owner == Some(Player)
  }

  /** The click landed on a selectable piece. */
  predicate IsSelectableHit(hit: Hit) {
    hit.PieceHit? && IsSelectablePiece(hit.mesh)
  }

  /** On a valid board the selectable meshes are exactly the meshes of red pieces. */
  lemma SelectableIsRed(board: GameBoard, row: int, col: int)
    requires board.Valid() && InBounds(board.boardSize, row, col) && board.GetPieceMesh(row, col).Some?
    ensures IsSelectablePiece(board.GetPieceMesh(row, col).value) <==> board.GetPiece(row, col) == Some(Red)
  {
  }

  class PieceSelector {
    const board: GameBoard
    const moveHighlighter: MoveHighlighter
    var highlightedPiece: Option<Mesh>
    var selectedPiece: Option<Selection>

    /**
     * A piece is selected exactly when a mesh is highlighted, and then it is
     * that mesh, at that mesh's on-board position; with nothing selected no
     * markers are shown.
     */
    ghost predicate Valid()
      reads this, moveHighlighter
    {
      moveHighlighter.board == board && moveHighlighter.Valid() &&
      (selectedPiece.None? <==> highlightedPiece.None?) &&
      (selectedPiece.Some? ==>
        var s := selectedPiece.value;
        highlightedPiece == Some(s.mesh) && s.row == s.mesh.z && s.col == s.mesh.x &&
        InBounds(board.boardSize, s.row, s.col)) &&
      (selectedPiece.None? ==> moveHighlighter.highlightMeshes == [])
    }

    constructor (board: GameBoard)
      ensures Valid() && this.board == board && fresh(moveHighlighter)
      ensures selectedPiece == None
    {
      this.board := board;
      moveHighlighter := new MoveHighlighter(board);
      highlightedPiece := None;
      selectedPiece := None;
    }

    /** `mesh` is the mesh currently selected. */
    predicate IsCurrent(mesh: Mesh)
      reads this
    {
      highlightedPiece.Some? && SameMesh(highlightedPiece.value, mesh)
    }

    /**
     * Handles a mouse button press whose topmost hit is `hit`. Buttons other
     * than the left one change nothing. A click on a selectable piece other
     * than the selected one selects it and shows its move targets; a click on
     * the selected piece deselects it; any other click clears the selection.
     */
    method OnMouseDown(button: int, hit: Hit)
      requires Valid() && board.Valid()
      requires hit.PieceHit? ==> InBounds(board.boardSize, hit.mesh.z, hit.mesh.x)
      modifies this, moveHighlighter
      ensures Valid()
      ensures button != 0 ==>
        selectedPiece == old(selectedPiece) && highlightedPiece == old(highlightedPiece) &&
        moveHighlighter.highlightMeshes == old(moveHighlighter.highlightMeshes)
      ensures button == 0 && IsSelectableHit(hit) && !old(IsCurrent(hit.mesh)) ==>
        selectedPiece == Some(Selection(hit.mesh.z, hit.mesh.x, hit.mesh)) &&
        MarkerCells(moveHighlighter.highlightMeshes) == Targets(board.Occupancy, board.boardSize, hit.mesh.z, hit.mesh.x)
      ensures button == 0 && IsSelectableHit(hit) && old(IsCurrent(hit.mesh)) ==>
        selectedPiece == None && moveHighlighter.highlightMeshes == []
      ensures button == 0 && !IsSelectableHit(hit) ==>
        selectedPiece == None && moveHighlighter.highlightMeshes == []
    {
      if button != 0 {
        return;
      }
      if !hit.Nothing? {
        if IsSelectableHit(hit) {
          var mesh := hit.mesh;
          if !IsCurrent(mesh) {
            if highlightedPiece.Some? {
              moveHighlighter.ClearHighlights();
            }
            highlightedPiece := Some(mesh);
            moveHighlighter.HighlightMoves(mesh.z, mesh.x);
            selectedPiece := Some(Selection(mesh.z, mesh.x, mesh));
          } else {
            highlightedPiece := None;
            moveHighlighter.ClearHighlights();
            selectedPiece := None;
          }
        } else {
          if highlightedPiece.Some? {
            highlightedPiece := None;
            moveHighlighter.ClearHighlights();
            selectedPiece := None;
          }
        }
      } else {
        if highlightedPiece.Some? {
          highlightedPiece := None;
          moveHighlighter.ClearHighlights();
          selectedPiece := None;
        }
      }
    }

    /** The selected piece, if any; when present its cell is on the board and its mesh is the highlighted one. */
    function GetSelectedPiece(): (s: Option<Selection>)
      requires Valid()
      reads this, moveHighlighter
      ensures s.Some? <==> highlightedPiece.Some?
      ensures s.Some? ==> highlightedPiece == Some(s.value.mesh) && InBounds(board.boardSize, s.value.row, s.value.col)
    {
      selectedPiece
    }

    /** Drops the selection and every marker. */
    method ClearSelection()
      requires Valid()
      modifies this, moveHighlighter
      ensures Valid()
      ensures selectedPiece == None && highlightedPiece == None && moveHighlighter.highlightMeshes == []
    {
      if highlightedPiece.Some? {
        highlightedPiece := None;
      }
      moveHighlighter.ClearHighlights();
      selectedPiece := None;
    }
  }
}
