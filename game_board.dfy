/**
 * GameBoard.ts: the board state. Two parallel boardSize x boardSize grids, one
 * of piece colours and one of mesh handles, updated in place. `Occupancy` is
 * the ghost view of the colour grid as a value; `Valid` ties the two grids
 * together: a mesh is recorded exactly on the occupied cells, placed on its
 * cell and tagged with its piece's owner.
 */
module BoardState {
  import opened Types
  import opened Grids
  import opened Layout

  class GameBoard {
    const boardSize: nat
    const pieces: array2<Option<Piece>>
    const pieceMeshes: array2<Option<Mesh>>
    ghost var Occupancy: Grid

    ghost function Repr(): set<object> {
      {this, pieces, pieceMeshes}
    }

    ghost predicate Valid()
      reads Repr()
    {
      pieces.Length0 == boardSize && pieces.Length1 == boardSize &&
      pieceMeshes.Length0 == boardSize && pieceMeshes.Length1 == boardSize &&
      IsSquare(Occupancy, boardSize) &&
      (forall r, c :: 0 <= r < boardSize && 0 <= c < boardSize ==> pieces[r, c] == Occupancy[r][c]) &&
      (forall r, c :: 0 <= r < boardSize && 0 <= c < boardSize ==> Tracks(pieceMeshes[r, c], pieces[r, c], r, c, true))
    }

    /**
     * Both grids start empty; the opening position is filled in and a new mesh
     * drawn for every piece, so no two cells hold the same mesh.
     */
    constructor (boardSize: nat)
      ensures Valid() && fresh(pieces) && fresh(pieceMeshes)
      ensures this.boardSize == boardSize
      ensures Occupancy == InitialGrid(boardSize)
      ensures DistinctIds(pieceMeshes)
    {
      this.boardSize := boardSize;
      pieces := new Option<Piece>[boardSize, boardSize]((r, c) => None);
      pieceMeshes := new Option<Mesh>[boardSize, boardSize]((r, c) => None);
      new;
      FillOpeningLayout(pieces);
      Occupancy := InitialGrid(boardSize);
      DrawPieceMeshes(pieces, pieceMeshes, true);
    }

    /** A move may go to (row, col): it is on the board and holds no piece. */
    predicate IsValidMove(row: int, col: int)
      requires Valid()
      reads Repr()
      ensures IsValidMove(row, col) <==> IsFreeCell(Occupancy, boardSize, Cell(row, col))
      ensures IsValidMove(row, col) ==> InBounds(boardSize, row, col)
    {
      if row < 0 || row >= boardSize || col < 0 || col >= boardSize then false
      else pieces[row, col] == None
    }

    /** The colour on (row, col); there is no bounds check, so the cell must be on the board. */
    function GetPiece(row: int, col: int): (v: Option<Piece>)
      requires Valid() && InBounds(boardSize, row, col)
      reads Repr()
      ensures v == Occupancy[row][col]
    {
      pieces[row, col]
    }

    /**
     * The mesh on (row, col): present exactly when the cell is occupied, placed
     * on that cell and tagged with the piece's owner.
     */
    function GetPieceMesh(row: int, col: int): (m: Option<Mesh>)
      requires Valid() && InBounds(boardSize, row, col)
      reads Repr()
      ensures m.Some? <==> Occupancy[row][col].Some?
      ensures m.Some? ==> m.value.x == col && m.value.z == row && m.value.owner == Some(OwnerOf(Occupancy[row][col].value))
    {
      pieceMeshes[row, col]
    }

    /**
     * Empties (row, col) in both grids when a mesh is recorded there; does
     * nothing otherwise.
     */
    method RemovePiece(row: int, col: int)
      requires Valid() && InBounds(boardSize, row, col)
      modifies Repr()
      ensures Valid()
      ensures old(pieceMeshes[row, col]).Some? ==>
        Occupancy == SetCell(old(Occupancy), row, col, None) && pieceMeshes[row, col] == None
      ensures old(pieceMeshes[row, col]).None? ==> Occupancy == old(Occupancy) && pieceMeshes[row, col] == old(pieceMeshes[row, col])
      ensures forall r, c :: InBounds(boardSize, r, c) && (r != row || c != col) ==> pieceMeshes[r, c] == old(pieceMeshes[r, c])
    {
      var pieceMesh := pieceMeshes[row, col];
      if pieceMesh.Some? {
        pieceMeshes[row, col] := None;
        pieces[row, col] := None;
        Occupancy := SetCell(Occupancy, row, col, None);
      }
    }

    /** Puts `piece` on (row, col) and records `pieceMesh` there, moved onto the cell and re-tagged. */
    method AddPieceMesh(row: int, col: int, pieceMesh: Mesh, piece: Piece)
      requires Valid() && InBounds(boardSize, row, col)
      modifies Repr()
      ensures Valid()
      ensures Occupancy == SetCell(old(Occupancy), row, col, Some(piece))
      ensures pieceMeshes[row, col] == Some(Placed(pieceMesh, row, col, piece))
      ensures forall r, c :: InBounds(boardSize, r, c) && (r != row || c != col) ==> pieceMeshes[r, c] == old(pieceMeshes[r, c])
    {
      pieces[row, col] := Some(piece);
      pieceMeshes[row, col] := Some(Placed(pieceMesh, row, col, piece));
      Occupancy := SetCell(Occupancy, row, col, Some(piece));
    }

    /** The move happens: the origin holds a piece and the target is a free cell. */
    ghost predicate Moves(fromRow: int, fromCol: int, toRow: int, toCol: int)
      requires Valid() && InBounds(boardSize, fromRow, fromCol)
      reads Repr()
    {
      Occupancy[fromRow][fromCol].Some? && IsFreeCell(Occupancy, boardSize, Cell(toRow, toCol))
    }

    /**
     * Moves the piece on (fromRow, fromCol) to (toRow, toCol) with the mesh
     * `pieceMesh`, when the origin holds a piece and the target is a free
     * cell: the origin ends empty in both grids, the target holds the same
     * colour and the mesh, placed on it; no other cell changes. Otherwise
     * nothing changes. The number of pieces of each colour never changes.
     */
    method MovePiece(fromRow: int, fromCol: int, toRow: int, toCol: int, pieceMesh: Mesh)
      requires Valid() && InBounds(boardSize, fromRow, fromCol)
      modifies Repr()
      ensures Valid()
      ensures old(Moves(fromRow, fromCol, toRow, toCol)) ==>
        var piece := old(Occupancy[fromRow][fromCol]);
        Occupancy == SetCell(SetCell(old(Occupancy), fromRow, fromCol, None), toRow, toCol, piece) &&
        pieceMeshes[fromRow, fromCol] == None &&
        pieceMeshes[toRow, toCol] == Some(Placed(pieceMesh, toRow, toCol, piece.value)) &&
        forall r, c :: InBounds(boardSize, r, c) && (r != fromRow || c != fromCol) && (r != toRow || c != toCol) ==>
          pieceMeshes[r, c] == old(pieceMeshes[r, c])
      ensures !old(Moves(fromRow, fromCol, toRow, toCol)) ==> Occupancy == old(Occupancy) && unchanged(pieces, pieceMeshes)
      ensures forall p :: Count(Occupancy, p) == old(Count(Occupancy, p))
    {
      var piece := pieces[fromRow, fromCol];
      if piece.Some? && IsValidMove(toRow, toCol) {
        ghost var before := Occupancy;
        RemovePiece(fromRow, fromCol);
        AddPieceMesh(toRow, toCol, pieceMesh, piece.value);
        forall p | true
          ensures Count(Occupancy, p) == Count(before, p)
        {
          MoveKeepsCount(before, boardSize, fromRow, fromCol, toRow, toCol, p);
        }
      }
    }
  }
}
