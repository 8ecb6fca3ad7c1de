/**
 * Pieces.ts: the older piece set. It fills the same opening position as
 * GameBoard and records a mesh tagged with its owner for every occupied cell.
 */
module OldPieces {
  import opened Types
  import opened Grids
  import opened Layout

  class Pieces {
    const boardSize: nat
    const pieces: array2<Option<Piece>>
    const pieceMeshes: array2<Option<Mesh>>

    /**
     * The colour grid is the opening position, and a mesh is recorded exactly
     * on the occupied cells, placed at x = col, z = row, tagged "opponent"
     * for black and "player" for red; no two cells hold the same mesh.
     */
    constructor (boardSize: nat)
      ensures this.boardSize == boardSize && fresh(pieces) && fresh(pieceMeshes)
      ensures pieces.Length0 == boardSize && pieces.Length1 == boardSize
      ensures pieceMeshes.Length0 == boardSize && pieceMeshes.Length1 == boardSize
      ensures forall r, c :: InBounds(boardSize, r, c) ==> pieces[r, c] == InitialGrid(boardSize)[r][c]
      ensures forall r, c :: InBounds(boardSize, r, c) ==> Tracks(pieceMeshes[r, c], pieces[r, c], r, c, true)
      ensures DistinctIds(pieceMeshes)
    {
      this.boardSize := boardSize;
      pieces := new Option<Piece>[boardSize, boardSize]((r, c) => None);
      pieceMeshes := new Option<Mesh>[boardSize, boardSize]((r, c) => None);
      new;
      FillOpeningLayout(pieces);
      DrawPieceMeshes(pieces, pieceMeshes, true);
    }
  }
}
