/**
 * The opening position and the two nested loops that set a board up: one
 * fills the occupancy grid, one records a mesh for every occupied cell.
 * GameBoard.ts, Board.ts and Pieces.ts each carry a copy of both loops; the
 * copies differ only in whether the mesh gets an owner tag.
 */
module Layout {
  import opened Types
  import opened Grids

  /** What the opening position puts on (row, col): black on the odd cells of rows 0-2, red on the odd cells of rows 5 and up. */
  function InitialPiece(row: int, col: int): Option<Piece> {
    if row < 3 && (row + col) % 2 == 1 then Some(Black)
    else if row >= 5 && (row + col) % 2 == 1 then Some(Red)
    else None
  }

  function InitialRow(row: int, n: nat): seq<Option<Piece>> {
    seq(n, c => InitialPiece(row, c))
  }

  /** The first `k` rows of the opening position of an `n`-wide board. */
  function InitialRows(k: nat, n: nat): Grid {
    seq(k, r => InitialRow(r, n))
  }

  function InitialGrid(n: nat): Grid {
    InitialRows(n, n)
  }

  /**
   * The opening position cell by cell: black exactly on the odd cells of rows
   * 0-2, red exactly on the odd cells of rows 5 and up, every other cell empty.
   */
  lemma OpeningPosition(n: nat, row: int, col: int)
    requires InBounds(n, row, col)
    ensures IsSquare(InitialGrid(n), n)
    ensures InitialGrid(n)[row][col] == Some(Black) <==> row < 3 && (row + col) % 2 == 1
    ensures InitialGrid(n)[row][col] == Some(Red) <==> row >= 5 && (row + col) % 2 == 1
    ensures InitialGrid(n)[row][col] == None <==> (row + col) % 2 == 0 || 3 <= row < 5
  {
  }

  /** The colour a row of the opening position receives on its odd cells. */
  function RowColour(row: int): Option<Piece> {
    if row < 3 then Some(Black) else if row >= 5 then Some(Red) else None
  }

  /** How many of the rows 0 .. k-1 receive colour `p`. */
  function RowsOf(k: nat, p: Piece): nat {
    match p
    case Black => if k < 3 then k else 3
    case Red => if k <= 5 then 0 else k - 5
  }

  /** Of two neighbouring cells of a row exactly one has odd parity, so together they hold one piece of the row's colour. */
  lemma NeighbourPair(row: nat, c: nat, p: Piece)
    ensures Ind(InitialPiece(row, c), p) + Ind(InitialPiece(row, c + 1), p) == if RowColour(row) == Some(p) then 1 else 0
  {
    assert (row + c) % 2 == 1 <==> (row + c + 1) % 2 == 0;
  }

  /** On an even-width board a row of the opening position holds width/2 pieces of its colour and none of the other. */
  lemma {:induction false} RowCount(row: nat, n: nat, p: Piece)
    requires n % 2 == 0
    ensures CountRow(InitialRow(row, n), p) == if RowColour(row) == Some(p) then n / 2 else 0
  {
    if n > 0 {
      var s, t, u := InitialRow(row, n), InitialRow(row, n - 1), InitialRow(row, n - 2);
      assert s[..n - 1] == t && s[n - 1] == InitialPiece(row, n - 1);
      assert t[..n - 2] == u && t[n - 2] == InitialPiece(row, n - 2);
      assert CountRow(s, p) == CountRow(u, p) + Ind(InitialPiece(row, n - 2), p) + Ind(InitialPiece(row, n - 1), p);
      RowCount(row, n - 2, p);
      NeighbourPair(row, n - 2, p);
    }
  }

  lemma MulSucc(a: nat, w: nat)
    ensures (a + 1) * w == a * w + w
  {
  }

  /** The first k rows hold (number of rows of colour p) * width/2 pieces of p. */
  lemma {:induction false} RowsCount(k: nat, n: nat, p: Piece)
    requires n % 2 == 0
    ensures Count(InitialRows(k, n), p) == RowsOf(k, p) * (n / 2)
  {
    if k > 0 {
      assert InitialRows(k, n)[..k - 1] == InitialRows(k - 1, n);
      RowsCount(k - 1, n, p);
      RowCount(k - 1, n, p);
      MulSucc(RowsOf(k - 1, p), n / 2);
    }
  }

  /** On the standard 8 x 8 board the opening position has 12 black and 12 red pieces. */
  lemma StandardOpeningCounts()
    ensures Count(InitialGrid(8), Black) == 12
    ensures Count(InitialGrid(8), Red) == 12
  {
    RowsCount(8, 8, Black);
    RowsCount(8, 8, Red);
  }

  /** Fills the opening position into `a`, writing only the cells that receive a piece. */
  method FillOpeningLayout(a: array2<Option<Piece>>)
    modifies a
    ensures forall r, c :: 0 <= r < a.Length0 && 0 <= c < a.Length1 ==>
      a[r, c] == if InitialPiece(r, c).Some? then InitialPiece(r, c) else old(a[r, c])
  {
    for row := 0 to a.Length0
      invariant forall r, c :: 0 <= r < a.Length0 && 0 <= c < a.Length1 ==>
        a[r, c] == if r < row && InitialPiece(r, c).Some? then InitialPiece(r, c) else old(a[r, c])
    {
      for col := 0 to a.Length1
        invariant forall r, c :: 0 <= r < a.Length0 && 0 <= c < a.Length1 ==>
          a[r, c] == if (r < row || (r == row && c < col)) && InitialPiece(r, c).Some? then InitialPiece(r, c) else old(a[r, c])
      {
        if row < 3 && (row + col) % 2 == 1 {
          a[row, col] := Some(Black);
        } else if row >= 5 && (row + col) % 2 == 1 {
          a[row, col] := Some(Red);
        }
      }
    }
  }

  /**
   * `m` is what drawing records for cell (row, col) holding `v`: no mesh on an
   * empty cell; on an occupied one a mesh placed at x = col, z = row, tagged
   * with the piece's owner when `tagged` holds and untagged otherwise.
   */
  predicate Tracks(m: Option<Mesh>, v: Option<Piece>, row: int, col: int, tagged: bool) {
    match v
    case None => m.None?
    case Some(p) =>
      m.Some? && m.value.x == col && m.value.z == row &&
      m.value.owner == if tagged then Some(OwnerOf(p)) else None
  }

  /** Creates a mesh with identity `id` for `piece` at (row, col) and records it in the mesh grid. */
  method DrawPiece(meshes: array2<Option<Mesh>>, row: int, col: int, piece: Piece, id: nat, tagged: bool)
    requires 0 <= row < meshes.Length0 && 0 <= col < meshes.Length1
    modifies meshes
    ensures Tracks(meshes[row, col], Some(piece), row, col, tagged) && meshes[row, col].value.id == id
    ensures forall r, c :: 0 <= r < meshes.Length0 && 0 <= c < meshes.Length1 && (r != row || c != col) ==>
      meshes[r, c] == old(meshes[r, c])
  {
    var owner := if tagged then Some(OwnerOf(piece)) else None;
    meshes[row, col] := Some(Mesh(id, col, row, owner));
  }

  /** Cell (r, c) comes before cell (row, col) in row-major order. */
  predicate Before(r: int, c: int, row: int, col: int) {
    r < row || (r == row && c < col)
  }

  /** No two cells of the mesh grid record the same mesh. */
  ghost predicate DistinctIds(meshes: array2<Option<Mesh>>)
    reads meshes
  {
    forall r1, c1, r2, c2 ::
      0 <= r1 < meshes.Length0 && 0 <= c1 < meshes.Length1 &&
      0 <= r2 < meshes.Length0 && 0 <= c2 < meshes.Length1 &&
      meshes[r1, c1].Some? && meshes[r2, c2].Some? && (r1 != r2 || c1 != c2) ==>
        meshes[r1, c1].value.id != meshes[r2, c2].value.id
  }

  /**
   * The meshes drawn on the occupied cells before (row, col) carry identities
   * below `bound`, and `cellOf` maps each such identity back to its cell, so no
   * two of them share one.
   */
  ghost predicate DrawnBelow(pieces: array2<Option<Piece>>, meshes: array2<Option<Mesh>>, row: int, col: int,
                             bound: nat, cellOf: map<nat, Cell>)
    reads pieces, meshes
  {
    forall r, c :: 0 <= r < pieces.Length0 && 0 <= c < pieces.Length1 && Before(r, c, row, col) && pieces[r, c].Some? ==>
      0 <= r < meshes.Length0 && 0 <= c < meshes.Length1 && meshes[r, c].Some? &&
      meshes[r, c].value.id < bound && meshes[r, c].value.id in cellOf && cellOf[meshes[r, c].value.id] == Cell(r, c)
  }

  /**
   * Records a freshly created mesh for every occupied cell of `pieces` and leaves
   * the mesh grid alone on empty cells; starting from an empty mesh grid the
   * two grids end in lockstep. Every mesh drawn is a new one: no two occupied
   * cells get the same identity.
   */
  method DrawPieceMeshes(pieces: array2<Option<Piece>>, meshes: array2<Option<Mesh>>, tagged: bool)
    requires meshes.Length0 == pieces.Length0 && meshes.Length1 == pieces.Length1
    modifies meshes
    ensures forall r, c :: 0 <= r < pieces.Length0 && 0 <= c < pieces.Length1 ==>
      if pieces[r, c].Some? then Tracks(meshes[r, c], pieces[r, c], r, c, tagged) else meshes[r, c] == old(meshes[r, c])
    ensures forall r1, c1, r2, c2 ::
      0 <= r1 < pieces.Length0 && 0 <= c1 < pieces.Length1 && pieces[r1, c1].Some? &&
      0 <= r2 < pieces.Length0 && 0 <= c2 < pieces.Length1 && pieces[r2, c2].Some? && (r1 != r2 || c1 != c2) ==>
        meshes[r1, c1].Some? && meshes[r2, c2].Some? && meshes[r1, c1].value.id != meshes[r2, c2].value.id
  {
    var nextId := 0;
    ghost var cellOf: map<nat, Cell> := map[];
    for row := 0 to pieces.Length0
      invariant forall r, c :: 0 <= r < pieces.Length0 && 0 <= c < pieces.Length1 ==>
        if r < row && pieces[r, c].Some? then Tracks(meshes[r, c], pieces[r, c], r, c, tagged) else meshes[r, c] == old(meshes[r, c])
      invariant DrawnBelow(pieces, meshes, row, 0, nextId, cellOf)
    {
      for col := 0 to pieces.Length1
        invariant forall r, c :: 0 <= r < pieces.Length0 && 0 <= c < pieces.Length1 ==>
          if Before(r, c, row, col) && pieces[r, c].Some?
          then Tracks(meshes[r, c], pieces[r, c], r, c, tagged)
          else meshes[r, c] == old(meshes[r, c])
        invariant DrawnBelow(pieces, meshes, row, col, nextId, cellOf)
      {
        var piece := pieces[row, col];
        if piece.Some? {
          DrawPiece(meshes, row, col, piece.value, nextId, tagged);
          cellOf := cellOf[nextId := Cell(row, col)];
          nextId := nextId + 1;
        }
      }
    }
  }
}
