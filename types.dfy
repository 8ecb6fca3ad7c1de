/** Values shared by every part of the checkers model. */
module Types {

  /** An optional value; stands for the source's `T | null`. */
  datatype Option<T> = None | Some(value: T)

  /** A piece colour: 'b' (black) or 'r' (red). */
  datatype Piece = Black | Red

  /** The owner tag a piece mesh carries in its user data. */
  datatype Owner = Player | Opponent

  /** Black pieces are tagged as the opponent's, red pieces as the player's. */
  function OwnerOf(p: Piece): (o: Owner)
    ensures o == Player <==> p == Red
  {
    match p
    case Black => Opponent
    case Red => Player
  }

  /**
   * An opaque handle to a piece mesh. `id` is its identity (the source compares
   * meshes by reference), `x` and `z` its position (x = column, z = row), and
   * `owner` the owner tag of its user data, if one was set.
   */
  datatype Mesh = Mesh(id: nat, x: int, z: int, owner: Option<Owner>)

  /** Two handles denote the same mesh. */
  predicate SameMesh(a: Mesh, b: Mesh) {
    a.id == b.id
  }

  /** The mesh `m` after it has been moved onto (row, col) and re-tagged for piece `p`. */
  function Placed(m: Mesh, row: int, col: int, p: Piece): Mesh {
    m.(x := col, z := row, owner := Some(OwnerOf(p)))
  }

  /**
   * A highlight marker: its position (x, z) and the `row` and `col` recorded in
   * its user data next to `highlight: true`.
   */
  datatype Marker = Marker(x: int, z: int, row: int, col: int)

  /** A marker sits on the cell it records. */
  predicate OnItsCell(m: Marker) {
    m.x == m.col && m.z == m.row
  }

  /** A board cell. */
  datatype Cell = Cell(row: int, col: int)

  /**
   * The topmost object under the pointer, as the raycaster resolves it:
   * nothing, a piece mesh, a highlight marker or a board square.
   */
  datatype Hit = Nothing | PieceHit(mesh: Mesh) | HighlightHit(marker: Marker) | SquareHit(row: int, col: int)

  predicate InBounds(n: int, row: int, col: int) {
    0 <= row < n && 0 <= col < n
  }
}
