# Checkers interaction core, modelled in Dafny

This project models the checkers part of a three.js scene. It covers:

- the board state (`GameBoard`);
- the diagonal-step move rule, as checked by `PieceMover` and listed by `MoveHighlighter`;
- the selection state machine (`PieceSelector`);
- the two older copies of the board set-up (`Board`, `Pieces`).

Rendering objects become values:

- a piece mesh is a `Mesh(id, x, z, owner)` handle: `id` is its identity, (x, z) its position, `owner` its user-data owner tag;
- a highlight marker is a `Marker(x, z, row, col)`;
- the raycaster's topmost intersection is an input `Hit`: `Nothing`, `PieceHit(mesh)`, `HighlightHit(marker)` or `SquareHit(row, col)`.

Layout of the project:

- `types.dfy` (`Types`): the shared values.
- `grids.dfy` (`Grids`): the occupancy grid as a value (`seq<seq<Option<Piece>>>`), point updates, and per-colour piece counts.
- `layout.dfy` (`Layout`): the opening position and the two set-up loops. GameBoard.ts, Board.ts and Pieces.ts each hold a copy of these loops.
- `move_rules.dfy` (`MoveRules`): the move rule and the highlighted cells, as functions of the grid, with their lemmas.
- `game_board.dfy` (`BoardState`): class `GameBoard`. It keeps two `array2` grids, updated in place, and a ghost `Occupancy` view.
- `move_highlighter.dfy`, `piece_selector.dfy`, `piece_mover.dfy`: classes `MoveHighlighter`, `PieceSelector` and `PieceMover`. Their fields are updated by the event handlers.
- `board.dfy`, `pieces.dfy`: the older classes `Board` and `Pieces`.

Two behaviours of the code that the model keeps as written:

- Black pieces start on rows `< 3` and red pieces on rows `>= 5`. Both bounds are literals, independent of the board size. For every size except 0 and 8 the two sides therefore get different numbers of rows. `Layout.RowsCount` states the counts for every even size.
- The mover's mousedown handler does nothing when a click on a highlight marker names a move that is not valid. The mover's state is left alone, selection included. (The selector's own handler clears the selection on that click, because a marker is not a selectable piece. The two handlers are modelled separately.)

## Model

| member | source | states |
|---|---|---|
| Types.OwnerOf | src/scripts/Checkers/GameBoard.ts:59 | only red pieces are tagged as the player's; black are the opponent's |
| Layout.OpeningPosition | src/scripts/Checkers/GameBoard.ts:20-30 | opening cell holds black iff row < 3 and row+col odd, red iff row >= 5 and row+col odd, and is empty iff row+col is even or row is 3 or 4 (so no cell gets both colours) |
| Layout.RowsCount | src/scripts/Checkers/GameBoard.ts:20-30 | on an even-width board the first k opening rows hold (rows of that colour among them) * width/2 pieces of each colour |
| Layout.StandardOpeningCounts | src/scripts/Checkers/GameBoard.ts:20-30 | the 8 x 8 opening position has exactly 12 black and 12 red pieces |
| Layout.FillOpeningLayout | src/scripts/Checkers/GameBoard.ts:20-30 | after the nested loop every cell that the opening position fills holds that colour; every other cell keeps its old value |
| Layout.DrawPiece | src/scripts/Checkers/GameBoard.ts:51-65 | records at (row, col) a mesh with the given identity, placed at x = col, z = row, with the piece's owner tag (or none); no other cell changes |
| Layout.DrawPieceMeshes | src/scripts/Checkers/GameBoard.ts:32-49 | after the nested loop every occupied cell has a newly created mesh placed on it and tagged for its piece, no two occupied cells share a mesh identity, and unoccupied cells keep their old mesh entry |
| Grids.MoveKeepsCount | src/scripts/Checkers/GameBoard.ts:67-85 | emptying an occupied cell and putting its piece on a free cell leaves the number of pieces of every colour unchanged |
| BoardState.GameBoard.constructor | src/scripts/Checkers/GameBoard.ts:10-18 | the colour grid is exactly the opening position, and the mesh grid is in lockstep with it (a mesh exactly on occupied cells, placed on its cell, owner-tagged), and no two cells hold the same mesh |
| BoardState.GameBoard.IsValidMove | src/scripts/Checkers/GameBoard.ts:98-103 | true iff the cell is on the board and empty; out of bounds is never valid |
| BoardState.GameBoard.GetPiece | src/scripts/Checkers/GameBoard.ts:105-107 | a pure read of the colour grid; the cell must be on the board |
| BoardState.GameBoard.GetPieceMesh | src/scripts/Checkers/GameBoard.ts:109-111 | the mesh is present iff the cell is occupied, and is then placed on that cell and tagged with the piece's owner |
| BoardState.GameBoard.RemovePiece | src/scripts/Checkers/GameBoard.ts:87-96 | with a mesh recorded, the cell ends empty in both grids; with none, nothing changes; other cells never change; lockstep is kept |
| BoardState.GameBoard.AddPieceMesh | src/scripts/Checkers/GameBoard.ts:77-85 | the cell holds the colour and the given mesh, moved to x = col, z = row and re-tagged; other cells unchanged; lockstep is kept |
| BoardState.GameBoard.MovePiece | src/scripts/Checkers/GameBoard.ts:67-75 | with an occupied origin and a free target: origin empty in both grids, target holds the same colour and the supplied mesh at (x = toCol, z = toRow), no other cell changes; otherwise nothing changes; piece counts per colour never change |
| MoveRules.ValidStepRule | src/scripts/Checkers/PieceMover.ts:90-98 | a move is valid iff the origin holds p, the target is one row forward for p (+1 black, -1 red) and one column to either side, and it is a free cell. Hence a row and column change of exactly 1, and never from an empty origin |
| MoveRules.KeepFreeMembers | src/scripts/Checkers/MoveHighlighter.ts:24-31 | a candidate cell is highlighted iff it is a free cell |
| MoveRules.TargetsAreValidSteps | src/scripts/Checkers/MoveHighlighter.ts:22-31 | for an unchanged board the highlighted cells of (row, col) are exactly the targets the mover's rule accepts from (row, col) |
| MoveRules.TargetsInOrder | src/scripts/Checkers/MoveHighlighter.ts:16-32 | no highlights for an empty origin; otherwise (row+d, col-1) if free, then (row+d, col+1) if free; at most two, each in bounds and empty |
| MoveRules.OpeningTargets | src/scripts/Checkers/MoveHighlighter.ts:22-31 | in the 8 x 8 opening: (5,0) gives [(4,1)], (2,7) gives [(3,6)], (2,1) gives [(3,0), (3,2)], (0,0) gives [] |
| Highlighting.MoveHighlighter.constructor | src/scripts/Checkers/MoveHighlighter.ts:10-14 | starts with no markers |
| Highlighting.MoveHighlighter.HighlightMoves | src/scripts/Checkers/MoveHighlighter.ts:16-32 | drops the old markers; the new markers' cells are exactly the highlighted cells of (row, col), in order, and every marker sits on the cell it records |
| Highlighting.MoveHighlighter.IsValidMove | src/scripts/Checkers/MoveHighlighter.ts:34-39 | agrees with the board's target check on every cell, including cells off the board |
| Highlighting.MoveHighlighter.HighlightSquare | src/scripts/Checkers/MoveHighlighter.ts:41-49 | appends one marker placed at x = col, z = row recording (row, col) |
| Highlighting.MoveHighlighter.ClearHighlights | src/scripts/Checkers/MoveHighlighter.ts:51-58 | leaves the marker list empty from any state, so a second call changes nothing |
| Selecting.SelectableIsRed | src/scripts/Checkers/PieceSelector.ts:80-83 | on a valid board a recorded mesh is selectable iff the piece under it is red |
| Selecting.PieceSelector.constructor | src/scripts/Checkers/PieceSelector.ts:16-26 | starts with nothing selected, nothing highlighted and no markers |
| Selecting.PieceSelector.OnMouseDown | src/scripts/Checkers/PieceSelector.ts:28-78 | non-left buttons change nothing. A selectable piece other than the current one becomes selected at (z, x), and the markers are recomputed for it. The current piece toggles off with no markers. Any other click, or none, leaves nothing selected and no markers. selected iff highlighted is kept |
| Selecting.PieceSelector.GetSelectedPiece | src/scripts/Checkers/PieceSelector.ts:85-87 | present iff a mesh is highlighted; then it is that mesh, on a board cell |
| Selecting.PieceSelector.ClearSelection | src/scripts/Checkers/PieceSelector.ts:89-96 | ends with nothing selected or highlighted and no markers from any state (idempotent), keeping the invariant |
| Moving.PieceMover.constructor | src/scripts/Checkers/PieceMover.ts:15-27 | given a valid board and selector on that board, starts valid with no hovered marker |
| Moving.PieceMover.IsValidMove | src/scripts/Checkers/PieceMover.ts:90-98 | agrees with the grid-level move rule on the board's current occupancy |
| Moving.PieceMover.OnMouseDown | src/scripts/Checkers/PieceMover.ts:29-54 | a left click on a marker with a selection whose move is valid moves the selected piece with its mesh to the marker's cell, clears selection and markers, and clears the hover; every other mesh cell keeps its mesh. Every other click changes nothing, so the selection is kept. Per-colour piece counts never change |
| Moving.PieceMover.OnMouseMove | src/scripts/Checkers/PieceMover.ts:56-81 | the hovered marker becomes the top hit if it is a marker, and none otherwise |
| Moving.PieceMover.ClearHighlight | src/scripts/Checkers/PieceMover.ts:83-88 | leaves no hovered marker from any state (idempotent) |
| OldBoard.Board.constructor | src/scripts/Checkers/Board.ts:10-59 | the same opening position as GameBoard; a mesh exactly on occupied cells, placed at x = col, z = row, with no owner tag; no two cells hold the same mesh |
| OldPieces.Pieces.constructor | src/scripts/Checkers/Pieces.ts:10-57 | the same opening position as GameBoard; a mesh exactly on occupied cells, placed at x = col, z = row, tagged opponent for black and player for red; no two cells hold the same mesh |

## Left out

- Rendering: geometries, materials, colours (board squares, hover and selection colours, `originalColor`), `scene.add`/`scene.remove`, `dispose`, and `console.log`. Meshes and markers are value handles, and only their position, user data and identity are modelled.
- Scene membership of a moved piece: `removePiece` takes the mesh out of the scene and disposes of it (src/scripts/Checkers/GameBoard.ts:90-92), and `addPieceMesh` (src/scripts/Checkers/GameBoard.ts:77-85) never adds it back. In the code a moved piece can therefore never be hit by a later raycast. The model's `Hit` input is unconstrained, so it does not capture this.
- Mouse coordinate normalisation and raycasting: floating-point library calls. The topmost hit is an input of the handlers.
- Board squares as scene objects: a click on one is the `SquareHit` input.
- The order in which the selector's and the mover's mousedown listeners run on the same event. Each handler is its own transition, and no end-to-end "a click on a marker moves the piece" property is claimed. The mover receives an already constructed selector (src/scripts/Checkers/PieceMover.ts:15), so the selector's listener is registered first and runs first. On a marker click it clears the selection before the mover's handler reads it, which would leave the board unchanged. This composition is not modelled.
- `getPieces`/`getPieceMeshes`: they hand out the grids themselves, which are the public `const` arrays here.
- src/scripts/threeScene1.ts, src/scripts/threeScene3.ts and src/scripts/Checkers/Camera.ts are not part of this model. They hold the page set-up, the animation loop, a demo scene and the camera.
- Captures, kings, turn order and game end: the code has none.
- BoardState.GameBoard.MovePiece: requires the origin to be on the board. The code reads `pieces[fromRow][fromCol]` unchecked. An off-board row throws there, and an off-board column reads `undefined` and does nothing.
- BoardState.GameBoard.RemovePiece: requires the cell to be on the board. The code only calls it on the origin of a move.
- BoardState.GameBoard.AddPieceMesh: requires the cell to be on the board. The code only calls it on a target that passed `isValidMove`.
- Highlighting.MoveHighlighter.HighlightMoves: requires the cell to be on the board, because `getPiece` does no bounds check. Its only caller passes a piece mesh's position.
- Selecting.PieceSelector.OnMouseDown: requires a hit piece mesh to stand on a board cell. Piece meshes in the scene are the board's. Their positions are read as integers, not as the floats the code holds.
- Mesh identity: `addPieceMesh` moves and re-tags the shared mesh object in place. Here the grid receives the moved handle value, and the selection's copy of the handle keeps its old position. The mover clears the selection right after the move.
