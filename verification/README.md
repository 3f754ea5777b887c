# Tetris grid core

A Dafny model of the game logic of a small Tetris clone. It covers three source files.

- **Cells** (`point.py`): a cell is a position `(row, col)`. Rows grow downward and columns grow rightward. A cell can take unit steps, be teleported, and be checked for orthogonal adjacency.
- **Pieces** (`block.py`): a piece is a colour, a list of squares and a pivot ("center"). The pivot moves with the piece but occupies no cell. Pieces move, rotate about their pivot, and split into connected fragments when a row is cut out of them. The `find_connected_groups` merge computes those fragments. The seven standard shapes are built by factories.
- **Board** (`board.py`): a board holds the pieces lying on it, a score, a lost flag and the piece the player controls. The player moves the controlled piece left or right or rotates it. On each update every piece falls as far as it may. Complete rows are then cleared and the cut pieces are fragmented. A controlled piece that can no longer fall lands, and the game is lost if it lands sticking out above row 1.

Modules, one per file:

- `wrappers.dfy`: `Option` and `Result`.
- `seqs.dfy`: sequence helpers — distinctness, flattening, filtering — with their multiset lemmas.
- `points.dfy`, `groups.dfy`, `blocks.dfy` and `boards.dfy` follow the source's structure. `groups.dfy` holds `find_connected_groups`, as an imperative method with loop invariants.

Some modelling choices:

- Coordinates are exact `real`s, because piece pivots sit on half-integers.
- The Python objects are mutable. Here every state is an immutable datatype, and each operation returns the new state.
- Object identity of the controlled piece is expressed as an index `main` into the board's piece list.

## Model

| member | source | states |
|---|---|---|
| Points.Step | point.py:33-46 | down, up, left and right each keep one coordinate and move the other in the named direction |
| Points.Shift | point.py:45-46 | a displacement changes the row by exactly the row offset and the column by exactly the column offset |
| Points.StepAdjacent | point.py:33-46 | a unit step always lands on an orthogonal neighbour of the start, so exactly one coordinate changes, by exactly 1 |
| Points.StepRoundTrip | point.py:33-46 | down then up, up then down, left then right and right then left restore the position exactly |
| Points.StepInjective | point.py:33-46 | the same step never sends two distinct positions to the same cell |
| Points.ShiftRoundTrip | point.py:45-46 | a displacement followed by its negation restores the position |
| Points.Teleport | point.py:49-50 | after a teleport the position equals the target |
| Points.TeleportForgetsOrigin | point.py:49-50 | where a teleport lands does not depend on the previous position |
| Points.SamePositionIsEquality | point.py:53-54 | two cells compare equal exactly when row and column agree, which is identity of the modelled value |
| Points.Adjacent | point.py:66-76 | two adjacent cells agree in exactly one coordinate: the same row or the same column, never both and never neither |
| Points.AdjacentSymmetric | point.py:66-76 | adjacency does not depend on argument order |
| Points.AdjacentIrreflexive | point.py:69-76 | no cell is adjacent to itself |
| Points.DiagonalNotAdjacent | point.py:69-76 | cells differing in both coordinates are never adjacent |
| Points.AdjacentIffOneUnitApart | point.py:69-76 | adjacent exactly when one coordinate is equal and the other differs by +1 or -1 |
| Points.AdjacentIffStep | point.py:66-76 | adjacent exactly when some unit step leads from one cell to the other |
| Blocks.Carried | block.py:48-50 | the carried points are the squares in order followed by the center |
| Blocks.HasSquareAt | block.py:71-72 | a piece has a square at a cell exactly when one of its carried points other than the last, which is the center, is that cell |
| Blocks.Move | block.py:87-89 | a move applies the same unit step to every square and to the center, keeps colour and square count, and keeps squares distinct |
| Blocks.MoveCarried | block.py:87-89 | moving a piece steps each of its carried points once |
| Blocks.MoveRoundTrip | block.py:75-89 | a move followed by the opposite move restores the whole piece, squares and center |
| Blocks.RotateAbout | block.py:93-104 | clockwise, the new row offset from the pivot is the old column offset and the new column offset is the negated old row offset; counter-clockwise, the new row offset is the negated old column offset and the new column offset is the old row offset |
| Blocks.RotateAboutRoundTrip | block.py:91-104 | turning one way and then the other restores a cell |
| Blocks.RotateAboutFourTimes | block.py:91-104 | four turns the same way restore a cell |
| Blocks.RotateAboutAdjacency | block.py:91-104 | a quarter turn about any pivot keeps exactly the same cell pairs adjacent |
| Blocks.Rotate | block.py:91-104 | rotation turns every square about the pivot, never moves the pivot, keeps colour and square count, and keeps squares distinct |
| Blocks.RotateRoundTrip | block.py:91-104 | rotate(True) followed by rotate(False), or the reverse, restores the piece exactly |
| Blocks.RotateKeepsAdjacency | block.py:91-104 | squares adjacent before a rotation are adjacent after it, and no others |
| Blocks.HasSquareAtMove | block.py:71-89 | a moved piece has a square at the stepped cell exactly when the original had one at the cell |
| Blocks.HasSquareAtRotate | block.py:71-104 | a rotated piece has a square at the turned cell exactly when the original had one at the cell |
| Blocks.Positions | block.py:118-119 | the compared position set is the squares together with the center |
| Blocks.Equal | block.py:112-119 | two pieces are equal exactly when their colours agree and their carried points, squares and center, form the same set |
| Blocks.EqualIgnoresOrder | block.py:112-119 | pieces with the same colour, center and squares in any order compare equal |
| Blocks.EqualKeptByMove | block.py:112-119 | equal pieces stay equal after the same move |
| Blocks.PositionsMove | block.py:87-119 | the compared position set moves with the piece |
| Blocks.EqualIgnoresPivot | block.py:112-119 | equality can hold between pieces with different pivots that stop being equal once rotated, because the pivot is one of the compared positions only when it coincides with a square |
| Blocks.OutsideRow | block.py:109 | the squares kept by remove_row are exactly those not in the row, and their number is the total less the count in the row |
| Blocks.OutsideRowCounts | block.py:109 | the filter keeps each square off the row as many times as it occurs and drops every square in the row |
| Blocks.OutsideRowNoDup | block.py:109 | filtering keeps the squares distinct |
| Blocks.CountInRow | block.py:109 | the count is zero exactly when no square is in the row |
| Blocks.Fragments | block.py:107-109 | one fragment per group, with the broken colour, the group's cells and the group's first cell as center, covering the groups in order |
| Blocks.RemoveRow | block.py:106-109 | the fragments have the broken colour, are non-empty and centered on their first square, are distinct-celled and connected, have no square in the row, are pairwise disjoint, together are a permutation of the squares outside the row, and are empty when every square was in the row |
| Blocks.ChainedConnected | block.py:174-203 | a list in which each cell touches an earlier one is connected |
| Blocks.ConnectedSameCells | block.py:135-171 | connectedness depends only on which cells are present |
| Blocks.MakeI | block.py:174-176 | the I piece is four distinct connected whole-number cells, columns col+1 down to col-2 in the anchor row, with the pivot at (row+0.5, col-0.5) |
| Blocks.MakeICells | block.py:174-176 | a cell belongs to the I piece exactly when it is in the anchor row at a whole column from col-2 to col+1 |
| Blocks.MakeO | block.py:178-180 | the O piece is the four cells of the 2x2 square whose bottom-right cell is the anchor, with the pivot at (row-0.5, row-0.5) |
| Blocks.MakeOTurnsInPlaceIffDiagonal | block.py:178-180 | a clockwise turn leaves the O piece equal to itself exactly when the anchor's row equals its column |
| Blocks.MakeT | block.py:182-185 | the T piece's cells are exactly (row, col+1), (row, col), (row, col-1) and (row-1, col), four distinct connected cells; the pivot is the anchor and is one of them, and every other cell touches it |
| Blocks.MakeS | block.py:187-189 | the S piece is four distinct connected cells: anchor and the cell to its right, and the cell above the anchor and the cell left of that |
| Blocks.MakeZ | block.py:191-193 | the Z piece is four distinct connected cells: anchor and the cell to its left, and the cell above the anchor and the cell right of that |
| Blocks.MakeJ | block.py:195-198 | the J piece is four distinct connected cells: three in the anchor row and one above the right end |
| Blocks.MakeL | block.py:200-203 | the L piece is four distinct connected cells: three in the anchor row and one above the left end |
| Groups.Neighbours | block.py:139 | the adjacency list of a cell holds exactly its adjacent input cells |
| Groups.WithNeighbours | block.py:139 | the adjacency graph's keys are exactly the input cells with at least one adjacent input cell |
| Groups.NeighboursEmptyIffIsolated | block.py:139 | a cell gets no graph entry exactly when it has no adjacent input cell |
| Groups.Singletons | block.py:141 | every cell starts alone in its own group |
| Groups.IndexOf | block.py:143 | the initial owner map sends each cell to its own group and knows no other cell |
| Groups.InitialPartition | block.py:141-143 | the initial groups and owner map form a partition of the input into connected groups |
| Groups.MergeStep | block.py:155-169 | merging the group of an adjacent cell into the acceptor keeps a partition into connected groups |
| Groups.Merge | block.py:157-165 | the acceptor's group gets the merged group's cells appended in order, the merged group is left empty, and every other group is unchanged |
| Groups.Reassign | block.py:160 | every cell of the merged group now belongs to the acceptor and every other cell keeps its group; no cell is added or dropped |
| Groups.MergeKeepsConnected | block.py:157-169 | merging two connected groups that touch gives a connected group |
| Groups.MergeKeepsMultiset | block.py:157-169 | merging loses and duplicates no cell |
| Groups.MergeConnected | block.py:157-159 | two connected groups joined by an adjacent pair form one connected group |
| Groups.AbsorbStep | block.py:153-169 | one pass of the inner loop keeps the bookkeeping, and every cell of the absorbed group leaves the graph and the adjacency list |
| Groups.FindConnectedGroups | block.py:135-171 | the groups are non-empty, pairwise disjoint, distinct-celled and connected by adjacency inside themselves; together they are a permutation of the input; an isolated cell stays a singleton; empty input gives empty output |
| Groups.Finish | block.py:171 | dropping the emptied groups leaves the output contract of find_connected_groups |
| Boards.NewBoard | board.py:45-49 | a new board has no pieces, score 0, is not lost, has no controlled piece, and is legal |
| Boards.PointInBounds | board.py:121-122 | a cell is in bounds exactly when it is not below the last row, not left of column 1 and not right of the last column |
| Boards.PointInBoundsUpward | board.py:121-122 | only the bottom bounds the rows: going up never leaves the board, a cell is inside whenever the cell below it is, and an inside cell whose lower neighbour is outside lies less than one row above the bottom |
| Boards.InBounds | board.py:117-123 | a piece is in bounds exactly when each of its squares has row at most rows and column between 1 and cols; there is no lower row bound |
| Boards.PointOverlaps | board.py:131-133 | a cell overlaps exactly when a piece other than the ignored one has a square there |
| Boards.Overlaps | board.py:128-130 | a piece overlaps exactly when one of its squares overlaps a piece other than itself |
| Boards.CanFall | board.py:137-141 | a piece can fall exactly when the cell below each of its squares is inside the board and not taken by another piece |
| Boards.CanFallKeepsLegal | board.py:137-141 | moving down a piece that can fall keeps every piece in bounds and no two overlapping |
| Boards.PlaceKeepsLegal | board.py:98-106 | replacing a piece by one that is in bounds and overlaps nothing keeps the board legal |
| Boards.Slide | board.py:98-106 | for left and right: fails without a controlled piece; otherwise the controlled piece is shifted one column when the shifted piece fits, and else stays where it was; nothing else changes and legality is kept |
| Boards.SlidePlaced | board.py:98-106 | moving the piece back after a move that does not fit leaves it exactly where it was, and either way the board stays well formed, and legal if it was |
| Boards.SlideUndo | board.py:98-106 | a slide that changed a legal board is undone exactly by the slide the other way |
| Boards.RotateMain | board.py:108-111 | rotate fails without a controlled piece; otherwise the controlled piece is turned when the turned piece is in bounds, and else restored exactly; overlap is not consulted |
| Boards.RotateMainOverlaps | board.py:108-111 | there are legal boards on which rotate yields two overlapping pieces |
| Boards.RotateMainChecked | board.py:108-111 | rotating only when the turned piece is in bounds and overlaps nothing keeps a legal board legal |
| Boards.Spawn | board.py:113-115 | a new piece is appended and becomes the controlled piece; the other pieces, score and flags are unchanged; legality is kept when the piece fits |
| Boards.SpawnKeepsLegal | board.py:113-115 | adding a piece that fits keeps the board legal |
| Boards.MinRow | board.py:185 | the minimum row is attained by some square and is at most every square's row |
| Boards.Land | board.py:183-186 | a controlled piece that cannot fall is released, and the game is lost exactly when one of its squares is at row 0 or above; otherwise nothing changes |
| Boards.SinkRows | board.py:174-176 | sinking a piece k times moves every square and the center down by exactly k rows |
| Boards.FallOnce | board.py:175-176 | a piece moves down one row exactly when it can fall, and legality is kept |
| Boards.FallPiece | board.py:174-176 | one piece sinks by some number of rows no greater than the fall count; it could fall from every row it passed, so it never goes through another piece or out of the board, and it stops short of the fall count only when it can fall no further; nothing else changes and legality is kept |
| Boards.FallAll | board.py:172-176 | the pieces fall one after another in list order, each through a recorded stage in which only that piece sinks, by at most the fall count (a negative count meaning none), one row at a time from places it could fall from, and by less only when at the end of its turn it can fall no further; every piece ends sunk by its recorded drop; legality is kept |
| Boards.FallStageDetermined | board.py:174-176 | a piece's turn has one outcome: two stages for the same piece and board agree on the drop and on the board after it |
| Boards.FallCount | board.py:172 | the number of rows a piece may fall is the board's height for MAX_SPEED and the speed otherwise |
| Boards.InAllSquares | board.py:146 | a cell is occupied exactly when some piece has a square there |
| Boards.CutPiece | board.py:159-166 | each piece is either kept whole or replaced by broken non-empty fragments, each connected and turning about its first square; it is kept whole only when it has no square in the row, and when it is not kept whole it either had a square in the row or broke into other than one fragment; either way the row's squares are gone and the rest are kept |
| Boards.KeptWhole | board.py:162-163 | a first fragment with as many squares as the piece means the piece had no square in the row |
| Boards.RemoveLine | board.py:154-168 | the new piece list is, in order, each old piece kept whole or replaced by its connected broken fragments as CutPiece states; the score goes up by one; exactly the squares in the row disappear and every other square keeps its multiplicity; the controlled piece stays controlled exactly when it was kept whole, and then is the same piece; legality is kept |
| Boards.CutAll | board.py:158-167 | the gathered list is the concatenation, in order, of what replaced each piece; each piece was kept whole or cut as CutPiece states; the controlled piece is tracked exactly when it was kept whole; the gathered pieces hold the squares outside the row; on a board whose pieces share no cell, the gathered pieces share none |
| Boards.CutNext | board.py:159-166 | one pass of the loop appends to the gathered pieces exactly what replaced the current piece; it records the controlled piece's new position exactly when that piece is the current one and was kept whole, and otherwise leaves the tracking alone |
| Boards.PartsDisjoint | board.py:158-167 | the pieces that replace the first k pieces of a board whose pieces share no cell share no cell, and lie within those k pieces |
| Boards.KeptInBounds | board.py:158-167 | the kept pieces hold exactly the squares outside the row and stay legal |
| Boards.FullRows | board.py:146-151 | the rows reported full are exactly the complete rows 1..rows, in increasing order |
| Boards.IsFull | board.py:146-151 | a row is complete exactly when each column 1..cols holds a square of some piece |
| Boards.NoFullRowLeft | board.py:143-152 | once the full rows are cleared no row 1..rows is complete |
| Boards.RemoveLines | board.py:143-152 | the full rows, found once at entry, are removed one at a time in increasing order, each removal a stage as RemoveLine states; the score rises by their number; exactly their squares are gone; no complete row remains; the controlled piece is given up when it met one of them; legality is kept |
| Boards.RemoveEach | board.py:150-152 | removing a list of rows one after another raises the score by their number, clears exactly their squares, keeps legality, gives up the controlled piece if it met one of them, and records one removal stage per row as RemoveLine states |
| Boards.RemoveLinesStep | board.py:150-152 | removing one more full row extends what has been cleared so far |
| Boards.ClearedTwice | board.py:150-152 | clearing some rows and then one more clears their union |
| Boards.Update | board.py:170-186 | one frame: the pieces fall in stages as FallAll states, with MAX_SPEED meaning the board's height; the rows full after the fall are removed as RemoveLines states and their number is the count of cleared lines, by which the score rises; a piece lands exactly when the controlled piece survived the clearing and can no longer fall, and the landed piece is that piece; it is released and the game is lost exactly when it sticks out above row 1; a controlled piece that does not land has only sunk and can still fall; legality is kept and no complete row remains |

## Left out

- Drawing is not modelled: `Block.draw`, `Board.draw`, `_draw_block`, `make_shadow_copy`, the border constants and the pixel rectangles of squares. These only read the game state.
- `_draw_main_shadow` is not modelled. Besides drawing, it removes the controlled piece from the list and appends it again, which moves it to the end of the list. That is a no-op whenever the controlled piece is already last. `Boards.Spawn` appends the piece, falling and sliding keep the list order, and `Boards.RemoveLine` keeps the order and keeps the controlled piece only when it was kept whole. The model does not prove, as a separate lemma, that the controlled piece stays last.
- `random_block` and `Board.new_falling_block` are left out because they draw from a global random source. `Boards.Spawn` models the effect with a given piece. The source's `new_falling_block` passes one argument to `random_block`, which takes three.
- `__hash__` and `__str__` are not modelled. Hashes only have to agree with equality, and any function of the compared key does.
- The `print(row)` in `remove_line` is an output side effect and is not modelled.
- The `TypeError` branches of `is_inbounds` and `has_overlap` are left out. The model's types rule them out.
- Groups.FindConnectedGroups: requires distinct input cells. Every piece the game builds has distinct squares, and with duplicates the source's dictionaries conflate entries.
- Groups.FindConnectedGroups: does not claim the groups are maximal, because they are not. The input order (1,1), (1,4), (1,2), (1,3) ends with two groups.
- Boards.Update: the source tests `main_block not in blocks` with value equality. The model follows the controlled piece by position in the list. The two differ only if another piece has the same colour and exactly the same positions.
- Boards.Update: does not model the `ValueError` of `min([])` for a controlled piece without squares. Such a piece can always fall, so that branch is never reached.
- Boards.FullRows: with `cols <= 0` every row counts as full, which is faithful to `not any([])`. For this reason the "no complete row remains" promise is stated only for `cols >= 1`.
- Boards.RemoveLines: does not promise that a controlled piece which no full row touches survives. Per stage it states what the source does: the piece stays controlled exactly when `remove_row` hands it back as one fragment with all its squares. Whether an untouched piece comes back whole depends on the grouping order of `find_connected_groups`, whose groups need not be maximal (see Groups.FindConnectedGroups above).
- Blocks.MakeO: the pivot is modelled as written, with the anchor's row used for both coordinates.
- Colours are abstract tags rather than RGB values. Equality on colour tags stands for the source's comparison of colour components.

## Findings

| source | as written | input that shows it | evidently intended | confidence | as-written member | corrected member |
|---|---|---|---|---|---|---|
| board.py:108-111 | `rotate` undoes the turn only when the turned piece is out of bounds, so it can turn the controlled piece into cells another piece occupies | a T piece anchored at (row, col) on a board with rows >= row+1 and 2 <= col <= cols-1, and a one-square piece at (row+1, col) under the anchor; turning clockwise moves a T square onto (row+1, col) | undo the turn also when the turned piece overlaps another piece, as `left` and `right` do | not executed | Boards.RotateMainOverlaps | Boards.RotateMainChecked |
