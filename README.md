# A verified model of the hexgame engine

This project is a Dafny model of the core of `hexgame`, an engine for the board game Hex written in
Rust. Two players, Black and White, take turns placing stones on a rhombic board of hexagonal cells.
Black wins by connecting the top and bottom edges, White by connecting the left and right edges.

The model follows the source file by file, one module per file:

- `union_find.dfy` (module `UnionFind`): the disjoint-set structure. Parent links live in an array; the
  larger root always becomes the parent, and `find_root` compresses paths. Its abstract meaning is the
  partition `Root` induces. Every link points to a strictly larger item (`Ordered`); that order is what
  makes both loops terminate.
- `hex_cells.dfy` (module `HexCells`): the flat grid. It has `size * size` cells in row-major order and
  then the Left, Top, Right and Bottom edge slots. Each slot holds a colour and a parent, and the
  index arithmetic is proved a bijection. `cells.dfy` and `square_array.dfy` model the two older grid
  types.
- `neighbors.dfy` (module `Neighbors`): the neighbour list of a cell, computed on flat indices exactly
  as the source does. It is proved equal to a geometric description: the cells adjacent on the hex
  grid plus the edges the cell lies on, in clockwise order, each listed once.
- `attacked_bridges.dfy` (module `AttackedBridges`): the three-state scan that finds bridges attacked
  by a new stone. The scan runs over a fixed array of eight slots. It is proved to report exactly the
  empty neighbours flanked on both cyclic sides by opponent stones, in the order the source reports them.
- `board.dfy` (module `Boards`): the older board of `src/board.rs`. It keeps a square array of cells
  plus the parent fields of the TOP and LEFT edges. Its union-find state is abstracted to a `UnionFind`
  store through `Rank`. `play` is proved to place the stone and to merge its set with those of its
  same-coloured neighbours and nothing else. Every set stays single-coloured.
- `game.dfy` (module `Games`): the game state machine with status, turn and game over. The invariant
  is that no player has connected their edges while the game is ongoing. Once it is finished, exactly
  the winner has.
- `color.dfy`, `edges.dfy`, `coords.dfy`: colours, edges and edge colouring, and the coordinate
  notation `a1` … `s19` with its parser.
- `serialize.dfy` (module `Serialization`): the 0/1/2 byte codec of saved games with its round trips.
  The JSON wrapper around it is left out.
- `format.dfy` (module `Formatting`): the text rendering of a board. It is specified as a string
  function, proved line by line, and checked against the 3 × 3 example of the source.

Two details of the source that the model keeps as they are:

- The attacked-bridge scan visits all eight slots of its array. The slots after the repeated first
  two neighbours hold the centre index.
- `Board::play` merges the new stone with every neighbour of its colour, one after the other.

I/O is not modelled. Integers are unbounded; the source's `u8`/`u16` widths appear only as explicit
preconditions (`size <= 19`, `column <= 158`, `row < 255`).

## Model

| member | source | states |
|---|---|---|
| `Colors.Opponent` | src/color.rs:8-13 | the opponent's colour differs from the colour: Black's is White, White's is Black |
| `Colors.OpponentIsInvolution` | src/color.rs:8-13 | taking the opponent twice gives back the colour |
| `Coordinates.IsOnBoardWithSize` | src/coords.rs:15-17 | coordinates on a board of size s flatten to a row-major index below s² |
| `Coordinates.ParseColumnChar` | src/coords.rs:40-46 | exactly 'a'..'z' are accepted; the column is below 26 and `to_column_char` maps it back to the character |
| `Coordinates.ToColumnChar` | src/coords.rs:48-50 | the character lies `column` places after 'a'; it is a letter 'a'..'z' iff the column is below 26 |
| `Coordinates.ColumnCharRoundTrip` | src/coords.rs:40-50 | parsing the character of a column below 26 gives the column back |
| `Coordinates.DecimalString` | src/coords.rs:52-56 | the printed row number is all digits, has no leading zero and has the number's value |
| `Coordinates.ParseU8` | src/coords.rs:27 | a parsed byte value is below 256 |
| `Coordinates.ParseDecimalString` | src/coords.rs:27 | parsing the decimal text of a byte value gives the value back |
| `Coordinates.FromStr` | src/coords.rs:23-37 | parsing succeeds iff the first character is a lower-case letter and the rest parses as a byte above 0; the returned column is the letter's offset from 'a' and the returned row is the parsed value minus one, so non-canonical text such as "a01" or "a+5" is read the same way; the column is below 26 and the row below 255 |
| `Coordinates.ToString` | src/coords.rs:52-56 | the column's letter, then the plain decimal text of the one-based row (digits only, no leading zero), which parses back as that row |
| `Coordinates.FromStrToString` | src/coords.rs:23-56 | parsing the printed coordinates gives them back for column < 26 and row < 255 |
| `Coordinates.ToStringExamples` | src/coords.rs:77-80 | (0,0) prints as "a1" and (12,5) as "f13" |
| `Coordinates.FromStrExamples` | src/coords.rs:83-86 | "a1" and "f13" parse to (0,0) and (12,5); a leading zero is accepted |
| `Coordinates.FromStrRejects` | src/coords.rs:89-95 | "", "abc", "A2", "a0" and a non-ASCII first character are rejected |
| `Edges.GetEdgesOfColor` | src/edges.rs:14-19 | two distinct edges, exactly the ones the colour owns (Top and Bottom for Black, Left and Right for White) |
| `Edges.EdgesOfColorsPartition` | src/edges.rs:14-19 | every edge belongs to exactly one colour |
| `EdgeColors.WithEdgeColors` | src/edges.rs:41-48 | after colouring, every edge slot holds its owner's colour and every normal cell is unchanged |
| `EdgeColors.WithEdgeColorsIdempotent` | src/edges.rs:41-48 | colouring the edges twice is the same as once |
| `EdgeColors.PaintedBoth` | src/edges.rs:42 | giving Black's edges their colour and then White's yields exactly the colouring `WithEdgeColors` specifies |
| `EdgeColors.PaintEdgesOfColor` | src/edges.rs:43-46 | the inner loop gives both edges of one colour that colour and leaves every other slot and every parent unchanged |
| `EdgeColors.SetEdgeColors` | src/edges.rs:41-48 | the nested loops leave the colours as `WithEdgeColors` says and leave every parent unchanged |
| `HexCells.IndexFromCoords` | src/hex_cells.rs:38-48 | an on-board cell's index is below size² |
| `HexCells.IndexFromEdge` | src/hex_cells.rs:72-80 | the edge slots are size² + 0..3, in the order Left, Top, Right, Bottom |
| `HexCells.IndexFromCoordsOrEdge` | src/hex_cells.rs:82-87 | every cell or edge has a slot below size² + 4 |
| `HexCells.DecodeIndex` | src/hex_cells.rs:50-63 | a slot decodes to a cell iff it is below size²; the cell is on the board; encoding the result gives the slot back |
| `HexCells.CoordsFromIndex` | src/hex_cells.rs:65-70 | defined only on normal cells (the source panics on edges); the coordinates are on the board and map back to the index |
| `HexCells.DecodeIndexFromCoords` | src/hex_cells.rs:38-63 | decoding a cell's index gives the cell back |
| `HexCells.DecodeIndexFromEdge` | src/hex_cells.rs:50-80 | decoding an edge's slot gives the edge back |
| `HexCells.DecodeIndexInverse` | src/hex_cells.rs:50-87 | decoding is the inverse of both index constructors |
| `HexCells.HexCells.constructor` | src/hex_cells.rs:30-36 | size² + 4 slots, all without colour and without parent |
| `HexCells.HexCells.GetColorAtCoords` | src/hex_cells.rs:90-92 | the colour stored in the cell's row-major slot |
| `HexCells.HexCells.SetColorAtIndex` | src/hex_cells.rs:103-105 | only that slot's colour changes, to the given colour; the parents stay |
| `HexCells.HexCells.SetColorAtCoords` | src/hex_cells.rs:98-101 | the cell's slot gets the colour; nothing else changes |
| `HexCells.HexCells.SetParentAtIndex` | src/hex_cells.rs:111-113 | only that slot's parent changes; the colours stay |
| `HexCells.IndexExamples` | src/hex_cells.rs:138-161 | the 3 × 3 test values: (1,2) is 5, the edges are 9..12, and decoding maps 0, 9 and 12 back |
| `HexCells.SetColorExample` | src/hex_cells.rs:163-178 | on a 3 × 3 grid, Black written at slot 5 reads back at slot 5 and at (1, 2), and parent 127 reads back |
| `Cells.WithColor` | src/cells.rs:13-18 | the new cell has the colour and no parent |
| `Cells.Cells.constructor` | src/cells.rs:29-35 | size² + 4 default cells |
| `Cells.Cells.IndexFromCoords` | src/cells.rs:37-47 | the index is below size² and decodes to the coordinates |
| `Cells.Cells.Left` | src/cells.rs:49-52 | the slot decodes to the left edge |
| `Cells.Cells.Top` | src/cells.rs:54-56 | the slot decodes to the top edge |
| `Cells.Cells.Right` | src/cells.rs:58-60 | the slot decodes to the right edge |
| `Cells.Cells.Bottom` | src/cells.rs:62-64 | the slot decodes to the bottom edge |
| `Cells.Cells.AtCoord` | src/cells.rs:70-72 | the cell stored at row * size + column |
| `Cells.Cells.SetIndex` | src/cells.rs:74-76 | the slot holds the new cell; every other slot is unchanged |
| `Cells.CellsExample` | src/cells.rs:83-106 | a new 3 × 3 grid holds default cells, (1, 2) is slot 5, and a cell written there reads back by index and by coordinates |
| `SquareArrays.SquareArray.constructor` | src/square_array.rs:7-13 | size² copies of the default item |
| `SquareArrays.SquareArray.IndexFromCoord` | src/square_array.rs:15-33 | for in-range arguments (the source panics otherwise) the index is below size², and dividing by the size recovers row and column |
| `SquareArrays.SquareArray.AtCoord` | src/square_array.rs:39-41 | the item stored at row * size + column |
| `SquareArrays.SquareArray.SetIndex` | src/square_array.rs:43-45 | the item at the index is the new value; the others are unchanged |
| `SquareArrays.SquareArray.SetCoord` | src/square_array.rs:47-50 | the item at row * size + column becomes the value and reads back through `at_coord` |
| `SquareArrays.SquareArrayExample` | src/square_array.rs:57-80 | a new 3 × 3 array holds the default; 123 written at index 5 or at (2, 1) reads back at (1, 2) and index 7 |
| `Neighbors.GetNeighbors` | src/neighbors.rs:6-51 | every cell has four to six neighbours |
| `Neighbors.NeighborSpec` | src/neighbors.rs:44-50 | the clockwise list (left, top-left, top-right, right, bottom-right, bottom-left) holds only adjacent cells and touched edges |
| `Neighbors.NeighborSpecIsAdjacency` | src/neighbors.rs:6-51 | a cell or edge is in the list iff it is adjacent to the cell or the cell lies on it |
| `Neighbors.NeighborSpecDistinct` | src/neighbors.rs:6-51 | nothing is listed twice |
| `Neighbors.GetNeighborsMatchesSpec` | src/neighbors.rs:6-51 | the index arithmetic yields exactly the slots of the clockwise list, in order |
| `Neighbors.SideNeighborsMatch` | src/neighbors.rs:8-30 | the left neighbour is the Left edge iff the column is 0, and likewise for the right neighbour in the last column |
| `Neighbors.TopNeighborsMatch` | src/neighbors.rs:14-24 | the top-left neighbour is the Top edge in the first row; the top-right one exists only outside the first row and last column |
| `Neighbors.BottomNeighborsMatch` | src/neighbors.rs:32-42 | the bottom-right neighbour is the Bottom edge in the last row; the bottom-left one exists only outside the last row and first column |
| `Neighbors.GetNeighborsAreAdjacent` | src/neighbors.rs:6-51 | every returned slot is on the board or an edge and is next to the cell; every adjacent cell and touched edge is returned; no slot is repeated |
| `Neighbors.NeighborsSymmetric` | src/neighbors.rs:6-51 | d is a neighbour of c iff c is a neighbour of d |
| `Neighbors.NeighborCounts` | src/neighbors.rs:74-186 | interior cells have six neighbours, the acute corners four, every other border cell five |
| `Neighbors.NeighborExamples` | src/neighbors.rs:74-200 | the exact lists of the 5 × 5 tests for all four corners, two border cells and the centre |
| `AttackedBridges.CyclicMiddles` | src/attacked_bridges.rs:21-28 | every reported slot is an empty neighbour |
| `AttackedBridges.CyclicUpToMembers` | src/attacked_bridges.rs:37-65 | a slot is reported among positions 1..j-1 iff a position there holds it and is flanked |
| `AttackedBridges.EmptySlotIsCell` | src/attacked_bridges.rs:56 | with the edges coloured an empty slot is a normal cell, so `coords_from_index` cannot panic |
| `AttackedBridges.FindAttackedBridgesSpec` | src/attacked_bridges.rs:11-68 | every reported cell is an empty on-board neighbour of the centre; an empty centre gives [] |
| `AttackedBridges.FindAttackedBridgesMeaning` | src/attacked_bridges.rs:18-65 | d is reported iff it is neighbour j, empty, with the opponent's colour at cyclic neighbours j-1 and j+1 |
| `AttackedBridges.Window` | src/attacked_bridges.rs:24-28 | the scanned array has eight slots |
| `AttackedBridges.ScanEmpty` | src/attacked_bridges.rs:40-63 | every middle the scan reports is empty |
| `AttackedBridges.ScanWindowIsCyclic` | src/attacked_bridges.rs:21-65 | scanning the padded array reports exactly the cyclic middles, 1..n-1 then 0, overlaps included; the centre filler never matches |
| `AttackedBridges.CopyIntoArray` | src/attacked_bridges.rs:70-81 | the items are written from `start` on, the rest of the array is kept, and the index after them is returned |
| `AttackedBridges.ExtendedNeighbors` | src/attacked_bridges.rs:25-28 | the array is the neighbours, then neighbours 0 and 1, then centre filler |
| `AttackedBridges.FindAttackedBridges` | src/attacked_bridges.rs:11-68 | the automaton returns exactly `FindAttackedBridgesSpec`, in scan order |
| `AttackedBridges.ScanStep` | src/attacked_bridges.rs:37-65 | each slot appends the middle cell exactly when it closes the pattern [S, empty, S] |
| `AttackedBridges.CoordsWithoutStoneExample` | src/attacked_bridges.rs:96-100 | an empty centre has no attacked bridges |
| `AttackedBridges.CoordsWithoutNeighborsExample` | src/attacked_bridges.rs:102-107 | a lone stone attacks nothing |
| `AttackedBridges.SimpleBridgeExample` | src/attacked_bridges.rs:109-125 | black d2 and c4 around white c3 give d3 |
| `AttackedBridges.PrecedingStoneExample` | src/attacked_bridges.rs:127-143 | a preceding black stone does not hide the bridge |
| `AttackedBridges.NonBridgeExample` | src/attacked_bridges.rs:145-158 | a white stone between the black ones means no bridge |
| `AttackedBridges.ThreeBridgesExample` | src/attacked_bridges.rs:160-181 | three overlapping bridges are all reported, in neighbour order |
| `AttackedBridges.WrapAroundExample` | src/attacked_bridges.rs:183-199 | a bridge from the last neighbour over the first is found |
| `AttackedBridges.ObtuseCornerExample` | src/attacked_bridges.rs:201-215 | the bridge between the top edge and a2 around b1 has middle a1, on any board of size 3 or more |
| `AttackedBridges.NextToObtuseCornerExample` | src/attacked_bridges.rs:217-231 | white a1 next to black a2 attacks the bridge with middle b1 |
| `AttackedBridges.OwnEdgeExample` | src/attacked_bridges.rs:233-247 | a bridge to the defender's own edge is found |
| `AttackedBridges.OtherPlayersEdgeExample` | src/attacked_bridges.rs:249-262 | the other player's edge does not complete a bridge |
| `Boards.Rank` | src/board.rs:13-22 | the ranks of a board's positions lie below size² + 4 |
| `Boards.RankOrder` | src/board.rs:13-22 | the derived order of positions is the order of their ranks, and ranks are distinct |
| `Boards.EdgeColor` | src/board.rs:57-63 | TOP and BOTTOM read as Black, LEFT and RIGHT as White |
| `Boards.EdgeRootsStay` | src/board.rs:13-22 | when two roots of one colour merge, BOTTOM or RIGHT is never the one linked below the other |
| `Boards.NeighborPositionsMeaning` | src/board.rs:65-100 | a position is a neighbour iff it is an adjacent cell or an edge the cell lies on |
| `Boards.Board.GetNeighbors` | src/board.rs:65-100 | four to six positions, each a cell of this board or an edge |
| `Boards.GetNeighborsMatch` | src/board.rs:65-100 | the board's neighbour list is a permutation of the hex neighbours of the cell |
| `Boards.PlaceStone` | src/board.rs:114-120 | a stone stored as its own parent changes only the colour and is a set of its own |
| `Boards.JoinStep` | src/board.rs:122-126 | merging the new stone's set with a neighbour's set adds that neighbour's root to the joined sets |
| `Boards.JoinedWithNeighbors` | src/board.rs:122-126 | after the merges the new stone is in one set with every neighbour of its colour |
| `Boards.OtherColorsKeepSets` | src/board.rs:122-126 | positions of another colour are grouped exactly as before |
| `Boards.OtherColorsStayApart` | src/board.rs:122-126 | after the merges two positions of another colour are in one set iff they were before |
| `Boards.Board.constructor` | src/board.rs:37-47 | for 2 <= size <= 19, an empty board on which every position is a root |
| `Boards.Board.GetColor` | src/board.rs:53-55 | the stone at the coordinates |
| `Boards.Board.GetColorOfPosition` | src/board.rs:57-63 | the colour the position reads as, edges included |
| `Boards.Board.GetParent` | src/board.rs:133-140 | the stored parent, or the position itself for a root; BOTTOM and RIGHT are their own parents |
| `Boards.Board.SetParent` | src/board.rs:142-162 | one link changes (not for BOTTOM or RIGHT, where the source panics); every colour is kept |
| `Boards.Board.WalkToRoot` | src/union_find.rs:29-31 | the first loop reaches the root of the item |
| `Boards.Board.LinkPathTo` | src/union_find.rs:33-36 | every position on the path is linked to the root; the colours are kept |
| `Boards.Board.FindRoot` | src/union_find.rs:25-39 | returns the root and leaves the compressed store; the colours are kept |
| `Boards.Board.IsInSameSet` | src/union_find.rs:21-23 | true iff the two positions are in one set; no root changes |
| `Boards.Board.Merge` | src/union_find.rs:41-59 | the sets of the two same-coloured positions are joined and the rest of the partition is unchanged; the links stay ordered and single-coloured |
| `Boards.Board.PutStone` | src/board.rs:107-120 | the cell gets the colour and stays a root; the links are unchanged |
| `Boards.Board.JoinNeighbors` | src/board.rs:122-126 | the loop joins the stone's set with the set of each same-coloured neighbour, one by one |
| `Boards.Board.Play` | src/board.rs:102-129 | off-board coordinates give `OutOfBounds` and an occupied cell gives `CellOccupied`, each with nothing changed; otherwise the cell gets the colour and its set is joined with exactly its same-coloured neighbours' sets |
| `Games.FromBoardError` | src/game.rs:42 | board errors pass on unchanged |
| `Games.GetEdges` | src/game.rs:30-35 | two distinct edges, both of the player's colour |
| `Games.GetEdgesCoverEdges` | src/game.rs:30-35 | every edge is one of its owner's two edges and neither of the opponent's |
| `Games.Game.constructor` | src/game.rs:22-28 | an empty board, Black to move, the game ongoing |
| `Games.Game.Play` | src/game.rs:37-53 | a finished game gives `GameOver` and the board's errors pass through, with nothing changed; otherwise the stone is placed, the sets afterwards are the sets before with the stone's and its same-coloured neighbours' sets joined, and the mover wins and keeps the turn iff their edges joined, else the turn passes; the invariant keeps the opponent's edges apart |
| `Serialization.SerializeColor` | src/serialize.rs:72-78 | None is 0, Black 1, White 2 |
| `Serialization.DeserializeColor` | src/serialize.rs:80-87 | codes above 2 are errors naming the code; the others decode to what encodes to them |
| `Serialization.ColorRoundTrip` | src/serialize.rs:72-87 | decoding an encoded colour gives it back |
| `Serialization.StoreRow` | src/serialize.rs:60-62 | one code per cell, in order |
| `Serialization.LoadRow` | src/serialize.rs:68-70 | succeeds iff every code is at most 2, keeping the length and storing back to the row; otherwise reports the first bad code |
| `Serialization.RowRoundTrip` | src/serialize.rs:60-70 | loading a stored row gives it back |
| `Serialization.StoreCells` | src/serialize.rs:56-58 | row count and row lengths are kept, each row stored as `store_row` does |
| `Serialization.LoadCells` | src/serialize.rs:64-66 | fails iff some code is above 2, reporting the first bad code of the first row that has one; otherwise keeps row count and lengths and stores back to the input |
| `Serialization.CellsRoundTrip` | src/serialize.rs:56-70 | loading stored cells gives them back |
| `Serialization.LoadCurrentPlayer` | src/serialize.rs:44-45 | only 1 and 2 are players; 0 is rejected with its own error and a code above 2 with `InvalidColor` of that code |
| `Serialization.SaveGame` | src/serialize.rs:30-38 | keeps the size, stores a non-zero player code and valid cell codes |
| `Serialization.CheckBoardShape` | src/serialize.rs:43 | accepts iff there are 2 to 19 rows and every row has as many cells as there are rows; a wrong row count is reported with the bounds, otherwise the first row of the wrong length |
| `Serialization.FirstBadRow` | src/serialize.rs:43 | the first row from the start position on whose length is wrong, or none iff every such row has the length |
| `Serialization.LoadGame` | src/serialize.rs:40-53 | succeeds iff every code is valid, the cells are square with 2 to 19 rows and the player code is 1 or 2; cell errors come first, then the board shape, then the player, where 0 gives `CurrentPlayerIsZero` and a code above 2 gives `InvalidColor` of that code; a successful load saves back to the same stored game |
| `Serialization.GameRoundTrip` | src/serialize.rs:30-53 | loading a saved game of a legal board gives back its cells and player to move |
| `Serialization.SerializeExample` | src/serialize.rs:99-162 | the 2 × 2 save and load tests, White to move included |
| `Serialization.WhiteToMoveExample` | src/serialize.rs:151-162 | the stored game with code 2 for the player to move loads with White to move |
| `Serialization.LoadGameShapeExample` | src/serialize.rs:40-45 | a single row is rejected as a wrong size, and a short second row as not square, before the player code is read |
| `Formatting.CharForColor` | src/format.rs:64-72 | '●' for Black, '○' for White, '.' for an empty cell, and nothing else |
| `Formatting.Indent` | src/format.rs:60-62 | the given number of spaces |
| `Formatting.WriteColumnLabels` | src/format.rs:31-43 | the loop appends the label line: the indent and " x " for each column letter, then a newline |
| `Formatting.WriteRow` | src/format.rs:45-58 | the loop appends the row line: r spaces, r+1, `\`, the cells two spaces apart, `\`, r+1, newline |
| `Formatting.Format` | src/format.rs:20-28 | the labels, one line per row, then the labels indented by size + 1 |
| `Formatting.LabelsShape` | src/format.rs:31-43 | three characters per column with the column's letter in the middle, no newline |
| `Formatting.LabelLineShape` | src/format.rs:31-43 | one line: indent spaces, then letter c at indent + 3c + 1 |
| `Formatting.CellCharsShape` | src/format.rs:49-55 | 3n - 2 characters with cell c's character at 3c, no newline |
| `Formatting.RowLineShape` | src/format.rs:45-58 | one line indented by r spaces, with cell c's character after the row number at offset 3c |
| `Formatting.BoardHeadConcat` | src/format.rs:20-28 | the first rows of the text are the first lines |
| `Formatting.BoardTextLines` | src/format.rs:20-28 | the text is the concatenation of its size + 2 lines, each ending in a newline |
| `Formatting.FormatExampleText` | src/format.rs:79-96 | the 3 × 3 example renders to exactly the test's five lines |
| `Formatting.FormatExample` | src/format.rs:79-96 | the board with Black at a1 and White at b3 prints as exactly the test's text |
| `Formatting.ExampleBoard` | src/format.rs:81-84 | playing Black at a1 and White at b3 on an empty board colours exactly those cells |
| `Formatting.ExampleLabelLines` | src/format.rs:79-96 | the example's header and footer lines |
| `Formatting.ExampleFirstRow` | src/format.rs:79-96 | the example's first row line |
| `Formatting.ExampleSecondRow` | src/format.rs:79-96 | the example's second row line |
| `Formatting.ExampleThirdRow` | src/format.rs:79-96 | the example's third row line |
| `UnionFind.Root` | src/union_find.rs:25-31 | following links from x ends at a parentless item no smaller than x |
| `UnionFind.Path` | src/union_find.rs:29-36 | the items before the root; empty iff x is a root, and starting with x otherwise |
| `UnionFind.RecompressedKeepsRoots` | src/union_find.rs:15-19 | re-linking items straight to their roots changes no item's root |
| `UnionFind.CompressKeepsRoots` | src/union_find.rs:33-36 | compression keeps the order and every root, links each path item to the root and leaves the rest alone |
| `UnionFind.RelinkStartKeepsRoots` | src/union_find.rs:33-36 | the loop as written also keeps the order and every root |
| `UnionFind.LinkRoots` | src/union_find.rs:52-57 | linking a root below a larger root moves exactly its set into the other |
| `UnionFind.MergeOutcome` | src/union_find.rs:41-59 | after `merge` the store is ordered, single-labelled and partitioned with the two sets joined |
| `UnionFind.FindRootAsWritten` | src/union_find.rs:25-39 | returns the root but re-links only the starting item |
| `UnionFind.FindRoot` | src/union_find.rs:25-39 | returns the parentless root and leaves the fully compressed, still ordered store |
| `UnionFind.IsInSameSet` | src/union_find.rs:21-23 | true iff the items are in one set; the store only gets compressed and no root changes |
| `UnionFind.LinkedMerges` | src/union_find.rs:41-59 | x and y are in one set afterwards iff they were before, or each was in the set of a or of b |
| `UnionFind.Merge` | src/union_find.rs:41-59 | equal roots leave only the compressions; otherwise exactly the smaller root gets the larger as parent; the partition joins the two sets |
| `UnionFind.MergeResult` | src/union_find.rs:41-59 | the store `merge` leaves is still ordered and has the same items |
| `UnionFind.FindRootExample` | src/union_find.rs:93-99 | on four lone items the root of 2 is 2, and after merging 2 with 3 it is 3 |
| `UnionFind.FindRootCompressesExample` | src/union_find.rs:102-110 | after merging 0 with 1 and 1 with 2, item 0 points to 1, its root is 2, and compression links it to 2 |
| `UnionFind.MergeBelowRootExample` | src/union_find.rs:113-118 | merging 0 into the set {1, 2} links 0 to the root 2 |
| `UnionFind.MergeSmallerRootExample` | src/union_find.rs:121-132 | merging {0, 3} with {1, 2} links the root 2 below the root 3 and leaves 1 pointing to 2 |
| `UnionFind.IsInSameSetExample` | src/union_find.rs:135-142 | after merging 0 with 2 and 1 with 2, items 0, 1 and 2 share a set and 3 does not |
| `UnionFind.AsWrittenLeavesPathUncompressed` | src/union_find.rs:33-36 | on the chain 0 → 1 → 2 → 3 the loop as written leaves item 1 pointing to 2, where compression points it to 3 |

## Left out

- `src/main.rs`: the interactive loop that reads moves from standard input and prints the board. It
  is I/O only.
- JSON in `src/serialize.rs` (`save_to_json`, `load_from_json`, `save_to_string`, `load_from_str`, the
  serde derive of `StoredGame`). These are calls into serde; only the byte codec is modelled.
  `Serialization.LoadGame` does not consult the stored size and yields cells and player; the status
  of a loaded game is not modelled.
- `Serialization.CheckBoardShape`: `Board::from_cells` is not part of this model. Its two checks are
  modelled from the `InvalidBoard` variants of `src/errors.rs:28-32` and from the `Board::new` bounds,
  with the row count checked before the row lengths. Building the board from the checked cells by
  replaying the stones is not modelled; `Serialization.LoadGame` yields the cells instead.
- The error messages of `LoadError`, `InvalidMove` and `ParseCoordsError`, and the `Display`/`Error`
  impls of `src/errors.rs` and `src/board.rs:171-184`. They are message text only; the error enums
  are plain datatypes.
- The debug `println!` calls in `src/attacked_bridges.rs:30-31,39`. They have no effect on the result.
- Interior mutability: `std::cell::Cell` in the grid and the `&self` `set_parent` of the union-find
  trait. The parents are an ordinary mutable array with `modifies` clauses.
- Rust's `u8`/`u16` widths and their debug-mode overflow panics. Integers are unbounded; the bounds
  appear as preconditions (board size at most 19, `to_column_char` up to column 158, printing rows
  below 255).
- `Coordinates.ParseU8` accepts an optional '+' and then decimal digits with a value below 256; other
  details of `u8::from_str` are not modelled.
- `src/lib.rs`: module wiring only.
- The files come from several revisions. `game.rs` and `format.rs` use a newer `Board` than the
  `src/board.rs` shown. `game.rs` imports `crate::cells::Position` (line 2), which that revision
  does not have. `format.rs` calls `board.get_color` with a `crate::coords::Coords` and matches the
  `Color::Black` variants of `crate::color`, where that `src/board.rs` declares its own `Color` enum
  with the variants `BLACK` and `WHITE` and re-exports the `Coords` of `square_array` (lines 1-11). Both are modelled against `Boards.Board`: its `play`, `is_in_same_set` and `get_color`. `serialize.rs`
  is a revision of its own: it calls `Board::from_cells` and `Board::to_cells` (lines 34 and 43), which
  the `src/board.rs` shown does not have, and it spells the colours `Color::BLACK` and `Color::WHITE`
  where `src/color.rs` has the variants `Black` and `White`.
- The union-find trait of `src/board.rs`'s revision is not part of this model. `Boards.Board.FindRoot`
  follows `src/union_find.rs` with the path compression as intended (see Findings).
- `UnionFind.IsInSameSet`, `UnionFind.Merge`, `UnionFind.MergeResult`, `Boards.Board.LinkPathTo`,
  `Boards.Board.IsInSameSet` and `Boards.Board.Merge` are built on the corrected `find_root` of the
  Findings row, so the store they leave is the fully compressed one. The source's `is_in_same_set`
  and `merge` call the loop as written, which re-links only the start item. Their answers and the
  partition they leave are the same either way: `UnionFind.RelinkStartKeepsRoots` proves that the
  loop as written keeps every root too.
- `Boards.Board.Merge`: requires both positions to hold the same colour. `play` only merges such
  positions, and that keeps every set single-coloured.
- `Boards.Board.GetNeighbors` requires a size of at least 2, which `Board::new` enforces.
- `SquareArrays.SquareArray.constructor` takes the default item as a parameter, because Dafny has no
  `Default` trait.
- The connectivity meaning of a win is not modelled: that two edges are in one union-find set iff a
  chain of same-coloured stones joins them. Without it the winning sequences of the `src/game.rs`
  tests (lines 60-110) are not replayed. `Games.Game.Play` states the outcome in terms of the
  union-find sets.

## Findings

| source | as written | input that shows it | evidently intended | confidence | as-written member | corrected member |
|---|---|---|---|---|---|---|
| src/union_find.rs:33-36 | the compression loop sets the parent of `item` to `root` and then reads `item`'s parent again, which is now `root`, so it stops after one step: only the starting item is re-linked | links 0 → 1 → 2 → 3; after `find_root(0)` item 1 still points to 2 | every item on the path from the start to the root is linked to the root (the comment at src/union_find.rs:3-6 and the test name at line 102 speak of path compression) | not executed | `UnionFind.FindRootAsWritten`, `UnionFind.AsWrittenLeavesPathUncompressed` | `UnionFind.FindRoot`, `UnionFind.CompressKeepsRoots` |
