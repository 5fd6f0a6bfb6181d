/**
 * The older flat grid (src/cells.rs): one vector of cells, each an optional colour and an
 * optional parent index, laid out as the normal cells by row * size + column followed by
 * the left, top, right and bottom slots. It is the same layout `HexCells` uses.
 */
module Cells {
  import opened Wrappers
  import opened Colors
  import opened Coordinates
  import Edges
  import HexCells

  datatype Cell = Cell(color: Option<Color>, parent: Option<nat>)

  /** `Cell::default()`: no stone and no parent. */
  const DefaultCell := Cell(None, None)

  /** `Cell::with_color`: a fresh stone that is still its own root. */
  function WithColor(color: Color): (cell: Cell)
    ensures cell.color == Some(color) && cell.parent.None?
  {
    Cell(Some(color), None)
  }

  class Cells {
    const size: nat
    const vector: array<Cell>

    ghost predicate Valid() {
      vector.Length == size * size + 4
    }

    /** `Cells::new`: size * size + 4 default cells. */
    constructor (size: nat)
      ensures Valid() && this.size == size && fresh(vector)
      ensures forall i :: 0 <= i < vector.Length ==> vector[i] == DefaultCell
    {
      this.size := size;
      vector := new Cell[size * size + 4](_ => DefaultCell);
    }

    /** The slot of an on-board cell; decoding it gives the coordinates back. */
    function IndexFromCoords(c: Coords): (i: nat)
      requires IsOnBoardWithSize(c, size)
      ensures i < size * size
      ensures HexCells.DecodeIndex(size, i) == Edges.AtCoords(c)
    {
      HexCells.DecodeIndexFromCoords(size, c);
      HexCells.IndexFromCoords(size, c)
    }

    /** The four edge slots; each decodes to its edge. */
    function Left(): (i: nat)
      ensures i < size * size + 4 && HexCells.DecodeIndex(size, i) == Edges.AtEdge(Edges.Left)
    {
      HexCells.DecodeIndexFromEdge(size, Edges.Left);
      size * size
    }

    function Top(): (i: nat)
      ensures i < size * size + 4 && HexCells.DecodeIndex(size, i) == Edges.AtEdge(Edges.Top)
    {
      HexCells.DecodeIndexFromEdge(size, Edges.Top);
      Left() + 1
    }

    function Right(): (i: nat)
      ensures i < size * size + 4 && HexCells.DecodeIndex(size, i) == Edges.AtEdge(Edges.Right)
    {
      HexCells.DecodeIndexFromEdge(size, Edges.Right);
      Left() + 2
    }

    function Bottom(): (i: nat)
      ensures i < size * size + 4 && HexCells.DecodeIndex(size, i) == Edges.AtEdge(Edges.Bottom)
    {
      HexCells.DecodeIndexFromEdge(size, Edges.Bottom);
      Left() + 3
    }

    function AtIndex(index: nat): Cell
      reads vector
      requires index < vector.Length
    {
      vector[index]
    }

    /** `at_coord`: the cell stored at the row-major index of the coordinates. */
    function AtCoord(c: Coords): (cell: Cell)
      reads vector
      requires Valid() && IsOnBoardWithSize(c, size)
      ensures cell == vector[c.row * size + c.column]
    {
      AtIndex(IndexFromCoords(c))
    }

    method SetIndex(index: nat, cell: Cell)
      requires index < vector.Length
      modifies vector
      ensures vector[..] == old(vector[..])[index := cell]
    {
      vector[index] := cell;
    }
  }

  /** The unit tests of src/cells.rs on a 3 x 3 grid; a new grid is default at every cell. */
  method CellsExample(c: Coords) returns (initial: Cell, index: nat, atIndex: Cell, atCoord: Cell)
    requires IsOnBoardWithSize(c, 3)
    ensures initial == DefaultCell && index == 5
    ensures atIndex == Cell(Some(Black), None) && atCoord == Cell(Some(Black), None)
  {
    var cells := new Cells(3);
    initial := cells.AtCoord(c);
    index := cells.IndexFromCoords(Coords(1, 2));
    var cell := Cell(Some(Black), None);
    cells.SetIndex(5, cell);
    atIndex := cells.AtIndex(5);
    atCoord := cells.AtCoord(Coords(1, 2));
  }
}
