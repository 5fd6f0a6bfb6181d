/**
 * The flat grid (src/hex_cells.rs): normal cells at row * size + column, followed by the
 * four virtual edge slots Left, Top, Right, Bottom; every slot stores an optional stone
 * colour and an optional union-find parent.
 */
module HexCells {
  import opened Wrappers
  import opened Colors
  import opened Coordinates
  import opened Edges

  /** The declared order of the edge slots after the normal cells. */
  const EDGES: seq<Edge> := [Left, Top, Right, Bottom]

  function IndexFromCoords(size: nat, c: Coords): (i: nat)
    requires IsOnBoardWithSize(c, size)
    ensures i < size * size
  {
    c.row * size + c.column
  }

  function IndexFromEdge(size: nat, e: Edge): (i: nat)
    ensures size * size <= i < size * size + 4
    ensures EDGES[i - size * size] == e
  {
    var start := size * size;
    match e
    case Left => start
    case Top => start + 1
    case Right => start + 2
    case Bottom => start + 3
  }

  function IndexFromCoordsOrEdge(size: nat, x: CoordsOrEdge): (i: nat)
    requires x.AtCoords? ==> IsOnBoardWithSize(x.coords, size)
    ensures i < size * size + 4
  {
    match x
    case AtCoords(c) => IndexFromCoords(size, c)
    case AtEdge(e) => IndexFromEdge(size, e)
  }

  /** Which cell or edge a slot index stands for. */
  function DecodeIndex(size: nat, i: nat): (x: CoordsOrEdge)
    requires i < size * size + 4
    ensures x.AtCoords? <==> i < size * size
    ensures x.AtCoords? ==> IsOnBoardWithSize(x.coords, size)
    ensures IndexFromCoordsOrEdge(size, x) == i
  {
    if i < size * size then
      DivModBounds(size, i);
      AtCoords(Coords(i / size, i % size))
    else
      AtEdge(EDGES[i - size * size])
  }

  /** `coords_from_index`, which panics on an edge slot. */
  function CoordsFromIndex(size: nat, i: nat): (c: Coords)
    requires i < size * size
    ensures IsOnBoardWithSize(c, size) && IndexFromCoords(size, c) == i
  {
    DecodeIndex(size, i).coords
  }

  lemma DivModBounds(size: nat, i: nat)
    requires i < size * size
    ensures size > 0 && i / size < size && i % size < size
    ensures (i / size) * size + i % size == i
  {
    if i / size >= size {
      MulMonotone(size, i / size, size);
    }
  }

  /** Dividing row * size + column by size gives back the row and the column. */
  lemma {:induction false} DivModOfIndex(size: nat, r: nat, k: nat)
    requires k < size
    ensures (r * size + k) / size == r && (r * size + k) % size == k
  {
    var i := r * size + k;
    var q, m := i / size, i % size;
    assert q * size + m == i;
    if q > r {
      MulMonotone(r + 1, q, size);
    } else if q < r {
      MulMonotone(q + 1, r, size);
    }
  }

  lemma {:induction false} DecodeIndexFromCoords(size: nat, c: Coords)
    requires IsOnBoardWithSize(c, size)
    ensures DecodeIndex(size, IndexFromCoords(size, c)) == AtCoords(c)
  {
    DivModOfIndex(size, c.row, c.column);
  }

  lemma DecodeIndexFromEdge(size: nat, e: Edge)
    ensures DecodeIndex(size, IndexFromEdge(size, e)) == AtEdge(e)
  {
  }

  /** Slot indices and cell-or-edge values are in one-to-one correspondence. */
  lemma {:induction false} DecodeIndexInverse(size: nat, x: CoordsOrEdge)
    requires x.AtCoords? ==> IsOnBoardWithSize(x.coords, size)
    ensures DecodeIndex(size, IndexFromCoordsOrEdge(size, x)) == x
  {
    match x
    case AtCoords(c) => DecodeIndexFromCoords(size, c);
    case AtEdge(e) => DecodeIndexFromEdge(size, e);
  }

  /** The four edge slots hold stones, as `set_edge_colors` leaves them. */
  ghost predicate EdgesColored(size: nat, colors: seq<Option<Color>>) {
    |colors| == size * size + 4 &&
    forall i :: size * size <= i < size * size + 4 ==> colors[i].Some?
  }

  class HexCells {
    const size: nat
    const colors: array<Option<Color>>
    const parents: array<Option<nat>>

    ghost predicate Valid() {
      colors.Length == size * size + 4 && parents.Length == size * size + 4
    }

    /** `HexCells::new`: size * size + 4 empty slots without parents. */
    constructor (size: nat)
      ensures Valid() && this.size == size
      ensures fresh(colors) && fresh(parents)
      ensures forall i :: 0 <= i < colors.Length ==> colors[i] == None
      ensures forall i :: 0 <= i < parents.Length ==> parents[i] == None
    {
      this.size := size;
      colors := new Option<Color>[size * size + 4](_ => None);
      parents := new Option<nat>[size * size + 4](_ => None);
    }

    function GetColorAtIndex(index: nat): Option<Color>
      reads colors
      requires index < colors.Length
    {
      colors[index]
    }

    /** `get_color_at_coords`: the colour of the cell's slot in row-major order. */
    function GetColorAtCoords(c: Coords): (r: Option<Color>)
      reads colors
      requires Valid() && IsOnBoardWithSize(c, size)
      ensures r == colors[c.row * size + c.column]
    {
      GetColorAtIndex(IndexFromCoords(size, c))
    }

    method SetColorAtIndex(index: nat, color: Color)
      requires index < colors.Length
      modifies colors
      ensures colors[..] == old(colors[..])[index := Some(color)]
      ensures parents[..] == old(parents[..])
    {
      colors[index] := Some(color);
    }

    method SetColorAtCoords(c: Coords, color: Color)
      requires Valid() && IsOnBoardWithSize(c, size)
      modifies colors
      ensures colors[..] == old(colors[..])[IndexFromCoords(size, c) := Some(color)]
      ensures parents[..] == old(parents[..])
    {
      SetColorAtIndex(IndexFromCoords(size, c), color);
    }

    function GetParentAtIndex(index: nat): Option<nat>
      reads parents
      requires index < parents.Length
    {
      parents[index]
    }

    method SetParentAtIndex(index: nat, parent: nat)
      requires index < parents.Length
      modifies parents
      ensures parents[..] == old(parents[..])[index := Some(parent)]
      ensures colors[..] == old(colors[..])
    {
      parents[index] := Some(parent);
    }
  }

  /** The unit tests of src/hex_cells.rs on a 3 x 3 grid. */
  lemma IndexExamples()
    ensures IndexFromCoords(3, Coords(1, 2)) == 5
    ensures IndexFromEdge(3, EDGES[0]) == 9 && IndexFromEdge(3, EDGES[1]) == 10
    ensures IndexFromEdge(3, EDGES[2]) == 11 && IndexFromEdge(3, EDGES[3]) == 12
    ensures DecodeIndex(3, 0) == AtCoords(Coords(0, 0))
    ensures DecodeIndex(3, 9) == AtEdge(EDGES[0]) && DecodeIndex(3, 12) == AtEdge(EDGES[3])
  {
  }

  /** The setter tests of src/hex_cells.rs: what is written at slot 5 of a 3 x 3 grid is read back. */
  method SetColorExample() returns (atIndex: Option<Color>, atCoords: Option<Color>, parent: Option<nat>)
    ensures atIndex == Some(Black) && atCoords == Some(Black) && parent == Some(127)
  {
    var cells := new HexCells(3);
    cells.SetColorAtIndex(5, Black);
    atIndex := cells.GetColorAtIndex(5);
    atCoords := cells.GetColorAtCoords(Coords(1, 2));
    cells.SetParentAtIndex(5, 127);
    parent := cells.GetParentAtIndex(5);
  }
}
