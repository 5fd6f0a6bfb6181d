/**
 * The neighbours of a cell (src/neighbors.rs): up to six slot indices in clockwise order
 * starting on the left. A neighbour beyond the border is the edge slot of that border,
 * except that the top-right and bottom-left neighbours are simply absent there.
 */
module Neighbors {
  import opened Coordinates
  import opened Edges
  import opened HexCells

  /** `get_neighbors`, computed on the flat index as the source does. */
  function GetNeighbors(size: nat, index: nat): (ns: seq<nat>)
    requires size >= 1
    ensures 4 <= |ns| <= 6
  {
    [LeftOf(size, index), TopLeftOf(size, index)] + TopRightOf(size, index)
    + [RightOf(size, index), BottomRightOf(size, index)] + BottomLeftOf(size, index)
  }

  function LeftOf(size: nat, index: nat): nat
    requires size >= 1
  {
    if index % size == 0 then IndexFromEdge(size, Left) else index - 1
  }

  function TopLeftOf(size: nat, index: nat): nat
    requires size >= 1
  {
    if index < size then IndexFromEdge(size, Top) else index - size
  }

  /** Absent in the top row and in the last column. */
  function TopRightOf(size: nat, index: nat): seq<nat>
    requires size >= 1
  {
    if index >= size && index % size < size - 1 then [index - size + 1] else []
  }

  function RightOf(size: nat, index: nat): nat
    requires size >= 1
  {
    if index % size == size - 1 then IndexFromEdge(size, Right) else index + 1
  }

  function BottomRightOf(size: nat, index: nat): nat
    requires size >= 1
  {
    if index >= size * (size - 1) then IndexFromEdge(size, Bottom) else index + size
  }

  /** Absent in the bottom row and in the first column. */
  function BottomLeftOf(size: nat, index: nat): seq<nat>
    requires size >= 1
  {
    if index < size * (size - 1) && index % size > 0 then [index + size - 1] else []
  }

  // ----- the geometry the index arithmetic stands for -----

  /**
   * Two cells touch on the hex grid: the row and the column each differ by at most one,
   * and not both in the same direction (that pair of cells is a bridge apart).
   */
  predicate Adjacent(a: Coords, b: Coords) {
    var dr := b.row as int - a.row as int;
    var dc := b.column as int - a.column as int;
    -1 <= dr <= 1 && -1 <= dc <= 1 && dr != dc
  }

  /** A cell lies on the border that belongs to an edge. */
  predicate Touches(size: nat, c: Coords, e: Edge) {
    match e
    case Left => c.column == 0
    case Top => c.row == 0
    case Right => c.column + 1 == size
    case Bottom => c.row + 1 == size
  }

  /** x is an on-board cell next to c, or an edge whose border c lies on. */
  predicate NextTo(size: nat, c: Coords, x: CoordsOrEdge) {
    match x
    case AtCoords(d) => IsOnBoardWithSize(d, size) && Adjacent(c, d)
    case AtEdge(e) => Touches(size, c, e)
  }

  /** The neighbours of c in the source's clockwise order, as cells and edges. */
  function NeighborSpec(size: nat, c: Coords): (xs: seq<CoordsOrEdge>)
    requires IsOnBoardWithSize(c, size)
    ensures forall k :: 0 <= k < |xs| ==> NextTo(size, c, xs[k])
  {
    [LeftSpec(c), TopLeftSpec(c)] + TopRightSpec(size, c)
    + [RightSpec(size, c), BottomRightSpec(size, c)] + BottomLeftSpec(size, c)
  }

  function LeftSpec(c: Coords): CoordsOrEdge {
    if c.column == 0 then AtEdge(Left) else AtCoords(Coords(c.row, c.column - 1))
  }

  function TopLeftSpec(c: Coords): CoordsOrEdge {
    if c.row == 0 then AtEdge(Top) else AtCoords(Coords(c.row - 1, c.column))
  }

  function TopRightSpec(size: nat, c: Coords): seq<CoordsOrEdge> {
    if c.row > 0 && c.column + 1 < size then [AtCoords(Coords(c.row - 1, c.column + 1))] else []
  }

  function RightSpec(size: nat, c: Coords): CoordsOrEdge {
    if c.column + 1 == size then AtEdge(Right) else AtCoords(Coords(c.row, c.column + 1))
  }

  function BottomRightSpec(size: nat, c: Coords): CoordsOrEdge {
    if c.row + 1 == size then AtEdge(Bottom) else AtCoords(Coords(c.row + 1, c.column))
  }

  function BottomLeftSpec(size: nat, c: Coords): seq<CoordsOrEdge> {
    if c.row + 1 < size && c.column > 0 then [AtCoords(Coords(c.row + 1, c.column - 1))] else []
  }

  /** The slot indices of a sequence of cells and edges, as the tests compare them. */
  function Indexes(size: nat, xs: seq<CoordsOrEdge>): (ids: seq<nat>)
    requires forall k :: 0 <= k < |xs| ==> xs[k].AtCoords? ==> IsOnBoardWithSize(xs[k].coords, size)
    ensures |ids| == |xs|
    ensures forall k :: 0 <= k < |xs| ==> ids[k] == IndexFromCoordsOrEdge(size, xs[k])
  {
    seq(|xs|, k requires 0 <= k < |xs| => IndexFromCoordsOrEdge(size, xs[k]))
  }

  /** Everything next to c occurs in the list, and everything in the list is next to c. */
  lemma {:induction false} NeighborSpecIsAdjacency(size: nat, c: Coords, x: CoordsOrEdge)
    requires IsOnBoardWithSize(c, size)
    ensures x in NeighborSpec(size, c) <==> NextTo(size, c, x)
  {
  }

  /** No cell or edge is listed twice. */
  lemma {:induction false} NeighborSpecDistinct(size: nat, c: Coords)
    requires IsOnBoardWithSize(c, size)
    ensures forall a, b :: 0 <= a < b < |NeighborSpec(size, c)| ==>
      NeighborSpec(size, c)[a] != NeighborSpec(size, c)[b]
  {
  }

  // ----- from index arithmetic to coordinates -----

  /** The index arithmetic of `get_neighbors` moves by one row or one column. */
  lemma {:induction false} IndexSteps(size: nat, r: nat, k: nat)
    requires r < size && k < size
    ensures (r * size + k) % size == k
    ensures r * size + k < size <==> r == 0
    ensures r * size + k >= size * (size - 1) <==> r + 1 == size
    ensures r > 0 ==> r * size + k - size == (r - 1) * size + k
    ensures r * size + k + size == (r + 1) * size + k
  {
    DivModOfIndex(size, r, k);
    if r > 0 {
      MulMonotone(1, r, size);
    }
    assert size * (size - 1) == (size - 1) * size;
    if r + 1 < size {
      MulMonotone(r + 1, size - 1, size);
      assert (r + 1) * size == r * size + size;
    } else {
      assert r * size == (size - 1) * size;
    }
    assert (r - 1) * size == r * size - size;
  }

  /** `get_neighbors` of a cell's index lists exactly the slots of `NeighborSpec`, in order. */
  lemma {:induction false} GetNeighborsMatchesSpec(size: nat, c: Coords)
    requires IsOnBoardWithSize(c, size)
    ensures GetNeighbors(size, IndexFromCoords(size, c)) == Indexes(size, NeighborSpec(size, c))
  {
    var i := IndexFromCoords(size, c);
    SideNeighborsMatch(size, c);
    TopNeighborsMatch(size, c);
    BottomNeighborsMatch(size, c);
    var l, tl, tr := LeftOf(size, i), TopLeftOf(size, i), TopRightOf(size, i);
    var r, br, bl := RightOf(size, i), BottomRightOf(size, i), BottomLeftOf(size, i);
    assert GetNeighbors(size, i) == [l, tl] + tr + [r, br] + bl;
  }

  lemma SideNeighborsMatch(size: nat, c: Coords)
    requires IsOnBoardWithSize(c, size)
    ensures LeftOf(size, IndexFromCoords(size, c)) == IndexFromCoordsOrEdge(size, LeftSpec(c))
    ensures RightOf(size, IndexFromCoords(size, c)) == IndexFromCoordsOrEdge(size, RightSpec(size, c))
  {
    IndexSteps(size, c.row, c.column);
  }

  lemma TopNeighborsMatch(size: nat, c: Coords)
    requires IsOnBoardWithSize(c, size)
    ensures TopLeftOf(size, IndexFromCoords(size, c)) == IndexFromCoordsOrEdge(size, TopLeftSpec(c))
    ensures TopRightOf(size, IndexFromCoords(size, c)) == Indexes(size, TopRightSpec(size, c))
  {
    IndexSteps(size, c.row, c.column);
  }

  lemma BottomNeighborsMatch(size: nat, c: Coords)
    requires IsOnBoardWithSize(c, size)
    ensures BottomRightOf(size, IndexFromCoords(size, c)) == IndexFromCoordsOrEdge(size, BottomRightSpec(size, c))
    ensures BottomLeftOf(size, IndexFromCoords(size, c)) == Indexes(size, BottomLeftSpec(size, c))
  {
    IndexSteps(size, c.row, c.column);
  }

  /**
   * The neighbours of a cell's index are exactly the slots of the cells next to it and of the
   * edges it lies on; each is listed once.
   */
  lemma {:induction false} GetNeighborsAreAdjacent(size: nat, c: Coords)
    requires IsOnBoardWithSize(c, size)
    ensures forall j :: j in GetNeighbors(size, IndexFromCoords(size, c)) ==>
      j < size * size + 4 && NextTo(size, c, DecodeIndex(size, j))
    ensures forall x :: NextTo(size, c, x) ==> IndexFromCoordsOrEdge(size, x) in GetNeighbors(size, IndexFromCoords(size, c))
    ensures forall a, b :: 0 <= a < b < |GetNeighbors(size, IndexFromCoords(size, c))| ==>
      GetNeighbors(size, IndexFromCoords(size, c))[a] != GetNeighbors(size, IndexFromCoords(size, c))[b]
  {
    var ns := GetNeighbors(size, IndexFromCoords(size, c));
    var xs := NeighborSpec(size, c);
    GetNeighborsMatchesSpec(size, c);
    forall j | j in ns
      ensures j < size * size + 4 && NextTo(size, c, DecodeIndex(size, j))
    {
      var k :| 0 <= k < |ns| && ns[k] == j;
      DecodeIndexInverse(size, xs[k]);
    }
    forall x | NextTo(size, c, x)
      ensures IndexFromCoordsOrEdge(size, x) in ns
    {
      NeighborSpecIsAdjacency(size, c, x);
      var k :| 0 <= k < |xs| && xs[k] == x;
      assert ns[k] == IndexFromCoordsOrEdge(size, x);
    }
    NeighborSpecDistinct(size, c);
    forall a, b | 0 <= a < b < |ns|
      ensures ns[a] != ns[b]
    {
      DecodeIndexInverse(size, xs[a]);
      DecodeIndexInverse(size, xs[b]);
    }
  }

  /** Adjacency of cells is symmetric, so neighbourhood between two cells is mutual. */
  lemma {:induction false} NeighborsSymmetric(size: nat, c: Coords, d: Coords)
    requires IsOnBoardWithSize(c, size) && IsOnBoardWithSize(d, size)
    ensures IndexFromCoords(size, d) in GetNeighbors(size, IndexFromCoords(size, c)) <==>
            IndexFromCoords(size, c) in GetNeighbors(size, IndexFromCoords(size, d))
  {
    GetNeighborsAreAdjacent(size, c);
    GetNeighborsAreAdjacent(size, d);
    DecodeIndexFromCoords(size, c);
    DecodeIndexFromCoords(size, d);
    assert NextTo(size, c, AtCoords(d)) <==> NextTo(size, d, AtCoords(c));
  }

  /**
   * A cell away from all borders has all six neighbours, the two acute corners have four,
   * and every other border cell, the obtuse corners included, has five.
   */
  lemma {:induction false} NeighborCounts(size: nat, c: Coords)
    requires IsOnBoardWithSize(c, size)
    ensures 0 < c.row && c.row + 1 < size && 0 < c.column && c.column + 1 < size ==>
      |GetNeighbors(size, IndexFromCoords(size, c))| == 6
    ensures c == Coords(0, 0) || c == Coords(size - 1, size - 1) ==>
      |GetNeighbors(size, IndexFromCoords(size, c))| == 4
    ensures (size >= 2 && c != Coords(0, 0) && c != Coords(size - 1, size - 1) &&
             (c.row == 0 || c.row + 1 == size || c.column == 0 || c.column + 1 == size)) ==>
      |GetNeighbors(size, IndexFromCoords(size, c))| == 5
  {
    GetNeighborsMatchesSpec(size, c);
  }

  /** The expectations of the source's neighbour tests on a 5×5 board. */
  lemma NeighborExamples()
    ensures NeighborSpec(5, Coords(0, 0)) ==
      [AtEdge(Left), AtEdge(Top), AtCoords(Coords(0, 1)), AtCoords(Coords(1, 0))]
    ensures NeighborSpec(5, Coords(0, 1)) ==
      [AtCoords(Coords(0, 0)), AtEdge(Top), AtCoords(Coords(0, 2)), AtCoords(Coords(1, 1)), AtCoords(Coords(1, 0))]
    ensures NeighborSpec(5, Coords(1, 0)) ==
      [AtEdge(Left), AtCoords(Coords(0, 0)), AtCoords(Coords(0, 1)), AtCoords(Coords(1, 1)), AtCoords(Coords(2, 0))]
    ensures NeighborSpec(5, Coords(0, 4)) ==
      [AtCoords(Coords(0, 3)), AtEdge(Top), AtEdge(Right), AtCoords(Coords(1, 4)), AtCoords(Coords(1, 3))]
    ensures NeighborSpec(5, Coords(4, 0)) ==
      [AtEdge(Left), AtCoords(Coords(3, 0)), AtCoords(Coords(3, 1)), AtCoords(Coords(4, 1)), AtEdge(Bottom)]
    ensures NeighborSpec(5, Coords(4, 4)) ==
      [AtCoords(Coords(4, 3)), AtCoords(Coords(3, 4)), AtEdge(Right), AtEdge(Bottom)]
    ensures NeighborSpec(5, Coords(2, 2)) ==
      [AtCoords(Coords(2, 1)), AtCoords(Coords(1, 2)), AtCoords(Coords(1, 3)),
       AtCoords(Coords(2, 3)), AtCoords(Coords(3, 2)), AtCoords(Coords(3, 1))]
    ensures GetNeighbors(5, 0) == [25, 26, 1, 5]
    ensures GetNeighbors(5, 24) == [23, 19, 27, 28]
    ensures GetNeighbors(5, 12) == [11, 7, 8, 13, 17, 16]
  {
  }
}
