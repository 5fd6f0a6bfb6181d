/**
 * The board of src/board.rs, an older revision than the grid and union-find files: a square
 * array of cells, each with an optional stone and an optional parent position, plus the
 * parents of the TOP and LEFT edges. The positions compare in declared order (cells, then
 * TOP < LEFT < BOTTOM < RIGHT) and the union-find always makes the larger root the parent,
 * so BOTTOM and RIGHT stay roots and store no parent. A cell whose parent is itself, or
 * has none, is a root.
 *
 * The abstract state is the union-find store of module UnionFind, indexed by `Rank`
 * (cells by index, then the four edges), together with the stone colour of every rank.
 */
module Boards {
  import opened Wrappers
  import opened Colors
  import opened Coordinates
  import opened UnionFind
  import opened SquareArrays
  import Edges
  import HexCells
  import Neighbors

  /** A cell index or one of the four edges. */
  datatype Position = Index(index: nat) | Top | Left | Bottom | Right

  datatype Cell = Cell(color: Option<Color>, parent: Option<Position>)

  /** `Cell::default()`: no stone and no parent. */
  const DefaultCell := Cell(None, None)

  datatype InvalidMove = OutOfBounds(coords: Coords) | CellOccupied(coords: Coords)

  /** The derived `Ord` of `Position`: cells by index, then TOP < LEFT < BOTTOM < RIGHT. */
  predicate Less(p: Position, q: Position) {
    match p
    case Index(i) => !q.Index? || i < q.index
    case Top => q.Left? || q.Bottom? || q.Right?
    case Left => q.Bottom? || q.Right?
    case Bottom => q.Right?
    case Right => false
  }

  /** Positions as union-find items: cell i is i, the edges follow the last cell. */
  function Rank(size: nat, p: Position): (r: nat)
    ensures ValidPosition(size, p) ==> r < size * size + 4
  {
    match p
    case Index(i) => i
    case Top => size * size
    case Left => size * size + 1
    case Bottom => size * size + 2
    case Right => size * size + 3
  }

  predicate ValidPosition(size: nat, p: Position) {
    p.Index? ==> p.index < size * size
  }

  /** On the positions of a board, ranks are distinct and ordered as the positions are. */
  lemma RankOrder(size: nat, p: Position, q: Position)
    requires ValidPosition(size, p) && ValidPosition(size, q)
    ensures Less(p, q) <==> Rank(size, p) < Rank(size, q)
    ensures p == q <==> Rank(size, p) == Rank(size, q)
  {
  }

  /** `get_color_of_position` for the edges: TOP and BOTTOM are Black, LEFT and RIGHT White. */
  function EdgeColor(p: Position): (color: Color)
    requires !p.Index?
    ensures color == Black <==> p == Top || p == Bottom
  {
    match p
    case Top | Bottom => Black
    case Left | Right => White
  }

  // ----- the abstract view -----

  /** The union-find link of `item` when its stored parent is `parent`; a self-link is a root. */
  ghost function LinkOf(size: nat, item: Position, parent: Position): Option<nat> {
    if parent == item then None else Some(Rank(size, parent))
  }

  ghost function CellLink(size: nat, i: nat, cell: Cell): Option<nat> {
    match cell.parent
    case None => None
    case Some(q) => LinkOf(size, Index(i), q)
  }

  /** The union-find store a board stands for; BOTTOM and RIGHT are roots by construction. */
  ghost function LinksOf(size: nat, cells: seq<Cell>, top: Position, left: Position): (p: seq<Option<nat>>)
    ensures |p| == |cells| + 4
  {
    seq(|cells|, i requires 0 <= i < |cells| => CellLink(size, i, cells[i]))
    + [LinkOf(size, Top, top), LinkOf(size, Left, left), None, None]
  }

  /** The colour every rank reads as. */
  ghost function ColorsOf(cells: seq<Cell>): (cs: seq<Option<Color>>)
    ensures |cs| == |cells| + 4
  {
    seq(|cells|, i requires 0 <= i < |cells| => cells[i].color)
    + [Some(EdgeColor(Top)), Some(EdgeColor(Left)), Some(EdgeColor(Bottom)), Some(EdgeColor(Right))]
  }

  /**
   * BOTTOM and RIGHT have different colours, so of two roots of one colour, the one linked
   * below the other is never BOTTOM or RIGHT.
   */
  lemma EdgeRootsStay(size: nat, root1: Position, root2: Position, colors: seq<Option<Color>>)
    requires ValidPosition(size, root1) && ValidPosition(size, root2)
    requires exists cells: seq<Cell> :: |cells| == size * size && colors == ColorsOf(cells)
    requires colors[Rank(size, root1)] == colors[Rank(size, root2)]
    ensures Less(root2, root1) ==> root2 != Bottom && root2 != Right
    ensures Less(root1, root2) ==> root1 != Bottom && root1 != Right
  {
    var cells: seq<Cell> :| |cells| == size * size && colors == ColorsOf(cells);
    assert colors[size * size + 2] == Some(Black) && colors[size * size + 3] == Some(White);
  }

  ghost predicate ParentsValid(size: nat, cells: seq<Cell>, top: Position, left: Position) {
    ValidPosition(size, top) && ValidPosition(size, left) &&
    forall i :: 0 <= i < |cells| && cells[i].parent.Some? ==> ValidPosition(size, cells[i].parent.value)
  }

  lemma LinksOfUpdate(size: nat, cells: seq<Cell>, top: Position, left: Position, i: nat, cell: Cell)
    requires i < |cells|
    ensures LinksOf(size, cells[i := cell], top, left) == LinksOf(size, cells, top, left)[i := CellLink(size, i, cell)]
    ensures ColorsOf(cells[i := cell]) == ColorsOf(cells)[i := cell.color]
  {
    assert LinksOf(size, cells[i := cell], top, left) == LinksOf(size, cells, top, left)[i := CellLink(size, i, cell)];
  }

  // ----- neighbours -----

  /** The position of a cell or an edge. */
  function PositionOf(size: nat, x: Edges.CoordsOrEdge): (p: Position)
    requires x.AtCoords? ==> IsOnBoardWithSize(x.coords, size)
    ensures ValidPosition(size, p)
    ensures Rank(size, p) < size * size ==> x.AtCoords?
  {
    match x
    case AtCoords(d) => Index(HexCells.IndexFromCoords(size, d))
    case AtEdge(e) =>
      match e
      case Left => Left
      case Top => Top
      case Right => Right
      case Bottom => Bottom
  }

  /** The hex-grid neighbours of c as board positions, in the clockwise order of module Neighbors. */
  function NeighborPositions(size: nat, c: Coords): (ps: seq<Position>)
    requires IsOnBoardWithSize(c, size)
    ensures forall k :: 0 <= k < |ps| ==> ValidPosition(size, ps[k])
  {
    var xs := Neighbors.NeighborSpec(size, c);
    seq(|xs|, k requires 0 <= k < |xs| => PositionOf(size, xs[k]))
  }

  /** A position is listed exactly when it is a cell next to c or an edge c lies on. */
  lemma {:induction false} NeighborPositionsMeaning(size: nat, c: Coords, x: Edges.CoordsOrEdge)
    requires IsOnBoardWithSize(c, size) && (x.AtCoords? ==> IsOnBoardWithSize(x.coords, size))
    ensures PositionOf(size, x) in NeighborPositions(size, c) <==> Neighbors.NextTo(size, c, x)
  {
    var xs := Neighbors.NeighborSpec(size, c);
    var ps := NeighborPositions(size, c);
    Neighbors.NeighborSpecIsAdjacency(size, c, x);
    if PositionOf(size, x) in ps {
      var k :| 0 <= k < |ps| && ps[k] == PositionOf(size, x);
      PositionOfInjective(size, xs[k], x);
    }
    if x in xs {
      var k :| 0 <= k < |xs| && xs[k] == x;
      assert ps[k] == PositionOf(size, x);
    }
  }

  lemma PositionOfInjective(size: nat, x: Edges.CoordsOrEdge, y: Edges.CoordsOrEdge)
    requires x.AtCoords? ==> IsOnBoardWithSize(x.coords, size)
    requires y.AtCoords? ==> IsOnBoardWithSize(y.coords, size)
    requires PositionOf(size, x) == PositionOf(size, y)
    ensures x == y
  {
    if x.AtCoords? && y.AtCoords? {
      HexCells.DecodeIndexFromCoords(size, x.coords);
      HexCells.DecodeIndexFromCoords(size, y.coords);
    }
  }

  ghost function Positions(size: nat, xs: seq<Edges.CoordsOrEdge>): (ps: seq<Position>)
    requires forall k :: 0 <= k < |xs| ==> xs[k].AtCoords? ==> IsOnBoardWithSize(xs[k].coords, size)
    ensures |ps| == |xs|
  {
    seq(|xs|, k requires 0 <= k < |xs| => PositionOf(size, xs[k]))
  }

  lemma PositionsOfNeighbors(size: nat, c: Coords)
    requires IsOnBoardWithSize(c, size)
    ensures NeighborPositions(size, c) ==
      [PositionOf(size, Neighbors.LeftSpec(c)), PositionOf(size, Neighbors.TopLeftSpec(c))]
      + Positions(size, Neighbors.TopRightSpec(size, c))
      + [PositionOf(size, Neighbors.RightSpec(size, c)), PositionOf(size, Neighbors.BottomRightSpec(size, c))]
      + Positions(size, Neighbors.BottomLeftSpec(size, c))
  {
  }

  /** The board's own index arithmetic for each direction of `get_neighbors`. */
  function LeftNeighbor(size: nat, index: nat): Position
    requires size > 0
  {
    if index % size == 0 then Left else Index(index - 1)
  }

  function RightNeighbor(size: nat, index: nat): Position
    requires size > 0
  {
    if index % size == size - 1 then Right else Index(index + 1)
  }

  function TopNeighbors(size: nat, index: nat): seq<Position>
    requires size > 0
  {
    if index < size then [Top]
    else [Index(index - size)] + if index % size < size - 1 then [Index(index - size + 1)] else []
  }

  function BottomNeighbors(size: nat, index: nat): seq<Position>
    requires size > 0
  {
    if index >= size * (size - 1) then [Bottom]
    else [Index(index + size)] + if index % size > 0 then [Index(index + size - 1)] else []
  }

  /** The steps right and down from a cell stay on the board unless they cross an edge. */
  lemma NeighborIndexBounds(size: nat, index: nat)
    requires 0 < size && index < size * size
    ensures index % size != size - 1 ==> index + 1 < size * size
    ensures index < size * (size - 1) ==> index + size < size * size
  {
    var q, m := index / size, index % size;
    assert index == q * size + m;
    if q >= size {
      MulMonotone(size, q, size);
    }
    MulMonotone(q + 1, size, size);
    assert (q + 1) * size == q * size + size;
    assert size * (size - 1) == size * size - size;
  }

  lemma BoardSideNeighbors(size: nat, c: Coords)
    requires IsOnBoardWithSize(c, size)
    ensures LeftNeighbor(size, HexCells.IndexFromCoords(size, c)) == PositionOf(size, Neighbors.LeftSpec(c))
    ensures RightNeighbor(size, HexCells.IndexFromCoords(size, c)) == PositionOf(size, Neighbors.RightSpec(size, c))
  {
    Neighbors.IndexSteps(size, c.row, c.column);
  }

  lemma BoardTopNeighbors(size: nat, c: Coords)
    requires IsOnBoardWithSize(c, size)
    ensures TopNeighbors(size, HexCells.IndexFromCoords(size, c)) ==
      [PositionOf(size, Neighbors.TopLeftSpec(c))] + Positions(size, Neighbors.TopRightSpec(size, c))
  {
    Neighbors.IndexSteps(size, c.row, c.column);
  }

  lemma BoardBottomNeighbors(size: nat, c: Coords)
    requires IsOnBoardWithSize(c, size)
    ensures BottomNeighbors(size, HexCells.IndexFromCoords(size, c)) ==
      [PositionOf(size, Neighbors.BottomRightSpec(size, c))] + Positions(size, Neighbors.BottomLeftSpec(size, c))
  {
    Neighbors.IndexSteps(size, c.row, c.column);
  }

  lemma Reordered<T>(a: seq<T>, b: seq<T>, c: seq<T>, d: seq<T>, e: seq<T>, f: seq<T>, x: seq<T>, y: seq<T>)
    requires x == a + b + (c + d) + (e + f) && y == a + c + d + b + e + f
    ensures multiset(x) == multiset(y)
  {
  }

  // ----- the partition after a move -----

  /** x and y were in one set before, or both are in sets whose roots are in g. */
  ghost predicate GroupSame(p: seq<Option<nat>>, g: set<nat>, x: nat, y: nat)
    requires Ordered(p) && x < |p| && y < |p|
  {
    SameSet(p, x, y) || (Root(p, x) in g && Root(p, y) in g)
  }

  /** The roots of the sets of those positions in ns whose colour is `color`. */
  ghost function RootsOfColor(p: seq<Option<nat>>, labels: seq<Option<Color>>, size: nat, ns: seq<Position>, color: Color): set<nat>
    requires Ordered(p) && |p| == size * size + 4 && |labels| == |p|
    requires forall k :: 0 <= k < |ns| ==> ValidPosition(size, ns[k])
  {
    set k | 0 <= k < |ns| && labels[Rank(size, ns[k])] == Some(color) :: Root(p, Rank(size, ns[k]))
  }

  /** The sets a new stone of `color` at c joins: its own and those of its same-coloured neighbours. */
  ghost function JoinedRoots(p: seq<Option<nat>>, labels: seq<Option<Color>>, size: nat, c: Coords, color: Color): set<nat>
    requires Ordered(p) && |p| == size * size + 4 && |labels| == |p| && IsOnBoardWithSize(c, size)
  {
    {HexCells.IndexFromCoords(size, c)} + RootsOfColor(p, labels, size, NeighborPositions(size, c), color)
  }

  /** q partitions the items as p0 does, with the sets whose roots are in g joined. */
  ghost predicate Joined(q: seq<Option<nat>>, p0: seq<Option<nat>>, g: set<nat>)
    requires Ordered(q) && Ordered(p0) && |q| == |p0|
  {
    forall x, y :: 0 <= x < |p0| && 0 <= y < |p0| ==> (SameSet(q, x, y) <==> GroupSame(p0, g, x, y))
  }

  /** A store that keeps every root of q joins the same sets as q. */
  lemma JoinedKeptByRoots(q: seq<Option<nat>>, q2: seq<Option<nat>>, p0: seq<Option<nat>>, g: set<nat>)
    requires Ordered(q) && Ordered(q2) && Ordered(p0) && |q| == |p0| && |q2| == |p0|
    requires Joined(q, p0, g)
    requires forall y :: 0 <= y < |q| ==> Root(q2, y) == Root(q, y)
    ensures Joined(q2, p0, g)
  {
  }

  /** Merging the set of the new stone a with the set of b adds b's root to the joined roots. */
  lemma {:induction false} JoinStep(p0: seq<Option<nat>>, q: seq<Option<nat>>, q2: seq<Option<nat>>, a: nat, b: nat, g: set<nat>)
    requires Ordered(p0) && Ordered(q) && Ordered(q2) && |q| == |p0| && |q2| == |p0| && a < |p0| && b < |p0|
    requires p0[a].None? && a in g
    requires Joined(q, p0, g) && IsMerge(q2, q, a, b)
    ensures Joined(q2, p0, g + {Root(p0, b)})
  {
    assert Root(p0, a) == a;
    forall x, y | 0 <= x < |p0| && 0 <= y < |p0|
      ensures SameSet(q2, x, y) <==> GroupSame(p0, g + {Root(p0, b)}, x, y)
    {
      assert SameSet(q2, x, y) <==> MergedSame(q, a, b, x, y);
      assert SameSet(q, x, a) <==> GroupSame(p0, g, x, a);
      assert SameSet(q, y, a) <==> GroupSame(p0, g, y, a);
      assert SameSet(q, x, b) <==> GroupSame(p0, g, x, b);
      assert SameSet(q, y, b) <==> GroupSame(p0, g, y, b);
      assert SameSet(q, x, y) <==> GroupSame(p0, g, x, y);
    }
  }

  /** Taking one more position into account adds its root when it has the colour. */
  lemma RootsOfColorStep(p: seq<Option<nat>>, labels: seq<Option<Color>>, size: nat, ns: seq<Position>, k: nat, color: Color)
    requires Ordered(p) && |p| == size * size + 4 && |labels| == |p| && k < |ns|
    requires forall i :: 0 <= i < |ns| ==> ValidPosition(size, ns[i])
    ensures RootsOfColor(p, labels, size, ns[..k + 1], color) ==
      RootsOfColor(p, labels, size, ns[..k], color) +
      (if labels[Rank(size, ns[k])] == Some(color) then {Root(p, Rank(size, ns[k]))} else {})
  {
    var a, b := ns[..k], ns[..k + 1];
    assert forall i :: 0 <= i < k ==> b[i] == a[i];
    assert b[k] == ns[k];
  }

  /**
   * The set of roots joined after the first k neighbours ns[..k] were looked at, one
   * neighbour at a time as `play` does.
   */
  ghost function JoinedPrefix(p: seq<Option<nat>>, labels: seq<Option<Color>>, size: nat, index: nat, ns: seq<Position>, k: nat, color: Color): set<nat>
    requires Ordered(p) && |p| == size * size + 4 && |labels| == |p| && k <= |ns|
    requires forall i :: 0 <= i < |ns| ==> ValidPosition(size, ns[i])
    decreases k
  {
    if k == 0 then {index}
    else
      JoinedPrefix(p, labels, size, index, ns, k - 1, color) +
      (if labels[Rank(size, ns[k - 1])] == Some(color) then {Root(p, Rank(size, ns[k - 1]))} else {})
  }

  /** Looking at the neighbours one by one collects the stone and the roots of its own colour. */
  lemma {:induction false} JoinedPrefixRoots(p: seq<Option<nat>>, labels: seq<Option<Color>>, size: nat, index: nat, ns: seq<Position>, k: nat, color: Color)
    requires Ordered(p) && |p| == size * size + 4 && |labels| == |p| && k <= |ns|
    requires forall i :: 0 <= i < |ns| ==> ValidPosition(size, ns[i])
    ensures JoinedPrefix(p, labels, size, index, ns, k, color) == {index} + RootsOfColor(p, labels, size, ns[..k], color)
  {
    if k == 0 {
      assert ns[..0] == [];
    } else {
      JoinedPrefixRoots(p, labels, size, index, ns, k - 1, color);
      RootsOfColorStep(p, labels, size, ns, k - 1, color);
    }
  }

  /** Only the positions listed matter, not their order or multiplicity. */
  lemma RootsOfColorSameElements(p: seq<Option<nat>>, labels: seq<Option<Color>>, size: nat, ns: seq<Position>, ms: seq<Position>, color: Color)
    requires Ordered(p) && |p| == size * size + 4 && |labels| == |p|
    requires forall i :: 0 <= i < |ns| ==> ValidPosition(size, ns[i])
    requires forall i :: 0 <= i < |ms| ==> ValidPosition(size, ms[i])
    requires multiset(ns) == multiset(ms)
    ensures RootsOfColor(p, labels, size, ns, color) == RootsOfColor(p, labels, size, ms, color)
  {
    forall r | r in RootsOfColor(p, labels, size, ns, color)
      ensures r in RootsOfColor(p, labels, size, ms, color)
    {
      var k :| 0 <= k < |ns| && labels[Rank(size, ns[k])] == Some(color) && r == Root(p, Rank(size, ns[k]));
      assert ns[k] in multiset(ms);
      var j :| 0 <= j < |ms| && ms[j] == ns[k];
    }
    forall r | r in RootsOfColor(p, labels, size, ms, color)
      ensures r in RootsOfColor(p, labels, size, ns, color)
    {
      var k :| 0 <= k < |ms| && labels[Rank(size, ms[k])] == Some(color) && r == Root(p, Rank(size, ms[k]));
      assert ms[k] in multiset(ns);
      var j :| 0 <= j < |ns| && ns[j] == ms[k];
    }
  }

  /**
   * Placing a stone on an empty cell, with the cell as its own parent, leaves the links as
   * they were; the empty cell was a root that nothing linked to, so the links still join
   * only stones of one colour.
   */
  lemma PlaceStone(size: nat, cells: seq<Cell>, top: Position, left: Position, index: nat, color: Color)
    requires index < |cells| == size * size && ParentsValid(size, cells, top, left)
    requires Ordered(LinksOf(size, cells, top, left)) && Respects(LinksOf(size, cells, top, left), ColorsOf(cells))
    requires cells[index].color.None?
    ensures var placed := cells[index := Cell(Some(color), Some(Index(index)))];
      ParentsValid(size, placed, top, left) &&
      LinksOf(size, placed, top, left) == LinksOf(size, cells, top, left) &&
      ColorsOf(placed) == ColorsOf(cells)[index := Some(color)] &&
      LinksOf(size, cells, top, left)[index].None? &&
      Respects(LinksOf(size, cells, top, left), ColorsOf(placed))
  {
    var p := LinksOf(size, cells, top, left);
    LinksOfUpdate(size, cells, top, left, index, Cell(Some(color), Some(Index(index))));
    assert ColorsOf(cells)[index] == cells[index].color;
  }

  /** The new stone ends up in one set with every neighbour of its colour. */
  lemma JoinedWithNeighbors(p: seq<Option<nat>>, labels: seq<Option<Color>>, size: nat, c: Coords, color: Color, n: Position)
    requires Ordered(p) && |p| == size * size + 4 && |labels| == |p| && IsOnBoardWithSize(c, size)
    requires p[HexCells.IndexFromCoords(size, c)].None?
    requires n in NeighborPositions(size, c) && labels[Rank(size, n)] == Some(color)
    ensures Rank(size, n) < |p|
    ensures GroupSame(p, JoinedRoots(p, labels, size, c, color), HexCells.IndexFromCoords(size, c), Rank(size, n))
  {
    var ns := NeighborPositions(size, c);
    var k :| 0 <= k < |ns| && ns[k] == n;
    RankOrder(size, n, n);
    assert Root(p, Rank(size, n)) in RootsOfColor(p, labels, size, ns, color);
  }

  /**
   * Stones of another colour are in none of the joined sets, so among them the partition
   * stays as it was.
   */
  lemma {:induction false} OtherColorsKeepSets(p: seq<Option<nat>>, labels: seq<Option<Color>>, size: nat, c: Coords, color: Color, x: nat, y: nat)
    requires Ordered(p) && |p| == size * size + 4 && Respects(p, labels) && IsOnBoardWithSize(c, size)
    requires labels[HexCells.IndexFromCoords(size, c)] == Some(color)
    requires x < |p| && y < |p| && labels[x] != Some(color)
    ensures GroupSame(p, JoinedRoots(p, labels, size, c, color), x, y) <==> SameSet(p, x, y)
  {
    var i := HexCells.IndexFromCoords(size, c);
    RootLabel(p, labels, x);
    if Root(p, x) in JoinedRoots(p, labels, size, c, color) && Root(p, x) != i {
      var ns := NeighborPositions(size, c);
      var k :| 0 <= k < |ns| && labels[Rank(size, ns[k])] == Some(color) && Root(p, Rank(size, ns[k])) == Root(p, x);
      RankOrder(size, ns[k], ns[k]);
      RootLabel(p, labels, Rank(size, ns[k]));
    }
  }

  /**
   * After a move of `color`, two items of which the first is not of that colour are in one
   * set exactly when they were before: the move cannot connect the other player's edges.
   */
  lemma OtherColorsStayApart(p0: seq<Option<nat>>, q: seq<Option<nat>>, labels: seq<Option<Color>>, size: nat, c: Coords, color: Color, x: nat, y: nat)
    requires Ordered(p0) && Ordered(q) && |p0| == size * size + 4 && |q| == |p0|
    requires Respects(p0, labels) && IsOnBoardWithSize(c, size)
    requires labels[HexCells.IndexFromCoords(size, c)] == Some(color)
    requires Joined(q, p0, JoinedRoots(p0, labels, size, c, color))
    requires x < |p0| && y < |p0| && labels[x] != Some(color)
    ensures SameSet(q, x, y) <==> SameSet(p0, x, y)
  {
    OtherColorsKeepSets(p0, labels, size, c, color, x, y);
  }

  /**
   * `get_neighbors` lists the same positions as the hex-grid neighbours of the cell, in the
   * board's own order (left, right, top side, bottom side).
   */
  lemma GetNeighborsMatch(board: Board, index: nat)
    requires 2 <= board.Size() && index < board.Size() * board.Size()
    ensures multiset(board.GetNeighbors(index)) ==
      multiset(NeighborPositions(board.Size(), HexCells.CoordsFromIndex(board.Size(), index)))
  {
    var size := board.Size();
    var c := HexCells.CoordsFromIndex(size, index);
    var l, r := [PositionOf(size, Neighbors.LeftSpec(c))], [PositionOf(size, Neighbors.RightSpec(size, c))];
    var tl, tr := [PositionOf(size, Neighbors.TopLeftSpec(c))], Positions(size, Neighbors.TopRightSpec(size, c));
    var br, bl := [PositionOf(size, Neighbors.BottomRightSpec(size, c))], Positions(size, Neighbors.BottomLeftSpec(size, c));
    BoardSideNeighbors(size, c);
    BoardTopNeighbors(size, c);
    BoardBottomNeighbors(size, c);
    assert NeighborPositions(size, c) == l + tl + tr + r + br + bl by {
      PositionsOfNeighbors(size, c);
    }
    Reordered(l, r, tl, tr, br, bl, board.GetNeighbors(index), NeighborPositions(size, c));
  }

  class Board {
    const cells: SquareArray<Cell>
    var topParent: Position
    var leftParent: Position
    /** The union-find store the board stands for, indexed by `Rank`. */
    ghost var links: seq<Option<nat>>
    /** The colour every rank reads as. */
    ghost var colors: seq<Option<Color>>

    function Size(): nat {
      cells.size
    }

    /**
     * The grid is square, every stored parent is a position of this board, and the stored
     * fields stand for `links` and `colors`.
     */
    ghost predicate Abstracts()
      reads this, cells.items
    {
      cells.Valid() && ParentsValid(cells.size, cells.items[..], topParent, leftParent) &&
      links == LinksOf(cells.size, cells.items[..], topParent, leftParent) &&
      colors == ColorsOf(cells.items[..])
    }

    /** Links point to larger positions and join only stones of one colour. */
    ghost predicate Valid()
      reads this, cells.items
    {
      Abstracts() && 2 <= cells.size <= 19 && Ordered(links) && Respects(links, colors)
    }

    /** `Board::new`, which asserts 2 <= size <= 19: an empty board with every position a root. */
    constructor (size: nat)
      requires 2 <= size <= 19
      ensures Valid() && Size() == size && fresh(cells) && fresh(cells.items)
      ensures forall i :: 0 <= i < |links| ==> links[i].None?
      ensures forall i :: 0 <= i < size * size ==> colors[i].None?
    {
      cells := new SquareArray<Cell>(size, DefaultCell);
      topParent := Top;
      leftParent := Left;
      new;
      links := LinksOf(cells.size, cells.items[..], topParent, leftParent);
      colors := ColorsOf(cells.items[..]);
    }

    function GetColor(c: Coords): (color: Option<Color>)
      reads this, cells.items
      requires Abstracts() && IsOnBoardWithSize(c, Size())
      ensures color == colors[HexCells.IndexFromCoords(Size(), c)]
    {
      cells.AtCoord(c.row, c.column).color
    }

    function GetColorOfPosition(p: Position): (color: Option<Color>)
      reads this, cells.items
      requires Abstracts() && ValidPosition(Size(), p)
      ensures color == colors[Rank(Size(), p)]
    {
      match p
      case Index(i) => cells.AtIndex(i).color
      case _ => Some(EdgeColor(p))
    }

    /** `get_parent`: the stored parent, or the item itself for a root. */
    function GetParent(item: Position): (parent: Position)
      reads this, cells.items
      requires Abstracts() && ValidPosition(Size(), item)
      ensures ValidPosition(Size(), parent)
      ensures links[Rank(Size(), item)] == LinkOf(Size(), item, parent)
    {
      match item
      case Top => topParent
      case Left => leftParent
      case Bottom | Right => item
      case Index(i) =>
        match cells.AtIndex(i).parent
        case None => item
        case Some(q) => q
    }

    /** `set_parent`, which panics on BOTTOM and RIGHT; the cell keeps its colour. */
    method SetParent(item: Position, parent: Position)
      requires Abstracts() && ValidPosition(Size(), item) && ValidPosition(Size(), parent)
      requires item != Bottom && item != Right
      modifies this, cells.items
      ensures Abstracts()
      ensures links == old(links)[Rank(Size(), item) := LinkOf(Size(), item, parent)]
      ensures colors == old(colors)
    {
      if item == Top {
        topParent := parent;
      } else if item == Left {
        leftParent := parent;
      } else {
        var i := item.index;
        var cell := cells.AtIndex(i);
        LinksOfUpdate(cells.size, cells.items[..], topParent, leftParent, i, cell.(parent := Some(parent)));
        cells.SetIndex(i, cell.(parent := Some(parent)));
      }
      links := links[Rank(Size(), item) := LinkOf(Size(), item, parent)];
    }

    /** The first loop of `find_root`: follow parents until a position is its own parent. */
    method WalkToRoot(item: Position) returns (root: Position)
      requires Abstracts() && Ordered(links) && ValidPosition(Size(), item)
      ensures ValidPosition(Size(), root) && Rank(Size(), root) == Root(links, Rank(Size(), item))
    {
      var size := Size();
      root := item;
      while GetParent(root) != root
        invariant ValidPosition(size, root)
        invariant Root(links, Rank(size, root)) == Root(links, Rank(size, item))
        decreases |links| - Rank(size, root)
      {
        root := GetParent(root);
      }
    }

    /** The second loop of `find_root`: link every position on the path from item to its root. */
    method LinkPathTo(item: Position, root: Position)
      requires Abstracts() && Ordered(links) && ValidPosition(Size(), item) && ValidPosition(Size(), root)
      requires Rank(Size(), root) == Root(links, Rank(Size(), item))
      modifies this, cells.items
      ensures Abstracts() && colors == old(colors)
      ensures links == Compress(old(links), Rank(Size(), item))
    {
      ghost var p := links;
      var size := Size();
      var current := item;
      ghost var visited: seq<nat> := [];
      while current != root
        invariant Abstracts() && ValidPosition(size, current)
        invariant Root(p, Rank(size, current)) == Rank(size, root)
        invariant Walked(p, Rank(size, item), visited, Rank(size, current))
        invariant links == LinkedTo(p, Rank(size, root), visited)
        invariant colors == old(colors)
        decreases Rank(size, root) - Rank(size, current)
      {
        ghost var rc := Rank(size, current);
        var next := GetParent(current);
        RankOrder(size, current, root);
        RankOrder(size, current, next);
        FollowLink(p, Rank(size, item), visited, rc);
        RootOfParent(p, rc);
        SetParent(current, root);
        LinkedToStep(p, Rank(size, root), visited, rc);
        visited := visited + [rc];
        current := next;
      }
      WalkDone(p, Rank(size, item), visited, Rank(size, current));
    }

    /** `find_root`, re-linking the whole path to the root. */
    method FindRoot(item: Position) returns (root: Position)
      requires Valid() && ValidPosition(Size(), item)
      modifies this, cells.items
      ensures Valid() && ValidPosition(Size(), root)
      ensures Rank(Size(), root) == Root(old(links), Rank(Size(), item))
      ensures links == Compress(old(links), Rank(Size(), item))
      ensures colors == old(colors)
    {
      root := WalkToRoot(item);
      CompressRespects(links, colors, Rank(Size(), item));
      LinkPathTo(item, root);
    }

    /** `is_in_same_set`: compares the roots; the partition is unchanged. */
    method IsInSameSet(item1: Position, item2: Position) returns (same: bool)
      requires Valid() && ValidPosition(Size(), item1) && ValidPosition(Size(), item2)
      modifies this, cells.items
      ensures Valid() && colors == old(colors)
      ensures same <==> SameSet(old(links), Rank(Size(), item1), Rank(Size(), item2))
      ensures forall y :: 0 <= y < |links| ==> Root(links, y) == Root(old(links), y)
    {
      ghost var p := links;
      var root1 := FindRoot(item1);
      ghost var p1 := links;
      CompressKeepsRoots(p, Rank(Size(), item1));
      var root2 := FindRoot(item2);
      CompressKeepsRoots(p1, Rank(Size(), item2));
      RankOrder(Size(), root1, root2);
      same := root1 == root2;
    }

    /**
     * `merge` of two positions of the same colour: the smaller root is linked below the
     * larger one. Equal colours are what keep BOTTOM from being linked below RIGHT.
     */
    method Merge(item1: Position, item2: Position)
      requires Valid() && ValidPosition(Size(), item1) && ValidPosition(Size(), item2)
      requires colors[Rank(Size(), item1)].Some?
      requires colors[Rank(Size(), item1)] == colors[Rank(Size(), item2)]
      modifies this, cells.items
      ensures Valid() && colors == old(colors)
      ensures |links| == |old(links)| && IsMerge(links, old(links), Rank(Size(), item1), Rank(Size(), item2))
    {
      ghost var p := links;
      var size := Size();
      ghost var a, b := Rank(size, item1), Rank(size, item2);
      var root1 := FindRoot(item1);
      var root2 := FindRoot(item2);
      ghost var c := links;
      ghost var r1, r2 := Rank(size, root1), Rank(size, root2);
      MergeRoots(p, colors, a, b, r1, r2);
      RankOrder(size, root1, root2);
      EdgeRootsStay(size, root1, root2, colors);
      if Less(root2, root1) {
        SetParent(root2, root1);
        assert links == c[r2 := Some(r1)];
      } else if Less(root1, root2) {
        SetParent(root1, root2);
        assert links == c[r1 := Some(r2)];
      } else {
        assert r1 == r2;
      }
      assert links == Linked(c, r1, r2);
      MergeOutcome(p, colors, a, b, links);
    }

    /**
     * `get_neighbors` (which assumes size >= 2): four to six positions of this board, one per
     * side of the hexagon. `GetNeighborsMatch` relates it to the hex-grid neighbours.
     */
    function GetNeighbors(index: nat): (ns: seq<Position>)
      requires 2 <= Size() && index < Size() * Size()
      ensures 4 <= |ns| <= 6
      ensures forall i :: 0 <= i < |ns| ==> ValidPosition(Size(), ns[i])
    {
      NeighborIndexBounds(Size(), index);
      [LeftNeighbor(Size(), index)] + [RightNeighbor(Size(), index)]
      + TopNeighbors(Size(), index) + BottomNeighbors(Size(), index)
    }

    /** The first half of `play`: the stone goes on the empty cell as a set of its own. */
    method PutStone(index: nat, color: Color)
      requires Valid() && index < Size() * Size() && colors[index].None?
      modifies this, cells.items
      ensures Valid() && links == old(links)
      ensures colors == old(colors)[index := Some(color)]
      ensures links[index].None? && Respects(links, colors)
    {
      PlaceStone(Size(), cells.items[..], topParent, leftParent, index, color);
      cells.SetIndex(index, Cell(Some(color), Some(Index(index))));
      colors := colors[index := Some(color)];
    }

    /**
     * The loop of `play`: the new stone at index is merged with every neighbour of its own
     * colour, one neighbour at a time.
     */
    method JoinNeighbors(index: nat, color: Color, neighbors: seq<Position>)
      requires Valid() && index < Size() * Size()
      requires colors[index] == Some(color) && links[index].None?
      requires forall i :: 0 <= i < |neighbors| ==> ValidPosition(Size(), neighbors[i])
      modifies this, cells.items
      ensures Valid() && colors == old(colors) && |links| == |old(links)|
      ensures Joined(links, old(links), JoinedPrefix(old(links), colors, Size(), index, neighbors, |neighbors|, color))
    {
      ghost var p0 := links;
      ghost var g := {index};
      assert Joined(links, p0, g);
      for k := 0 to |neighbors|
        invariant Valid() && colors == old(colors) && |links| == |p0|
        invariant g == JoinedPrefix(p0, colors, Size(), index, neighbors, k, color) && index in g
        invariant Joined(links, p0, g)
      {
        var neighbor := neighbors[k];
        if GetColorOfPosition(neighbor) == Some(color) {
          ghost var q := links;
          Merge(Index(index), neighbor);
          JoinStep(p0, q, links, index, Rank(Size(), neighbor), g);
          g := g + {Root(p0, Rank(Size(), neighbor))};
        }
      }
    }

    /**
     * `play`: out-of-range coordinates and occupied cells are rejected with nothing changed;
     * otherwise the stone is placed and joined with every neighbour of its colour.
     */
    method Play(coords: Coords, color: Color) returns (result: Result<(), InvalidMove>)
      requires Valid()
      modifies this, cells.items
      ensures Valid() && |links| == |old(links)|
      ensures !IsOnBoardWithSize(coords, Size()) ==>
        result == Err(OutOfBounds(coords)) && unchanged(this, cells.items)
      ensures IsOnBoardWithSize(coords, Size()) && old(GetColor(coords)).Some? ==>
        result == Err(CellOccupied(coords)) && unchanged(this, cells.items)
      ensures IsOnBoardWithSize(coords, Size()) && old(GetColor(coords)).None? ==>
        result == Ok(()) &&
        colors == old(colors)[HexCells.IndexFromCoords(Size(), coords) := Some(color)] &&
        old(links)[HexCells.IndexFromCoords(Size(), coords)].None? &&
        Respects(old(links), colors) &&
        Joined(links, old(links), JoinedRoots(old(links), colors, Size(), coords, color))
    {
      var size := Size();
      if coords.row >= size || coords.column >= size {
        return Err(OutOfBounds(coords));
      }
      var index := cells.IndexFromCoord(coords.row, coords.column);
      var position := Index(index);
      if cells.AtIndex(index).color.Some? {
        return Err(CellOccupied(coords));
      }
      ghost var p0 := links;
      PutStone(index, color);
      var neighbors := GetNeighbors(index);
      ghost var ns := NeighborPositions(size, coords);
      HexCells.DecodeIndexFromCoords(size, coords);
      GetNeighborsMatch(this, index);
      JoinNeighbors(index, color, neighbors);
      JoinedPrefixRoots(p0, colors, size, index, neighbors, |neighbors|, color);
      assert neighbors[..|neighbors|] == neighbors;
      RootsOfColorSameElements(p0, colors, size, neighbors, ns, color);
      return Ok(());
    }
  }
}
