/** The four board edges and the edge colouring (src/edges.rs). */
module Edges {
  import opened Colors
  import opened Coordinates

  datatype Edge = Left | Top | Right | Bottom

  /**
   * A cell or an edge. The `From<Coords>` and `From<Edge>` conversions of the source are
   * the two constructors: each keeps its payload and tags it.
   */
  datatype CoordsOrEdge = AtCoords(coords: Coords) | AtEdge(edge: Edge)

  /** The owner of each edge: Top and Bottom belong to Black, Left and Right to White. */
  function EdgeOwner(e: Edge): Color {
    match e
    case Top | Bottom => Black
    case Left | Right => White
  }

  /** The two edges a player has to connect. */
  function GetEdgesOfColor(c: Color): (r: seq<Edge>)
    ensures |r| == 2 && r[0] != r[1]
    ensures forall e :: e in r <==> EdgeOwner(e) == c
  {
    match c
    case Black => [Top, Bottom]
    case White => [Left, Right]
  }

  lemma {:induction false} EdgesOfColorsPartition(e: Edge)
    ensures e in GetEdgesOfColor(Black) <==> e !in GetEdgesOfColor(White)
  {
    assert e in GetEdgesOfColor(EdgeOwner(e));
  }
}

/** `set_edge_colors`: give every edge slot of a grid its owner's colour. */
module EdgeColors {
  import opened Wrappers
  import opened Colors
  import opened Edges
  import opened HexCells

  /** The slots after colouring: edge slots hold their owner's colour, the rest is as before. */
  function WithEdgeColors(size: nat, cs: seq<Option<Color>>): (r: seq<Option<Color>>)
    requires |cs| == size * size + 4
    ensures |r| == |cs| && EdgesColored(size, r)
    ensures forall i :: 0 <= i < size * size ==> r[i] == cs[i]
    ensures forall e :: r[IndexFromEdge(size, e)] == Some(EdgeOwner(e))
  {
    seq(|cs|, i requires 0 <= i < |cs| =>
      if i < size * size then cs[i] else Some(EdgeOwner(EDGES[i - size * size])))
  }

  lemma WithEdgeColorsIdempotent(size: nat, cs: seq<Option<Color>>)
    requires |cs| == size * size + 4
    ensures WithEdgeColors(size, WithEdgeColors(size, cs)) == WithEdgeColors(size, cs)
  {
  }

  /** The slots after the edges of one colour were given that colour. */
  ghost function Painted(size: nat, cs: seq<Option<Color>>, color: Color): (r: seq<Option<Color>>)
    requires |cs| == size * size + 4
    ensures |r| == |cs|
  {
    seq(|cs|, i requires 0 <= i < |cs| =>
      if IsEdgeSlot(size, i) && EdgeOwner(EDGES[i - size * size]) == color then Some(color) else cs[i])
  }

  /** Painting Black's edges and then White's gives the colouring `WithEdgeColors` describes. */
  lemma PaintedBoth(size: nat, cs: seq<Option<Color>>)
    requires |cs| == size * size + 4
    ensures Painted(size, Painted(size, cs, Black), White) == WithEdgeColors(size, cs)
  {
  }

  /** The inner loop of `set_edge_colors`: the two edges of one colour get that colour. */
  method PaintEdgesOfColor(cells: HexCells, color: Color)
    requires cells.Valid()
    modifies cells.colors
    ensures cells.colors[..] == Painted(cells.size, old(cells.colors[..]), color)
    ensures cells.parents[..] == old(cells.parents[..])
  {
    ghost var before := cells.colors[..];
    var edges := GetEdgesOfColor(color);
    for q := 0 to 2
      invariant forall i :: 0 <= i < cells.colors.Length ==>
        cells.colors[i] == if IsEdgeSlot(cells.size, i) && EDGES[i - cells.size * cells.size] in edges[..q]
                           then Some(color) else before[i]
      invariant cells.parents[..] == old(cells.parents[..])
    {
      var index := IndexFromEdge(cells.size, edges[q]);
      cells.SetColorAtIndex(index, color);
    }
    assert edges[..2] == edges;
    assert forall i :: 0 <= i < cells.colors.Length ==>
      cells.colors[..][i] == Painted(cells.size, before, color)[i];
  }

  method SetEdgeColors(cells: HexCells)
    requires cells.Valid()
    modifies cells.colors
    ensures cells.colors[..] == WithEdgeColors(cells.size, old(cells.colors[..]))
    ensures cells.parents[..] == old(cells.parents[..])
  {
    var players := [Black, White];
    ghost var before := cells.colors[..];
    for p := 0 to 2
      invariant cells.colors[..] == (if p == 0 then before else if p == 1 then Painted(cells.size, before, Black)
                                     else Painted(cells.size, Painted(cells.size, before, Black), White))
      invariant cells.parents[..] == old(cells.parents[..])
    {
      PaintEdgesOfColor(cells, players[p]);
    }
    PaintedBoth(cells.size, before);
  }

  /** Whether slot i is one of the four edge slots. */
  predicate IsEdgeSlot(size: nat, i: nat) {
    size * size <= i < size * size + 4
  }
}
