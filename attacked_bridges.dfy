/**
 * Attacked bridges (src/attacked_bridges.rs). A stone just placed at `coords` attacks a bridge
 * of the opponent when two cyclically consecutive gaps around it, neighbours j-1 and j+1,
 * hold opponent stones (or opponent-owned edges) and the neighbour j between them is
 * empty: j is the cell the opponent has to answer on. The source finds these with a
 * three-state scan over the neighbour list, extended by its first two entries.
 */
module AttackedBridges {
  import opened Wrappers
  import opened Colors
  import opened Coordinates
  import opened Edges
  import opened HexCells
  import opened Neighbors

  /** How much of the pattern [opponent, empty, opponent] the scan has matched so far. */
  datatype ScanState = Found0 | Found1 | Found2

  // ----- the cyclic reference -----

  predicate InRange(cs: seq<Option<Color>>, ns: seq<nat>) {
    forall k :: 0 <= k < |ns| ==> ns[k] < |cs|
  }

  /** Neighbour j is empty and both its cyclic predecessor and successor hold `search`. */
  predicate CyclicFlanked(cs: seq<Option<Color>>, ns: seq<nat>, search: Color, j: nat)
    requires InRange(cs, ns) && j < |ns|
  {
    var before := if j == 0 then |ns| - 1 else j - 1;
    var after := if j + 1 == |ns| then 0 else j + 1;
    cs[ns[before]] == Some(search) && cs[ns[j]] == None && cs[ns[after]] == Some(search)
  }

  function CyclicAt(cs: seq<Option<Color>>, ns: seq<nat>, search: Color, j: nat): seq<nat>
    requires InRange(cs, ns) && j < |ns|
  {
    if CyclicFlanked(cs, ns, search, j) then [ns[j]] else []
  }

  /** The flanked neighbours among positions 1 .. j-1, in order. */
  function CyclicUpTo(cs: seq<Option<Color>>, ns: seq<nat>, search: Color, j: nat): seq<nat>
    requires InRange(cs, ns) && 1 <= j <= |ns|
  {
    if j == 1 then [] else CyclicUpTo(cs, ns, search, j - 1) + CyclicAt(cs, ns, search, j - 1)
  }

  /** Midpoints of attacked bridges in the order the source reports them: 1 .. n-1, then 0. */
  function CyclicMiddles(cs: seq<Option<Color>>, ns: seq<nat>, search: Color): (r: seq<nat>)
    requires InRange(cs, ns) && |ns| >= 1
    ensures forall k :: 0 <= k < |r| ==> r[k] in ns && cs[r[k]] == None
  {
    CyclicUpToEmpty(cs, ns, search, |ns|);
    CyclicUpTo(cs, ns, search, |ns|) + CyclicAt(cs, ns, search, 0)
  }

  lemma {:induction false} CyclicUpToEmpty(cs: seq<Option<Color>>, ns: seq<nat>, search: Color, j: nat)
    requires InRange(cs, ns) && 1 <= j <= |ns|
    ensures forall k :: 0 <= k < |CyclicUpTo(cs, ns, search, j)| ==>
      CyclicUpTo(cs, ns, search, j)[k] in ns && cs[CyclicUpTo(cs, ns, search, j)[k]] == None
  {
    if j > 1 {
      CyclicUpToEmpty(cs, ns, search, j - 1);
    }
  }

  /** A slot is listed among positions 1 .. j-1 exactly when a position there holding it is flanked. */
  lemma {:induction false} CyclicUpToMembers(cs: seq<Option<Color>>, ns: seq<nat>, search: Color, j: nat, x: nat)
    requires InRange(cs, ns) && 1 <= j <= |ns|
    ensures x in CyclicUpTo(cs, ns, search, j) <==>
      exists k :: 1 <= k < j && ns[k] == x && CyclicFlanked(cs, ns, search, k)
  {
    if j > 1 {
      CyclicUpToMembers(cs, ns, search, j - 1, x);
    }
  }

  /** On-board coordinates of a sequence of normal-cell indices. */
  function CoordsOf(size: nat, ids: seq<nat>): (r: seq<Coords>)
    requires AllCells(size, ids)
    ensures |r| == |ids|
    ensures forall k :: 0 <= k < |r| ==> IsOnBoardWithSize(r[k], size) && IndexFromCoords(size, r[k]) == ids[k]
  {
    seq(|ids|, k requires 0 <= k < |ids| => CoordsFromIndex(size, ids[k]))
  }

  /** With the edges coloured, an empty slot is a normal cell. */
  lemma EmptySlotIsCell(size: nat, cs: seq<Option<Color>>, x: nat)
    requires EdgesColored(size, cs) && x < |cs| && cs[x] == None
    ensures x < size * size
  {
  }

  predicate AllCells(size: nat, ids: seq<nat>) {
    forall k :: 0 <= k < |ids| ==> ids[k] < size * size
  }

  lemma EmptySlotsAreCells(size: nat, cs: seq<Option<Color>>, ids: seq<nat>)
    requires EdgesColored(size, cs)
    requires forall k :: 0 <= k < |ids| ==> ids[k] < |cs| && cs[ids[k]] == None
    ensures AllCells(size, ids)
  {
  }

  lemma NeighborsInRange(size: nat, cs: seq<Option<Color>>, c: Coords)
    requires IsOnBoardWithSize(c, size) && |cs| == size * size + 4
    ensures InRange(cs, GetNeighbors(size, IndexFromCoords(size, c)))
  {
    GetNeighborsAreAdjacent(size, c);
    var ns := GetNeighbors(size, IndexFromCoords(size, c));
    assert forall k :: 0 <= k < |ns| ==> ns[k] in ns;
  }

  /**
   * What `find_attacked_bridges` returns: nothing for an empty cell; otherwise the flanked
   * neighbours, for the opponent of the stone at c, as coordinates.
   */
  function FindAttackedBridgesSpec(size: nat, cs: seq<Option<Color>>, c: Coords): (r: seq<Coords>)
    requires IsOnBoardWithSize(c, size) && EdgesColored(size, cs)
    ensures forall k :: 0 <= k < |r| ==>
      IsOnBoardWithSize(r[k], size) && cs[IndexFromCoords(size, r[k])] == None
      && IndexFromCoords(size, r[k]) in GetNeighbors(size, IndexFromCoords(size, c))
    ensures cs[IndexFromCoords(size, c)] == None ==> r == []
  {
    var center := IndexFromCoords(size, c);
    match cs[center]
    case None => []
    case Some(color) =>
      var ns := GetNeighbors(size, center);
      NeighborsInRange(size, cs, c);
      var mids := CyclicMiddles(cs, ns, Opponent(color));
      EmptySlotsAreCells(size, cs, mids);
      CoordsOf(size, mids)
  }

  /**
   * Each reported cell is an empty cell next to c whose two cyclic neighbours in the
   * neighbour list hold the opponent's colour, and every such cell is reported.
   */
  lemma {:induction false} FindAttackedBridgesMeaning(size: nat, cs: seq<Option<Color>>, c: Coords, d: Coords)
    requires IsOnBoardWithSize(c, size) && EdgesColored(size, cs) && IsOnBoardWithSize(d, size)
    requires cs[IndexFromCoords(size, c)].Some?
    ensures d in FindAttackedBridgesSpec(size, cs, c) <==>
      var ns := GetNeighbors(size, IndexFromCoords(size, c));
      InRange(cs, ns) &&
      exists j :: 0 <= j < |ns| && ns[j] == IndexFromCoords(size, d) &&
        CyclicFlanked(cs, ns, Opponent(cs[IndexFromCoords(size, c)].value), j)
  {
    var center := IndexFromCoords(size, c);
    var ns := GetNeighbors(size, center);
    var search := Opponent(cs[center].value);
    NeighborsInRange(size, cs, c);
    var mids := CyclicMiddles(cs, ns, search);
    var r := FindAttackedBridgesSpec(size, cs, c);
    var x := IndexFromCoords(size, d);
    CyclicUpToMembers(cs, ns, search, |ns|, x);
    if d in r {
      var k :| 0 <= k < |r| && r[k] == d;
      assert mids[k] == x;
    }
    if x in mids {
      var k :| 0 <= k < |mids| && mids[k] == x;
      DecodeIndexFromCoords(size, d);
      DecodeIndexFromCoords(size, r[k]);
      assert r[k] == d;
    }
  }

  // ----- the scan over the extended neighbour list -----

  /**
   * The eight slots the source scans: the neighbours over an array filled with c itself,
   * with the two slots after them overwritten by the first two neighbours.
   */
  function Window(center: nat, ns: seq<nat>): (w: seq<nat>)
    requires 2 <= |ns| <= 6
    ensures |w| == 8
  {
    (ns + seq(8 - |ns|, _ => center))[|ns| := ns[0]][|ns| + 1 := ns[1]]
  }

  /** Slot m of the window is empty with `search` on both sides of it. */
  predicate Flanked(cs: seq<Option<Color>>, w: seq<nat>, search: Color, m: nat)
    requires InRange(cs, w) && 1 <= m && m + 1 < |w|
  {
    cs[w[m - 1]] == Some(search) && cs[w[m]] == None && cs[w[m + 1]] == Some(search)
  }

  function Middle(cs: seq<Option<Color>>, w: seq<nat>, search: Color, m: nat): seq<nat>
    requires InRange(cs, w) && 1 <= m && m + 1 < |w|
  {
    if Flanked(cs, w, search, m) then [w[m]] else []
  }

  /** The midpoints of flanked triples that fit into the first i slots of the window. */
  function Scan(cs: seq<Option<Color>>, w: seq<nat>, search: Color, i: nat): seq<nat>
    requires InRange(cs, w) && i <= |w|
  {
    if i < 3 then [] else Scan(cs, w, search, i - 1) + Middle(cs, w, search, i - 2)
  }

  lemma {:induction false} ScanEmpty(cs: seq<Option<Color>>, w: seq<nat>, search: Color, i: nat)
    requires InRange(cs, w) && i <= |w|
    ensures forall k :: 0 <= k < |Scan(cs, w, search, i)| ==>
      Scan(cs, w, search, i)[k] < |cs| && cs[Scan(cs, w, search, i)[k]] == None
  {
    if i >= 3 {
      ScanEmpty(cs, w, search, i - 1);
    }
  }

  /** The scan of all eight slots reports positions 1 .. 6 in turn. */
  lemma ScanEight(cs: seq<Option<Color>>, w: seq<nat>, search: Color)
    requires |w| == 8 && InRange(cs, w)
    ensures Scan(cs, w, search, 8) ==
      Middle(cs, w, search, 1) + Middle(cs, w, search, 2) + Middle(cs, w, search, 3)
      + Middle(cs, w, search, 4) + Middle(cs, w, search, 5) + Middle(cs, w, search, 6)
  {
    assert Scan(cs, w, search, 3) == Middle(cs, w, search, 1);
    assert Scan(cs, w, search, 4) == Middle(cs, w, search, 1) + Middle(cs, w, search, 2);
    assert Scan(cs, w, search, 5) == Scan(cs, w, search, 4) + Middle(cs, w, search, 3);
    assert Scan(cs, w, search, 6) == Scan(cs, w, search, 5) + Middle(cs, w, search, 4);
    assert Scan(cs, w, search, 7) == Scan(cs, w, search, 6) + Middle(cs, w, search, 5);
  }

  lemma CyclicMiddles4(cs: seq<Option<Color>>, ns: seq<nat>, search: Color)
    requires |ns| == 4 && InRange(cs, ns)
    ensures CyclicMiddles(cs, ns, search) ==
      CyclicAt(cs, ns, search, 1) + CyclicAt(cs, ns, search, 2) + CyclicAt(cs, ns, search, 3)
      + CyclicAt(cs, ns, search, 0)
  {
    CyclicUpToSteps(cs, ns, search);
    assert CyclicMiddles(cs, ns, search) == CyclicUpTo(cs, ns, search, 4) + CyclicAt(cs, ns, search, 0);
  }

  lemma CyclicMiddles5(cs: seq<Option<Color>>, ns: seq<nat>, search: Color)
    requires |ns| == 5 && InRange(cs, ns)
    ensures CyclicMiddles(cs, ns, search) ==
      CyclicAt(cs, ns, search, 1) + CyclicAt(cs, ns, search, 2) + CyclicAt(cs, ns, search, 3)
      + CyclicAt(cs, ns, search, 4) + CyclicAt(cs, ns, search, 0)
  {
    CyclicUpToSteps(cs, ns, search);
    assert CyclicMiddles(cs, ns, search) == CyclicUpTo(cs, ns, search, 5) + CyclicAt(cs, ns, search, 0);
  }

  lemma CyclicMiddles6(cs: seq<Option<Color>>, ns: seq<nat>, search: Color)
    requires |ns| == 6 && InRange(cs, ns)
    ensures CyclicMiddles(cs, ns, search) ==
      CyclicAt(cs, ns, search, 1) + CyclicAt(cs, ns, search, 2) + CyclicAt(cs, ns, search, 3)
      + CyclicAt(cs, ns, search, 4) + CyclicAt(cs, ns, search, 5) + CyclicAt(cs, ns, search, 0)
  {
    CyclicUpToSteps(cs, ns, search);
    assert CyclicMiddles(cs, ns, search) == CyclicUpTo(cs, ns, search, 6) + CyclicAt(cs, ns, search, 0);
  }

  lemma CyclicUpToSteps(cs: seq<Option<Color>>, ns: seq<nat>, search: Color)
    requires 4 <= |ns| <= 6 && InRange(cs, ns)
    ensures CyclicUpTo(cs, ns, search, 4) ==
      CyclicAt(cs, ns, search, 1) + CyclicAt(cs, ns, search, 2) + CyclicAt(cs, ns, search, 3)
    ensures |ns| >= 5 ==> CyclicUpTo(cs, ns, search, 5) == CyclicUpTo(cs, ns, search, 4) + CyclicAt(cs, ns, search, 4)
    ensures |ns| == 6 ==> CyclicUpTo(cs, ns, search, 6) == CyclicUpTo(cs, ns, search, 5) + CyclicAt(cs, ns, search, 5)
  {
    assert CyclicUpTo(cs, ns, search, 2) == CyclicAt(cs, ns, search, 1);
    assert CyclicUpTo(cs, ns, search, 3) == CyclicAt(cs, ns, search, 1) + CyclicAt(cs, ns, search, 2);
  }

  /**
   * Scanning the window finds exactly the cyclic midpoints, in the same order, as long as the
   * filler slot (the attacked cell itself) neither holds `search` nor is empty.
   */
  lemma {:induction false} ScanWindowIsCyclic(cs: seq<Option<Color>>, center: nat, ns: seq<nat>, search: Color)
    requires 4 <= |ns| <= 6 && InRange(cs, ns) && center < |cs|
    requires cs[center].Some? && cs[center] != Some(search)
    ensures InRange(cs, Window(center, ns))
    ensures Scan(cs, Window(center, ns), search, 8) == CyclicMiddles(cs, ns, search)
  {
    if |ns| == 4 {
      ScanWindow4(cs, center, ns, search);
    } else if |ns| == 5 {
      ScanWindow5(cs, center, ns, search);
    } else {
      ScanWindow6(cs, center, ns, search);
    }
  }

  lemma ScanWindow4(cs: seq<Option<Color>>, center: nat, ns: seq<nat>, search: Color)
    requires |ns| == 4 && InRange(cs, ns) && center < |cs|
    requires cs[center].Some? && cs[center] != Some(search)
    ensures InRange(cs, Window(center, ns))
    ensures Scan(cs, Window(center, ns), search, 8) == CyclicMiddles(cs, ns, search)
  {
    var w := Window(center, ns);
    assert w == [ns[0], ns[1], ns[2], ns[3], ns[0], ns[1], center, center];
    ScanEight(cs, w, search);
    CyclicMiddles4(cs, ns, search);
    assert Middle(cs, w, search, 4) == CyclicAt(cs, ns, search, 0);
  }

  lemma ScanWindow5(cs: seq<Option<Color>>, center: nat, ns: seq<nat>, search: Color)
    requires |ns| == 5 && InRange(cs, ns) && center < |cs|
    requires cs[center].Some? && cs[center] != Some(search)
    ensures InRange(cs, Window(center, ns))
    ensures Scan(cs, Window(center, ns), search, 8) == CyclicMiddles(cs, ns, search)
  {
    var w := Window(center, ns);
    assert w == [ns[0], ns[1], ns[2], ns[3], ns[4], ns[0], ns[1], center];
    ScanEight(cs, w, search);
    CyclicMiddles5(cs, ns, search);
    assert Middle(cs, w, search, 5) == CyclicAt(cs, ns, search, 0);
  }

  lemma ScanWindow6(cs: seq<Option<Color>>, center: nat, ns: seq<nat>, search: Color)
    requires |ns| == 6 && InRange(cs, ns) && center < |cs|
    ensures InRange(cs, Window(center, ns))
    ensures Scan(cs, Window(center, ns), search, 8) == CyclicMiddles(cs, ns, search)
  {
    var w := Window(center, ns);
    assert w == [ns[0], ns[1], ns[2], ns[3], ns[4], ns[5], ns[0], ns[1]];
    ScanEight(cs, w, search);
    CyclicMiddles6(cs, ns, search);
    assert Middle(cs, w, search, 6) == CyclicAt(cs, ns, search, 0);
  }

  /** `copy_into_array`: writes the items from `start` on and returns the index after them. */
  method CopyIntoArray<T>(a: array<T>, start: nat, items: seq<T>) returns (index: nat)
    requires start + |items| <= a.Length
    modifies a
    ensures index == start + |items|
    ensures a[..] == old(a[..start]) + items + old(a[index..])
  {
    index := start;
    for k := 0 to |items|
      invariant index == start + k
      invariant a[..] == old(a[..start]) + items[..k] + old(a[index..])
    {
      a[index] := items[k];
      index := index + 1;
    }
    assert items[..|items|] == items;
  }

  /**
   * The array the scan runs over: filled with the centre, the neighbours copied in, and the
   * first two neighbours repeated after them.
   */
  method ExtendedNeighbors(center: nat, ns: seq<nat>) returns (neighbors: array<nat>)
    requires 2 <= |ns| <= 6
    ensures fresh(neighbors) && neighbors[..] == Window(center, ns)
  {
    neighbors := new nat[8](_ => center);
    assert neighbors[|ns|..] == seq(8 - |ns|, _ => center);
    var count := CopyIntoArray(neighbors, 0, ns);
    assert neighbors[..] == ns + seq(8 - |ns|, _ => center);
    neighbors[count] := neighbors[0];
    neighbors[count + 1] := neighbors[1];
  }

  /** `find_attacked_bridges` on the slots of `cells`, whose edges are coloured. */
  method FindAttackedBridges(cells: HexCells, coords: Coords) returns (result: seq<Coords>)
    requires cells.Valid() && IsOnBoardWithSize(coords, cells.size)
    requires EdgesColored(cells.size, cells.colors[..])
    ensures result == FindAttackedBridgesSpec(cells.size, cells.colors[..], coords)
  {
    var size := cells.size;
    ghost var cs := cells.colors[..];
    var center := IndexFromCoords(size, coords);
    var centerColor := cells.GetColorAtIndex(center);
    if centerColor.None? {
      return [];
    }
    var search := Opponent(centerColor.value);
    var ns := GetNeighbors(size, center);
    NeighborsInRange(size, cs, coords);
    var neighbors := ExtendedNeighbors(center, ns);
    ghost var w := Window(center, ns);
    ScanWindowIsCyclic(cs, center, ns, search);

    result := [];
    var state := Found0;
    for i := 0 to 8
      invariant neighbors[..] == w
      invariant state == Found1 <==> i >= 1 && cs[w[i - 1]] == Some(search)
      invariant state == Found2 <==> i >= 2 && cs[w[i - 1]] == None && cs[w[i - 2]] == Some(search)
      invariant AllCells(size, Scan(cs, w, search, i))
      invariant result == CoordsOf(size, Scan(cs, w, search, i))
    {
      var color := cells.GetColorAtIndex(neighbors[i]);
      ScanStep(size, cs, w, search, i);
      match state {
        case Found0 =>
          if color == Some(search) {
            state := Found1;
          }
        case Found1 =>
          if color.None? {
            state := Found2;
          } else if color != Some(search) {
            state := Found0;
          }
        case Found2 =>
          if color == Some(search) {
            result := result + [CoordsFromIndex(size, neighbors[i - 1])];
            state := Found1;
          } else {
            state := Found0;
          }
      }
    }
  }

  /** One more slot of the scan appends the reported cell, if slot i closes a flanked triple. */
  lemma ScanStep(size: nat, cs: seq<Option<Color>>, w: seq<nat>, search: Color, i: nat)
    requires EdgesColored(size, cs) && InRange(cs, w) && i < |w|
    ensures AllCells(size, Scan(cs, w, search, i)) && AllCells(size, Scan(cs, w, search, i + 1))
    ensures i >= 2 && Flanked(cs, w, search, i - 1) ==> w[i - 1] < size * size
    ensures CoordsOf(size, Scan(cs, w, search, i + 1)) ==
      CoordsOf(size, Scan(cs, w, search, i)) +
      (if i >= 2 && Flanked(cs, w, search, i - 1) then [CoordsFromIndex(size, w[i - 1])] else [])
  {
    ScanEmpty(cs, w, search, i);
    EmptySlotsAreCells(size, cs, Scan(cs, w, search, i));
    ScanEmpty(cs, w, search, i + 1);
    EmptySlotsAreCells(size, cs, Scan(cs, w, search, i + 1));
    if i >= 2 && Flanked(cs, w, search, i - 1) {
      EmptySlotIsCell(size, cs, w[i - 1]);
    }
  }

  // ----- the source's test positions on a 5 x 5 board with coloured edges -----
  // Each holds for every position that agrees with the test on the attacked cell and its
  // neighbours; only those slots are constrained.

  /** An example position reduces to its cyclic midpoints around the attacked cell. */
  lemma SpecFromMiddles(size: nat, cs: seq<Option<Color>>, c: Coords, ns: seq<nat>, mids: seq<nat>)
    requires IsOnBoardWithSize(c, size) && EdgesColored(size, cs)
    requires cs[IndexFromCoords(size, c)].Some?
    requires ns == GetNeighbors(size, IndexFromCoords(size, c)) && InRange(cs, ns)
    requires CyclicMiddles(cs, ns, Opponent(cs[IndexFromCoords(size, c)].value)) == mids
    requires AllCells(size, mids)
    ensures FindAttackedBridgesSpec(size, cs, c) == CoordsOf(size, mids)
  {
  }

  /** The neighbour lists of the attacked cells below (index 12 is c3, 0 is a1, 10 is a3). */
  lemma NeighborLists5()
    ensures GetNeighbors(5, 12) == [11, 7, 8, 13, 17, 16]
    ensures GetNeighbors(5, 2) == [1, 26, 3, 7, 6]
    ensures GetNeighbors(5, 10) == [25, 5, 6, 11, 15]
  {
  }

  lemma CoordsWithoutStoneExample(cs: seq<Option<Color>>)
    requires EdgesColored(5, cs) && cs[12] == None
    ensures FindAttackedBridgesSpec(5, cs, Coords(2, 2)) == []
  {
  }

  lemma CoordsWithoutNeighborsExample(cs: seq<Option<Color>>)
    requires EdgesColored(5, cs) && cs[12] == Some(White)
    requires cs[11] == None && cs[7] == None && cs[8] == None
    requires cs[13] == None && cs[17] == None && cs[16] == None
    ensures FindAttackedBridgesSpec(5, cs, Coords(2, 2)) == []
  {
    var ns := GetNeighbors(5, 12);
    NeighborLists5();
    assert InRange(cs, ns);
    CyclicMiddles6(cs, ns, Black);
    SpecFromMiddles(5, cs, Coords(2, 2), ns, []);
  }

  /** Black d2 and c4 around white c3: the middle d3. */
  lemma SimpleBridgeExample(cs: seq<Option<Color>>)
    requires EdgesColored(5, cs) && cs[12] == Some(White)
    requires cs[11] == None && cs[7] == None && cs[8] == Some(Black)
    requires cs[13] == None && cs[17] == Some(Black) && cs[16] == None
    ensures FindAttackedBridgesSpec(5, cs, Coords(2, 2)) == [Coords(2, 3)]
  {
    var ns := GetNeighbors(5, 12);
    NeighborLists5();
    assert InRange(cs, ns);
    CyclicMiddles6(cs, ns, Black);
    assert CyclicMiddles(cs, ns, Black) == [13];
    SpecFromMiddles(5, cs, Coords(2, 2), ns, [13]);
    assert CoordsOf(5, [13]) == [Coords(2, 3)];
  }

  /** Black b3, c2 and d3 around white c3: only the middle d2. */
  lemma PrecedingStoneExample(cs: seq<Option<Color>>)
    requires EdgesColored(5, cs) && cs[12] == Some(White)
    requires cs[11] == Some(Black) && cs[7] == Some(Black) && cs[8] == None
    requires cs[13] == Some(Black) && cs[17] == None && cs[16] == None
    ensures FindAttackedBridgesSpec(5, cs, Coords(2, 2)) == [Coords(1, 3)]
  {
    var ns := GetNeighbors(5, 12);
    NeighborLists5();
    assert InRange(cs, ns);
    CyclicMiddles6(cs, ns, Black);
    assert CyclicMiddles(cs, ns, Black) == [8];
    SpecFromMiddles(5, cs, Coords(2, 2), ns, [8]);
    assert CoordsOf(5, [8]) == [Coords(1, 3)];
  }

  /** As before, but with a white stone on c2: no bridge. */
  lemma NonBridgeExample(cs: seq<Option<Color>>)
    requires EdgesColored(5, cs) && cs[12] == Some(White)
    requires cs[11] == Some(Black) && cs[7] == Some(White) && cs[8] == None
    requires cs[13] == Some(Black) && cs[17] == None && cs[16] == None
    ensures FindAttackedBridgesSpec(5, cs, Coords(2, 2)) == []
  {
    var ns := GetNeighbors(5, 12);
    NeighborLists5();
    assert InRange(cs, ns);
    CyclicMiddles6(cs, ns, Black);
    SpecFromMiddles(5, cs, Coords(2, 2), ns, []);
  }

  /** Black b3, d2 and c4 around white c3: three middles, in neighbour order. */
  lemma ThreeBridgesExample(cs: seq<Option<Color>>)
    requires EdgesColored(5, cs) && cs[12] == Some(White)
    requires cs[11] == Some(Black) && cs[7] == None && cs[8] == Some(Black)
    requires cs[13] == None && cs[17] == Some(Black) && cs[16] == None
    ensures FindAttackedBridgesSpec(5, cs, Coords(2, 2)) == [Coords(1, 2), Coords(2, 3), Coords(3, 1)]
  {
    var ns := GetNeighbors(5, 12);
    NeighborLists5();
    assert InRange(cs, ns);
    CyclicMiddles6(cs, ns, Black);
    assert CyclicMiddles(cs, ns, Black) == [7, 13, 16];
    SpecFromMiddles(5, cs, Coords(2, 2), ns, [7, 13, 16]);
    assert CoordsOf(5, [7, 13, 16]) == [Coords(1, 2), Coords(2, 3), Coords(3, 1)];
  }

  /** Black b4 and c2: the bridge from the last neighbour over the first to the second. */
  lemma WrapAroundExample(cs: seq<Option<Color>>)
    requires EdgesColored(5, cs) && cs[12] == Some(White)
    requires cs[11] == None && cs[7] == Some(Black) && cs[8] == None
    requires cs[13] == None && cs[17] == None && cs[16] == Some(Black)
    ensures FindAttackedBridgesSpec(5, cs, Coords(2, 2)) == [Coords(2, 1)]
  {
    var ns := GetNeighbors(5, 12);
    NeighborLists5();
    assert InRange(cs, ns);
    CyclicMiddles6(cs, ns, Black);
    assert CyclicMiddles(cs, ns, Black) == [11];
    SpecFromMiddles(5, cs, Coords(2, 2), ns, [11]);
    assert CoordsOf(5, [11]) == [Coords(2, 1)];
  }

  /** The neighbours of a1 and b1 on any board large enough to have both corners distinct. */
  lemma CornerNeighbors(size: nat)
    requires size >= 3
    ensures GetNeighbors(size, 0) == [size * size, size * size + 1, 1, size]
    ensures GetNeighbors(size, 1) == [0, size * size + 1, 2, size + 1, size]
  {
    MulMonotone(2, size - 1, size);
    assert size * (size - 1) == (size - 1) * size >= 2 * size;
    assert 0 % size == 0 && 1 % size == 1;
    assert LeftOf(size, 0) == size * size && TopLeftOf(size, 0) == size * size + 1;
    assert TopRightOf(size, 0) == [] && RightOf(size, 0) == 1;
    assert BottomRightOf(size, 0) == size && BottomLeftOf(size, 0) == [];
    assert LeftOf(size, 1) == 0 && TopLeftOf(size, 1) == size * size + 1;
    assert TopRightOf(size, 1) == [] && RightOf(size, 1) == 2;
    assert BottomRightOf(size, 1) == size + 1 && BottomLeftOf(size, 1) == [size];
  }

  /**
   * White b1 with black a2 in the obtuse corner, on any board: the middle a1, closed by
   * Black's top edge.
   */
  lemma ObtuseCornerExample(size: nat, cs: seq<Option<Color>>)
    requires size >= 3 && EdgesColored(size, cs)
    requires cs[IndexFromEdge(size, Top)] == Some(Black) && cs[1] == Some(White)
    requires cs[0] == None && cs[2] == None && cs[size + 1] == None && cs[size] == Some(Black)
    ensures FindAttackedBridgesSpec(size, cs, Coords(0, 1)) == [Coords(0, 0)]
  {
    ObtuseCornerMiddles(size, cs);
    assert IndexFromCoords(size, Coords(0, 1)) == 1;
    SpecFromMiddles(size, cs, Coords(0, 1), GetNeighbors(size, 1), [0]);
    var r := CoordsOf(size, [0]);
    FirstRowCoords(size, r[0]);
    assert r == [Coords(0, 0)];
  }

  /** White a1 with black a2, on any board: the middle b1 between Black's top edge and a2. */
  lemma NextToObtuseCornerExample(size: nat, cs: seq<Option<Color>>)
    requires size >= 3 && EdgesColored(size, cs)
    requires cs[IndexFromEdge(size, Top)] == Some(Black) && cs[0] == Some(White)
    requires cs[1] == None && cs[size] == Some(Black)
    ensures FindAttackedBridgesSpec(size, cs, Coords(0, 0)) == [Coords(0, 1)]
  {
    NextToObtuseCornerMiddles(size, cs);
    SpecFromMiddles(size, cs, Coords(0, 0), GetNeighbors(size, 0), [1]);
    var r := CoordsOf(size, [1]);
    FirstRowCoords(size, r[0]);
    assert r == [Coords(0, 1)];
  }

  /** A cell whose index is below the size lies in the first row. */
  lemma FirstRowCoords(size: nat, c: Coords)
    requires IsOnBoardWithSize(c, size) && IndexFromCoords(size, c) < size
    ensures c == Coords(0, IndexFromCoords(size, c))
  {
    DivModOfIndex(size, c.row, c.column);
  }

  lemma ObtuseCornerMiddles(size: nat, cs: seq<Option<Color>>)
    requires size >= 3 && EdgesColored(size, cs)
    requires cs[IndexFromEdge(size, Top)] == Some(Black)
    requires cs[0] == None && cs[2] == None && cs[size + 1] == None && cs[size] == Some(Black)
    ensures InRange(cs, GetNeighbors(size, 1))
    ensures CyclicMiddles(cs, GetNeighbors(size, 1), Black) == [0]
  {
    var ns := GetNeighbors(size, 1);
    CornerNeighbors(size);
    assert InRange(cs, ns);
    CyclicMiddles5(cs, ns, Black);
  }

  lemma NextToObtuseCornerMiddles(size: nat, cs: seq<Option<Color>>)
    requires size >= 3 && EdgesColored(size, cs)
    requires cs[IndexFromEdge(size, Top)] == Some(Black)
    requires cs[1] == None && cs[size] == Some(Black)
    ensures InRange(cs, GetNeighbors(size, 0))
    ensures CyclicMiddles(cs, GetNeighbors(size, 0), Black) == [1]
  {
    var ns := GetNeighbors(size, 0);
    CornerNeighbors(size);
    assert cs[size * size].Some?;
    assert InRange(cs, ns);
    CyclicMiddles4(cs, ns, Black);
  }

  /** White c1 with black c2: the middle d1 of the bridge to Black's own top edge. */
  lemma OwnEdgeExample(cs: seq<Option<Color>>)
    requires EdgesColored(5, cs) && cs[IndexFromEdge(5, Top)] == Some(Black) && cs[2] == Some(White)
    requires cs[1] == None && cs[3] == None && cs[7] == Some(Black) && cs[6] == None
    ensures FindAttackedBridgesSpec(5, cs, Coords(0, 2)) == [Coords(0, 3)]
  {
    var ns := GetNeighbors(5, 2);
    NeighborLists5();
    assert InRange(cs, ns);
    CyclicMiddles5(cs, ns, Black);
    assert CyclicMiddles(cs, ns, Black) == [3];
    SpecFromMiddles(5, cs, Coords(0, 2), ns, [3]);
    assert CoordsOf(5, [3]) == [Coords(0, 3)];
  }

  /** White a3 with black b3: White's left edge does not complete a bridge for Black. */
  lemma OtherPlayersEdgeExample(cs: seq<Option<Color>>)
    requires EdgesColored(5, cs) && cs[IndexFromEdge(5, Left)] == Some(White) && cs[10] == Some(White)
    requires cs[5] == None && cs[6] == None && cs[11] == Some(Black) && cs[15] == None
    ensures FindAttackedBridgesSpec(5, cs, Coords(2, 0)) == []
  {
    var ns := GetNeighbors(5, 10);
    NeighborLists5();
    assert InRange(cs, ns);
    CyclicMiddles5(cs, ns, Black);
    SpecFromMiddles(5, cs, Coords(2, 0), ns, []);
  }
}
