/**
 * A game of Hex (src/game.rs): a board, the player to move and whether someone has won.
 * Black joins the top and bottom edges, White the left and right edges.
 */
module Games {
  import opened Wrappers
  import opened Colors
  import opened Coordinates
  import opened UnionFind
  import opened Boards
  import HexCells

  datatype Status = Ongoing | Finished(winner: Color)

  /** The move errors of src/errors.rs: the board's two and the game's own. */
  datatype InvalidMove = GameOver | OutOfBounds(coords: Coords) | CellOccupied(coords: Coords)

  /** A board error passed on unchanged, as `?` does. */
  function FromBoardError(e: Boards.InvalidMove): (r: InvalidMove)
    ensures e.OutOfBounds? <==> r == InvalidMove.OutOfBounds(e.coords)
    ensures e.CellOccupied? <==> r == InvalidMove.CellOccupied(e.coords)
  {
    match e
    case OutOfBounds(c) => InvalidMove.OutOfBounds(c)
    case CellOccupied(c) => InvalidMove.CellOccupied(c)
  }

  /** `get_edges`: the two distinct edges a player wants to connect, both of their colour. */
  function GetEdges(color: Color): (edges: (Position, Position))
    ensures !edges.0.Index? && !edges.1.Index? && edges.0 != edges.1
    ensures EdgeColor(edges.0) == color && EdgeColor(edges.1) == color
  {
    match color
    case Black => (Top, Bottom)
    case White => (Left, Right)
  }

  /** Every edge belongs to exactly one player, the one whose edges include it. */
  lemma GetEdgesCoverEdges(e: Position)
    requires !e.Index?
    ensures e == GetEdges(EdgeColor(e)).0 || e == GetEdges(EdgeColor(e)).1
    ensures e != GetEdges(Opponent(EdgeColor(e))).0 && e != GetEdges(Opponent(EdgeColor(e))).1
  {
    var c := EdgeColor(e);
    var mine, theirs := GetEdges(c), GetEdges(Opponent(c));
    assert EdgeColor(theirs.0) != c && EdgeColor(theirs.1) != c;
  }

  /** The player's two edges are in one set of the links. */
  ghost predicate EdgesJoined(links: seq<Option<nat>>, size: nat, color: Color)
    requires Ordered(links) && |links| == size * size + 4
  {
    var (e1, e2) := GetEdges(color);
    SameSet(links, Rank(size, e1), Rank(size, e2))
  }

  class Game {
    const board: Board
    var currentPlayer: Color
    var status: Status

    /**
     * While the game goes on neither player has connected their edges; once it is over the
     * winner has and the loser has not.
     */
    ghost predicate Valid()
      reads this, board, board.cells.items
    {
      board.Valid() &&
      var links, size := board.links, board.Size();
      match status
      case Ongoing => !EdgesJoined(links, size, Black) && !EdgesJoined(links, size, White)
      case Finished(w) => EdgesJoined(links, size, w) && !EdgesJoined(links, size, Opponent(w))
    }

    /** `Game::new`: an empty board, Black to move. */
    constructor (size: nat)
      requires 2 <= size <= 19
      ensures Valid() && fresh(board) && fresh(board.cells) && fresh(board.cells.items)
      ensures board.Size() == size && currentPlayer == Black && status == Ongoing
      ensures forall i :: 0 <= i < size * size ==> board.colors[i].None?
    {
      board := new Board(size);
      currentPlayer := Black;
      status := Ongoing;
      new;
      RankOrder(size, Top, Bottom);
      RankOrder(size, Left, Right);
    }

    /**
     * `play`: a finished game rejects every move, and so does the board for coordinates off
     * the board or a cell already taken; nothing changes then. Otherwise the current
     * player's stone is placed. If it connects their edges they win and stay the current
     * player; if not, the turn passes to the opponent.
     */
    method Play(coords: Coords) returns (result: Result<(), InvalidMove>)
      requires Valid()
      modifies this, board, board.cells.items
      ensures Valid()
      ensures old(status).Finished? ==>
        result == Err(GameOver) && unchanged(this, board, board.cells.items)
      ensures old(status).Ongoing? && !IsOnBoardWithSize(coords, board.Size()) ==>
        result == Err(InvalidMove.OutOfBounds(coords)) && unchanged(this, board, board.cells.items)
      ensures old(status).Ongoing? && IsOnBoardWithSize(coords, board.Size()) && old(board.GetColor(coords)).Some? ==>
        result == Err(InvalidMove.CellOccupied(coords)) && unchanged(this, board, board.cells.items)
      ensures old(status).Ongoing? && IsOnBoardWithSize(coords, board.Size()) && old(board.GetColor(coords)).None? ==>
        result == Ok(()) &&
        board.colors == old(board.colors)[HexCells.IndexFromCoords(board.Size(), coords) := Some(old(currentPlayer))] &&
        Joined(board.links, old(board.links),
               JoinedRoots(old(board.links), board.colors, board.Size(), coords, old(currentPlayer))) &&
        if EdgesJoined(board.links, board.Size(), old(currentPlayer)) then
          status == Finished(old(currentPlayer)) && currentPlayer == old(currentPlayer)
        else
          status == Ongoing && currentPlayer == Opponent(old(currentPlayer))
    {
      if status.Finished? {
        return Err(GameOver);
      }
      var player := currentPlayer;
      var size := board.Size();
      ghost var p0 := board.links;
      var placed := board.Play(coords, player);
      if placed.Err? {
        return Err(FromBoardError(placed.error));
      }
      ghost var p1 := board.links;
      var (edge1, edge2) := GetEdges(player);
      var same := board.IsInSameSet(edge1, edge2);
      JoinedKeptByRoots(p1, board.links, p0, JoinedRoots(p0, board.colors, size, coords, player));
      ghost var (other1, other2) := GetEdges(Opponent(player));
      assert !EdgesJoined(board.links, size, Opponent(player)) by {
        assert board.GetColorOfPosition(other1) == Some(Opponent(player));
        OtherColorsStayApart(p0, p1, board.colors, size, coords, player, Rank(size, other1), Rank(size, other2));
        RankOrder(size, other1, other1);
        RankOrder(size, other2, other2);
      }
      if same {
        status := Finished(player);
      } else {
        currentPlayer := Opponent(player);
      }
      return Ok(());
    }
  }
}
