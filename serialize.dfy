/**
 * The saved-game codec of src/serialize.rs: every cell is stored as one byte, 0 for an
 * empty cell, 1 for Black and 2 for White, row by row; the player to move uses the same
 * code. Only the byte matrix is modelled, not the JSON around it.
 */
module Serialization {
  import opened Wrappers
  import opened Colors

  newtype byte = x: int | 0 <= x < 256

  /** `InvalidBoard` of src/errors.rs:28-32: the cell matrix has no legal board shape. */
  datatype BoardError = SizeOutOfBounds(size: nat, min: nat, max: nat) | NotSquare(size: nat, row: nat)

  /** Why loading failed; the source reports all three as `InvalidData` with a message. */
  datatype LoadError = InvalidColor(value: byte) | InvalidBoard(error: BoardError) | CurrentPlayerIsZero

  /** The board sizes `Board::new` accepts. */
  const MIN_SIZE: nat := 2
  const MAX_SIZE: nat := 19

  /** The stored form of a game: its size, the code of the player to move and the cell codes. */
  datatype StoredGame = StoredGame(size: byte, currentPlayer: byte, cells: seq<seq<byte>>)

  /** `serialize_color`: the codes are 0, 1 and 2, one per colour. */
  function SerializeColor(color: Option<Color>): (b: byte)
    ensures b <= 2
    ensures b == 0 <==> color.None?
    ensures b == 1 <==> color == Some(Black)
    ensures b == 2 <==> color == Some(White)
  {
    match color
    case None => 0
    case Some(Black) => 1
    case Some(White) => 2
  }

  /** `deserialize_color`: codes above 2 are rejected; the others decode to what encodes to them. */
  function DeserializeColor(b: byte): (r: Result<Option<Color>, LoadError>)
    ensures r.Err? <==> b > 2
    ensures r.Err? ==> r.error == InvalidColor(b)
    ensures r.Ok? ==> SerializeColor(r.value) == b
  {
    match b
    case 0 => Ok(None)
    case 1 => Ok(Some(Black))
    case 2 => Ok(Some(White))
    case _ => Err(InvalidColor(b))
  }

  lemma ColorRoundTrip(color: Option<Color>)
    ensures DeserializeColor(SerializeColor(color)) == Ok(color)
  {
  }

  /** The first position of the row holding a code above 2. */
  ghost predicate FirstInvalid(row: seq<byte>, i: nat) {
    i < |row| && row[i] > 2 && forall j :: 0 <= j < i ==> row[j] <= 2
  }

  predicate AllValid(row: seq<byte>) {
    forall i :: 0 <= i < |row| ==> row[i] <= 2
  }

  /** `store_row`: one code per cell, in order. */
  function StoreRow(row: seq<Option<Color>>): (r: seq<byte>)
    ensures |r| == |row| && AllValid(r)
    ensures forall i :: 0 <= i < |row| ==> r[i] == SerializeColor(row[i])
  {
    if row == [] then [] else [SerializeColor(row[0])] + StoreRow(row[1..])
  }

  /**
   * `load_row`: collecting the decoded cells stops at the first bad code and reports it;
   * it succeeds exactly when every code is at most 2, and then storing gives the row back.
   */
  function LoadRow(row: seq<byte>): (r: Result<seq<Option<Color>>, LoadError>)
    ensures r.Ok? <==> AllValid(row)
    ensures r.Ok? ==> |r.value| == |row| && StoreRow(r.value) == row
    ensures r.Err? ==> exists i: nat :: FirstInvalid(row, i) && r.error == InvalidColor(row[i])
  {
    if row == [] then Ok([])
    else
      match DeserializeColor(row[0])
      case Err(e) =>
        assert FirstInvalid(row, 0);
        Err(e)
      case Ok(c) =>
        match LoadRow(row[1..])
        case Err(e) =>
          ghost var i: nat :| FirstInvalid(row[1..], i) && e == InvalidColor(row[1..][i]);
          assert FirstInvalid(row, i + 1);
          Err(e)
        case Ok(cs) =>
          assert StoreRow([c] + cs) == [SerializeColor(c)] + StoreRow(cs) by {
            assert ([c] + cs)[1..] == cs;
          }
          assert row == [row[0]] + row[1..];
          Ok([c] + cs)
  }

  lemma {:induction false} RowRoundTrip(row: seq<Option<Color>>)
    ensures LoadRow(StoreRow(row)) == Ok(row)
  {
    if row != [] {
      var stored := StoreRow(row);
      assert stored == [SerializeColor(row[0])] + StoreRow(row[1..]);
      assert stored[1..] == StoreRow(row[1..]);
      ColorRoundTrip(row[0]);
      RowRoundTrip(row[1..]);
      assert LoadRow(stored) == Ok([row[0]] + row[1..]);
      assert [row[0]] + row[1..] == row;
    }
  }

  /** Every code of every row is at most 2. */
  predicate AllRowsValid(cells: seq<seq<byte>>) {
    forall i :: 0 <= i < |cells| ==> AllValid(cells[i])
  }

  /** `store_cells`: one stored row per row, each as `store_row` gives it. */
  function StoreCells(cells: seq<seq<Option<Color>>>): (r: seq<seq<byte>>)
    ensures |r| == |cells| && AllRowsValid(r)
    ensures forall i :: 0 <= i < |cells| ==> r[i] == StoreRow(cells[i]) && |r[i]| == |cells[i]|
  {
    if cells == [] then [] else [StoreRow(cells[0])] + StoreCells(cells[1..])
  }

  /** Valid first rows of the tail, after a valid head, are valid first rows of the whole. */
  lemma ValidRowsShift(cells: seq<seq<byte>>, i: nat)
    requires 0 < |cells| && i < |cells| && AllValid(cells[0])
    requires forall k :: 0 <= k < i ==> AllValid(cells[1..][k])
    ensures forall k :: 0 <= k < i + 1 ==> AllValid(cells[k])
  {
    forall k | 0 <= k < i + 1 ensures AllValid(cells[k]) {
      if k > 0 { assert cells[k] == cells[1..][k - 1]; }
    }
  }

  /**
   * `load_cells`: it fails exactly when some code is above 2; otherwise it keeps the number
   * of rows and every row's length, and storing gives the codes back.
   */
  function LoadCells(cells: seq<seq<byte>>): (r: Result<seq<seq<Option<Color>>>, LoadError>)
    ensures r.Ok? <==> AllRowsValid(cells)
    ensures r.Ok? ==> |r.value| == |cells| && StoreCells(r.value) == cells
    ensures r.Ok? ==> forall i :: 0 <= i < |cells| ==> |r.value[i]| == |cells[i]|
    ensures r.Err? ==> exists i: nat, j: nat ::
      (i < |cells| && FirstInvalid(cells[i], j) &&
       (forall k :: 0 <= k < i ==> AllValid(cells[k])) && r.error == InvalidColor(cells[i][j]))
  {
    if cells == [] then Ok([])
    else
      match LoadRow(cells[0])
      case Err(e) =>
        ghost var j: nat :| FirstInvalid(cells[0], j) && e == InvalidColor(cells[0][j]);
        Err(e)
      case Ok(row) =>
        match LoadCells(cells[1..])
        case Err(e) =>
          ghost var i: nat, j: nat :| i < |cells[1..]| && FirstInvalid(cells[1..][i], j) &&
            (forall k :: 0 <= k < i ==> AllValid(cells[1..][k])) && e == InvalidColor(cells[1..][i][j]);
          assert cells[i + 1] == cells[1..][i];
          ValidRowsShift(cells, i);
          Err(e)
        case Ok(rows) =>
          assert StoreCells([row] + rows) == [StoreRow(row)] + StoreCells(rows) by {
            assert ([row] + rows)[1..] == rows;
          }
          assert cells == [cells[0]] + cells[1..];
          Ok([row] + rows)
  }

  lemma {:induction false} CellsRoundTrip(cells: seq<seq<Option<Color>>>)
    ensures LoadCells(StoreCells(cells)) == Ok(cells)
  {
    if cells != [] {
      RowRoundTrip(cells[0]);
      CellsRoundTrip(cells[1..]);
      assert StoreCells(cells)[1..] == StoreCells(cells[1..]);
      assert [cells[0]] + cells[1..] == cells;
    }
  }

  /** Every row is as long as there are rows. */
  ghost predicate IsSquare<T>(cells: seq<seq<T>>) {
    forall i :: 0 <= i < |cells| ==> |cells[i]| == |cells|
  }

  /** The first row from `from` on whose length is not n, if there is one. */
  function FirstBadRow<T>(cells: seq<seq<T>>, n: nat, from: nat): (r: Option<nat>)
    requires from <= |cells|
    decreases |cells| - from
    ensures r.None? <==> forall i :: from <= i < |cells| ==> |cells[i]| == n
    ensures r.Some? ==> from <= r.value < |cells| && |cells[r.value]| != n
    ensures r.Some? ==> forall i :: from <= i < r.value ==> |cells[i]| == n
  {
    if from == |cells| then None
    else if |cells[from]| != n then Some(from)
    else FirstBadRow(cells, n, from + 1)
  }

  /** Only the row lengths matter for the search. */
  lemma {:induction false} FirstBadRowByLengths<T, U>(a: seq<seq<T>>, b: seq<seq<U>>, n: nat, from: nat)
    requires from <= |a| && |a| == |b| && forall i :: 0 <= i < |a| ==> |a[i]| == |b[i]|
    decreases |a| - from
    ensures FirstBadRow(a, n, from) == FirstBadRow(b, n, from)
  {
    if from < |a| {
      FirstBadRowByLengths(a, b, n, from + 1);
    }
  }

  /**
   * The shape validation of `Board::from_cells`: the number of rows must be a board size,
   * then every row must have that many cells; the first row that has not is reported.
   */
  function CheckBoardShape<T>(cells: seq<seq<T>>): (r: Result<(), BoardError>)
    ensures r.Ok? <==> MIN_SIZE <= |cells| <= MAX_SIZE && IsSquare(cells)
    ensures !(MIN_SIZE <= |cells| <= MAX_SIZE) ==> r == Err(SizeOutOfBounds(|cells|, MIN_SIZE, MAX_SIZE))
    ensures MIN_SIZE <= |cells| <= MAX_SIZE && r.Err? ==>
      exists i :: 0 <= i < |cells| && |cells[i]| != |cells| &&
        (forall k :: 0 <= k < i ==> |cells[k]| == |cells|) && r.error == NotSquare(|cells|, i)
  {
    if |cells| < MIN_SIZE || |cells| > MAX_SIZE then Err(SizeOutOfBounds(|cells|, MIN_SIZE, MAX_SIZE))
    else
      match FirstBadRow(cells, |cells|, 0)
      case None => Ok(())
      case Some(i) => Err(NotSquare(|cells|, i))
  }

  /** The current player on load: a bad code is an error and so is 0, an empty cell's code. */
  function LoadCurrentPlayer(b: byte): (r: Result<Color, LoadError>)
    ensures r.Ok? <==> b == 1 || b == 2
    ensures r == Err(CurrentPlayerIsZero) <==> b == 0
    ensures b > 2 ==> r == Err(InvalidColor(b))
    ensures r.Ok? ==> SerializeColor(Some(r.value)) == b
  {
    match DeserializeColor(b)
    case Err(e) => Err(e)
    case Ok(None) => Err(CurrentPlayerIsZero)
    case Ok(Some(c)) => Ok(c)
  }

  /** The codec half of `save_to_json`: the size, the mover's code and the stored cells. */
  function SaveGame(size: byte, currentPlayer: Color, cells: seq<seq<Option<Color>>>): (s: StoredGame)
    ensures s.size == size && s.currentPlayer != 0 && AllRowsValid(s.cells)
  {
    StoredGame(size, SerializeColor(Some(currentPlayer)), StoreCells(cells))
  }

  /**
   * The codec half of `load_from_json`: the cells are loaded first and their errors win,
   * then the board shape is checked, then the player to move. The stored size is not consulted.
   */
  function LoadGame(s: StoredGame): (r: Result<(seq<seq<Option<Color>>>, Color), LoadError>)
    ensures r.Ok? <==> AllRowsValid(s.cells) && MIN_SIZE <= |s.cells| <= MAX_SIZE && IsSquare(s.cells) &&
                       (s.currentPlayer == 1 || s.currentPlayer == 2)
    ensures !AllRowsValid(s.cells) ==> r.Err? && Err(r.error) == LoadCells(s.cells)
    ensures AllRowsValid(s.cells) && CheckBoardShape(s.cells).Err? ==>
      r == Err(InvalidBoard(CheckBoardShape(s.cells).error))
    ensures AllRowsValid(s.cells) && CheckBoardShape(s.cells).Ok? && s.currentPlayer == 0 ==>
      r == Err(CurrentPlayerIsZero)
    ensures AllRowsValid(s.cells) && CheckBoardShape(s.cells).Ok? && s.currentPlayer > 2 ==>
      r == Err(InvalidColor(s.currentPlayer))
    ensures r.Ok? ==> SaveGame(s.size, r.value.1, r.value.0) == s
  {
    match LoadCells(s.cells)
    case Err(e) => Err(e)
    case Ok(cells) =>
      FirstBadRowByLengths(cells, s.cells, |cells|, 0);
      match CheckBoardShape(cells)
      case Err(e) => Err(InvalidBoard(e))
      case Ok(_) =>
        match LoadCurrentPlayer(s.currentPlayer)
        case Err(e) => Err(e)
        case Ok(player) => Ok((cells, player))
  }

  /** Saving and loading a game with a square board of a legal size gives back its cells and its player to move. */
  lemma GameRoundTrip(size: byte, currentPlayer: Color, cells: seq<seq<Option<Color>>>)
    requires MIN_SIZE <= |cells| <= MAX_SIZE && IsSquare(cells)
    ensures LoadGame(SaveGame(size, currentPlayer, cells)) == Ok((cells, currentPlayer))
  {
    CellsRoundTrip(cells);
  }

  /** The unit tests of src/serialize.rs on a 2 x 2 game with Black at (0, 1) and White at (1, 0). */
  lemma SerializeExample()
    ensures SaveGame(2, Black, [[None, Some(Black)], [Some(White), None]]) == StoredGame(2, 1, [[0, 1], [2, 0]])
    ensures LoadGame(StoredGame(2, 1, [[0, 1], [2, 0]])) == Ok(([[None, Some(Black)], [Some(White), None]], Black))
    ensures LoadGame(StoredGame(2, 2, [[1, 0], [0, 0]])).Ok? && LoadGame(StoredGame(2, 2, [[1, 0], [0, 0]])).value.1 == White
  {
    var cells := [[None, Some(Black)], [Some(White), None]];
    assert StoreRow(cells[0]) == [0, 1] && StoreRow(cells[1]) == [2, 0];
    assert StoreCells(cells) == [[0, 1], [2, 0]];
    GameRoundTrip(2, Black, cells);
    WhiteToMoveExample();
  }

  /** The load test with White to move. */
  lemma WhiteToMoveExample()
    ensures LoadGame(StoredGame(2, 2, [[1, 0], [0, 0]])).Ok?
    ensures LoadGame(StoredGame(2, 2, [[1, 0], [0, 0]])).value.1 == White
  {
    var stored: seq<seq<byte>> := [[1, 0], [0, 0]];
    assert AllRowsValid(stored) by {
      assert AllValid(stored[0]) && AllValid(stored[1]);
    }
    assert IsSquare(stored) by {
      assert |stored[0]| == 2 && |stored[1]| == 2;
    }
    var loaded := LoadGame(StoredGame(2, 2, stored));
    assert SerializeColor(Some(loaded.value.1)) == 2;
  }

  /** A stored game whose cells have no board shape is rejected before its player is read. */
  lemma LoadGameShapeExample()
    ensures LoadGame(StoredGame(2, 1, [[0, 1]])) == Err(InvalidBoard(SizeOutOfBounds(1, 2, 19)))
    ensures LoadGame(StoredGame(2, 0, [[0, 1], [0]])) == Err(InvalidBoard(NotSquare(2, 1)))
  {
    assert AllRowsValid([[0, 1]]) by {
      assert AllValid([0, 1]);
    }
    var cells := [[0, 1], [0]];
    assert AllRowsValid(cells) by {
      assert AllValid(cells[0]) && AllValid(cells[1]);
    }
    assert FirstBadRow(cells, 2, 0) == Some(1);
  }
}
