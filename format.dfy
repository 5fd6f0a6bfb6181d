/**
 * The board pretty-printer (src/format.rs): a line of column letters, one line per row
 * shifted right by the row number, and the column letters again under the last row. The
 * `Formatter` is modelled as a string that the writers append to.
 */
module Formatting {
  import opened Wrappers
  import opened Colors
  import opened Coordinates
  import Boards
  import HexCells

  /** `char_for_color`: a filled disc for Black, a hollow one for White, a dot for empty. */
  function CharForColor(color: Option<Color>): (ch: char)
    ensures ch == '.' <==> color.None?
    ensures ch == '●' <==> color == Some(Black)
    ensures ch == '○' <==> color == Some(White)
  {
    match color
    case Some(Black) => '●'
    case Some(White) => '○'
    case None => '.'
  }

  /** `write_indent`: the given number of spaces. */
  function Indent(length: nat): (s: string)
    ensures |s| == length && forall i :: 0 <= i < length ==> s[i] == ' '
  {
    seq(length, _ => ' ')
  }

  predicate NoNewline(s: string) {
    forall i :: 0 <= i < |s| ==> s[i] != '\n'
  }

  /** A string that is exactly one line: it ends in the only newline it holds. */
  predicate IsLine(s: string) {
    |s| > 0 && s[|s| - 1] == '\n' && NoNewline(s[..|s| - 1])
  }

  /** The colour of the cell at (row, column) in a row-major grid of colours. */
  function ColorAt(cells: seq<Option<Color>>, size: nat, row: nat, column: nat): Option<Color>
    requires |cells| == size * size && row < size && column < size
  {
    assert IsOnBoardWithSize(Coords(row, column), size);
    cells[row * size + column]
  }

  // ----- the text, as functions -----

  /** The labels " a  b  c " ... of the first `columns` columns. */
  function Labels(columns: nat): string
    requires columns <= 159
  {
    if columns == 0 then "" else Labels(columns - 1) + [' ', ToColumnChar(columns - 1), ' ']
  }

  /** The text that `write_column_labels` writes. */
  function LabelLine(size: nat, indent: nat): string
    requires size <= 159
  {
    Indent(indent) + Labels(size) + "\n"
  }

  /** The cells of the first `columns` columns of a row, separated by two spaces. */
  function CellChars(cells: seq<Option<Color>>, size: nat, row: nat, columns: nat): string
    requires |cells| == size * size && row < size && columns <= size
  {
    if columns == 0 then ""
    else
      CellChars(cells, size, row, columns - 1) + (if columns - 1 > 0 then "  " else "") +
      [CharForColor(ColorAt(cells, size, row, columns - 1))]
  }

  /** The beginning of a row's line: indent, one-based row number and a backslash. */
  function RowPrefix(row: nat): string {
    Indent(row) + DecimalString(row + 1) + "\\"
  }

  /** The text that `write_row` writes. */
  function RowLine(cells: seq<Option<Color>>, size: nat, row: nat): string
    requires |cells| == size * size && row < size
  {
    RowPrefix(row) + CellChars(cells, size, row, size) + "\\" + DecimalString(row + 1) + "\n"
  }

  /** The header line followed by the lines of the first `rows` rows. */
  function BoardHead(cells: seq<Option<Color>>, size: nat, rows: nat): string
    requires |cells| == size * size && rows <= size && size <= 159
  {
    if rows == 0 then LabelLine(size, 0) else BoardHead(cells, size, rows - 1) + RowLine(cells, size, rows - 1)
  }

  /** The whole text of `Display for Board`. */
  function BoardText(cells: seq<Option<Color>>, size: nat): string
    requires |cells| == size * size && size <= 159
  {
    BoardHead(cells, size, size) + LabelLine(size, size + 1)
  }

  // ----- the writers -----

  /** `write_column_labels`: the indent, then " x " per column, then a newline. */
  method WriteColumnLabels(out: string, boardSize: nat, indent: nat) returns (s: string)
    requires boardSize <= 159
    ensures s == out + LabelLine(boardSize, indent)
  {
    s := out + Indent(indent);
    for column := 0 to boardSize
      invariant s == out + Indent(indent) + Labels(column)
    {
      s := s + [' ', ToColumnChar(column), ' '];
    }
    s := s + "\n";
  }

  /** `write_row`: the row's prefix, its cells two spaces apart, a backslash and the row number. */
  method WriteRow(out: string, board: Boards.Board, row: nat) returns (s: string)
    requires board.Valid() && row < board.Size()
    ensures s == out + RowLine(board.colors[..board.Size() * board.Size()], board.Size(), row)
  {
    var size := board.Size();
    ghost var cells := board.colors[..size * size];
    s := out + RowPrefix(row);
    for column := 0 to size
      invariant s == out + RowPrefix(row) + CellChars(cells, size, row, column)
    {
      if column > 0 {
        s := s + "  ";
      }
      var color := board.GetColor(Coords(row, column));
      assert color == ColorAt(cells, size, row, column) by {
        assert IsOnBoardWithSize(Coords(row, column), size);
      }
      s := s + [CharForColor(color)];
    }
    s := s + "\\" + DecimalString(row + 1) + "\n";
  }

  /** `Display for Board`: the labels, every row and the labels again, indented by size + 1. */
  method Format(board: Boards.Board) returns (s: string)
    requires board.Valid()
    ensures s == BoardText(board.colors[..board.Size() * board.Size()], board.Size())
  {
    var size := board.Size();
    ghost var cells := board.colors[..size * size];
    s := WriteColumnLabels("", size, 0);
    assert s == LabelLine(size, 0);
    for row := 0 to size
      invariant s == BoardHead(cells, size, row)
    {
      s := WriteRow(s, board, row);
    }
    s := WriteColumnLabels(s, size, size + 1);
  }

  // ----- what the text looks like -----

  /** Column c's letter sits in the middle of the c-th three-character slot. */
  lemma {:induction false} LabelsShape(columns: nat)
    requires columns <= 159
    ensures |Labels(columns)| == 3 * columns && NoNewline(Labels(columns))
    ensures forall c :: 0 <= c < columns ==>
      Labels(columns)[3 * c] == ' ' && Labels(columns)[3 * c + 1] == ToColumnChar(c) && Labels(columns)[3 * c + 2] == ' '
  {
    if columns > 0 {
      LabelsShape(columns - 1);
      var prefix := Labels(columns - 1);
      assert Labels(columns)[..3 * (columns - 1)] == prefix;
      forall c | 0 <= c < columns - 1
        ensures Labels(columns)[3 * c + 1] == prefix[3 * c + 1]
      {
      }
    }
  }

  /**
   * A label line is one line: `indent` spaces, then the letter of column c at offset
   * indent + 3c + 1 between two spaces.
   */
  lemma LabelLineShape(size: nat, indent: nat)
    requires size <= 159
    ensures IsLine(LabelLine(size, indent)) && |LabelLine(size, indent)| == indent + 3 * size + 1
    ensures forall i :: 0 <= i < indent ==> LabelLine(size, indent)[i] == ' '
    ensures forall c :: 0 <= c < size ==> LabelLine(size, indent)[indent + 3 * c + 1] == ToColumnChar(c)
  {
    LabelsShape(size);
    var line := LabelLine(size, indent);
    assert line[..|line| - 1] == Indent(indent) + Labels(size);
    forall c | 0 <= c < size
      ensures line[indent + 3 * c + 1] == ToColumnChar(c)
    {
      assert line[indent + 3 * c + 1] == Labels(size)[3 * c + 1];
    }
  }

  /** The cell of column c sits at offset 3c, and two spaces separate neighbouring cells. */
  lemma {:induction false} CellCharsShape(cells: seq<Option<Color>>, size: nat, row: nat, columns: nat)
    requires |cells| == size * size && row < size && columns <= size
    ensures |CellChars(cells, size, row, columns)| == if columns == 0 then 0 else 3 * columns - 2
    ensures NoNewline(CellChars(cells, size, row, columns))
    ensures forall c :: 0 <= c < columns ==>
      CellChars(cells, size, row, columns)[3 * c] == CharForColor(ColorAt(cells, size, row, c))
  {
    if columns > 0 {
      CellCharsShape(cells, size, row, columns - 1);
      var prefix := CellChars(cells, size, row, columns - 1);
      var text := CellChars(cells, size, row, columns);
      assert text[..|prefix|] == prefix;
      forall c | 0 <= c < columns - 1
        ensures text[3 * c] == prefix[3 * c]
      {
      }
    }
  }

  /**
   * A row's text is one line; after the indent of `row` spaces, the row number and a
   * backslash, the cell of column c is at offset 3c.
   */
  lemma RowLineShape(cells: seq<Option<Color>>, size: nat, row: nat)
    requires |cells| == size * size && row < size
    ensures IsLine(RowLine(cells, size, row))
    ensures forall i :: 0 <= i < row ==> RowLine(cells, size, row)[i] == ' '
    ensures var start := row + |DecimalString(row + 1)| + 1;
      forall c :: 0 <= c < size ==>
        start + 3 * c < |RowLine(cells, size, row)| &&
        RowLine(cells, size, row)[start + 3 * c] == CharForColor(ColorAt(cells, size, row, c))
  {
    CellCharsShape(cells, size, row, size);
    var number := DecimalString(row + 1);
    var chars := CellChars(cells, size, row, size);
    var line := RowLine(cells, size, row);
    assert NoNewline(number) by {
      assert forall i :: 0 <= i < |number| ==> IsDigit(number[i]);
    }
    assert line[..|line| - 1] == Indent(row) + number + "\\" + chars + "\\" + number;
    var start := row + |number| + 1;
    forall c | 0 <= c < size
      ensures line[start + 3 * c] == CharForColor(ColorAt(cells, size, row, c))
    {
      assert line[start + 3 * c] == chars[3 * c];
    }
  }

  /** The concatenation of a sequence of lines. */
  function Concat(lines: seq<string>): string {
    if lines == [] then "" else Concat(lines[..|lines| - 1]) + lines[|lines| - 1]
  }

  /** The board's lines: the labels, one per row, and the labels again. */
  function BoardLines(cells: seq<Option<Color>>, size: nat): (lines: seq<string>)
    requires |cells| == size * size && size <= 159
    ensures |lines| == size + 2
  {
    [LabelLine(size, 0)] + seq(size, r requires 0 <= r < size => RowLine(cells, size, r)) + [LabelLine(size, size + 1)]
  }

  /** The header and the first `rows` row lines, concatenated. */
  lemma {:induction false} BoardHeadConcat(cells: seq<Option<Color>>, size: nat, rows: nat)
    requires |cells| == size * size && rows <= size && size <= 159
    ensures BoardHead(cells, size, rows) == Concat(BoardLines(cells, size)[..rows + 1])
  {
    var lines := BoardLines(cells, size);
    if rows == 0 {
      assert lines[..1] == [LabelLine(size, 0)];
      assert lines[..1][..0] == [];
    } else {
      BoardHeadConcat(cells, size, rows - 1);
      assert lines[..rows + 1][..rows] == lines[..rows];
      assert lines[rows] == RowLine(cells, size, rows - 1);
    }
  }

  /**
   * The printed board is a header line, one line per row and a footer line, each a single
   * line: size + 2 lines in all.
   */
  lemma BoardTextLines(cells: seq<Option<Color>>, size: nat)
    requires |cells| == size * size && size <= 159
    ensures BoardText(cells, size) == Concat(BoardLines(cells, size))
    ensures forall i :: 0 <= i < size + 2 ==> IsLine(BoardLines(cells, size)[i])
  {
    var lines := BoardLines(cells, size);
    BoardHeadConcat(cells, size, size);
    assert lines[..size + 1] == lines[..|lines| - 1];
    LabelLineShape(size, 0);
    LabelLineShape(size, size + 1);
    forall i | 0 <= i < size + 2
      ensures IsLine(lines[i])
    {
      if 0 < i <= size {
        assert lines[i] == RowLine(cells, size, i - 1);
        RowLineShape(cells, size, i - 1);
      }
    }
  }

  /** The grid of the unit test of src/format.rs: Black at a1 and White at b3 on a 3 x 3 board. */
  const ExampleCells: seq<Option<Color>> := [Some(Black), None, None, None, None, None, None, Some(White), None]

  lemma ExampleLabelLines()
    ensures LabelLine(3, 0) == " a  b  c \n" && LabelLine(3, 4) == "     a  b  c \n"
  {
    assert Labels(3) == " a  b  c ";
  }

  lemma ExampleFirstRow()
    ensures RowLine(ExampleCells, 3, 0) == "1\\●  .  .\\1\n"
  {
    assert CellChars(ExampleCells, 3, 0, 3) == "●  .  .";
  }

  lemma ExampleSecondRow()
    ensures RowLine(ExampleCells, 3, 1) == " 2\\.  .  .\\2\n"
  {
    assert CellChars(ExampleCells, 3, 1, 3) == ".  .  .";
  }

  lemma ExampleThirdRow()
    ensures RowLine(ExampleCells, 3, 2) == "  3\\.  ○  .\\3\n"
  {
    assert CellChars(ExampleCells, 3, 2, 3) == ".  ○  .";
  }

  /** The unit test of src/format.rs: the text of that board, line by line as the test writes it. */
  lemma FormatExampleText()
    ensures BoardText(ExampleCells, 3) ==
      " a  b  c \n" +
      "1\\●  .  .\\1\n" +
      " 2\\.  .  .\\2\n" +
      "  3\\.  ○  .\\3\n" +
      "     a  b  c \n"
  {
    ExampleLabelLines();
    ExampleFirstRow();
    ExampleSecondRow();
    ExampleThirdRow();
  }

  /** A move on an empty cell of the board, seen only through the colours it changes. */
  method PlaceExampleStone(board: Boards.Board, c: Coords, color: Color)
    requires board.Valid() && IsOnBoardWithSize(c, board.Size())
    requires board.colors[HexCells.IndexFromCoords(board.Size(), c)].None?
    modifies board, board.cells.items
    ensures board.Valid()
    ensures board.colors == old(board.colors)[HexCells.IndexFromCoords(board.Size(), c) := Some(color)]
  {
    assert board.GetColor(c).None?;
    var placed := board.Play(c, color);
  }

  /**
   * The board of that test, built with `Board::play`: Black at a1 and White at b3, on a
   * board of any size from 3 up.
   */
  method ExampleBoard(size: nat) returns (board: Boards.Board)
    requires 3 <= size <= 19
    ensures board.Valid() && board.Size() == size && |board.colors| == size * size + 4
    ensures forall i :: 0 <= i < size * size ==>
      board.colors[i] == if i == 0 then Some(Black) else if i == 2 * size + 1 then Some(White) else None
  {
    board := new Boards.Board(size);
    PlaceExampleStone(board, Coords(0, 0), Black);
    PlaceExampleStone(board, Coords(2, 1), White);
  }

  lemma ExampleColors(cells: seq<Option<Color>>)
    requires |cells| == 9
    requires forall i :: 0 <= i < 9 ==> cells[i] == if i == 0 then Some(Black) else if i == 7 then Some(White) else None
    ensures cells == ExampleCells
  {
  }

  /** That board prints as that text. */
  method FormatExample() returns (text: string)
    ensures text ==
      " a  b  c \n" +
      "1\\●  .  .\\1\n" +
      " 2\\.  .  .\\2\n" +
      "  3\\.  ○  .\\3\n" +
      "     a  b  c \n"
  {
    var board := ExampleBoard(3);
    text := Format(board);
    ExampleColors(board.colors[..9]);
    FormatExampleText();
  }
}
