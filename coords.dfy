/**
 * Cell coordinates and their text notation (src/coords.rs): a column letter followed by
 * the one-based row number, as in "a1" or "f13".
 */
module Coordinates {
  import opened Wrappers

  /** A zero-based cell position. Both parts are `u8` in the source. */
  datatype Coords = Coords(row: nat, column: nat)

  /** `is_on_board_with_size`: on-board coordinates flatten to a row-major index below size * size. */
  predicate IsOnBoardWithSize(c: Coords, size: nat): (r: bool)
    ensures r ==> c.row * size + c.column < size * size
  {
    RowMajorBound(c.row, c.column, size);
    c.row < size && c.column < size
  }

  lemma RowMajorBound(row: nat, column: nat, size: nat)
    ensures row < size && column < size ==> row * size + column < size * size
  {
    if row < size && column < size {
      assert (row + 1) * size == row * size + size;
      assert (row + 1) * size <= size * size by {
        MulMonotone(row + 1, size, size);
      }
    }
  }

  lemma MulMonotone(a: nat, b: nat, k: nat)
    requires a <= b
    ensures a * k <= b * k
  {
  }

  // ----- column letters -----

  /** Letters 'a'..'z' name columns 0..25; every other character is rejected. */
  function ParseColumnChar(c: char): (r: Option<nat>)
    ensures r.Some? <==> 'a' <= c <= 'z'
    ensures r.Some? ==> r.value < 26 && ToColumnChar(r.value) == c
  {
    if 'a' <= c <= 'z' then Some(c as int - 'a' as int) else None
  }

  /**
   * `to_column_char`: the character `column` places after 'a'; the letters 'a'..'z' are
   * exactly the columns below 26. The `u8` addition overflows above 158.
   */
  function ToColumnChar(column: nat): (r: char)
    requires column <= 158
    ensures r as int - 'a' as int == column
    ensures 'a' <= r <= 'z' <==> column < 26
  {
    ('a' as int + column) as char
  }

  lemma ColumnCharRoundTrip(column: nat)
    requires column < 26
    ensures ParseColumnChar(ToColumnChar(column)) == Some(column)
  {
  }

  // ----- decimal numbers -----

  predicate IsDigit(c: char) {
    '0' <= c <= '9'
  }

  predicate AllDigits(s: string) {
    forall i :: 0 <= i < |s| ==> IsDigit(s[i])
  }

  function DigitChar(d: nat): (c: char)
    requires d < 10
    ensures IsDigit(c) && c as int - '0' as int == d
  {
    ('0' as int + d) as char
  }

  /** The value of a string of decimal digits, most significant first. */
  function DigitsValue(s: string): nat
    requires AllDigits(s)
  {
    if |s| == 0 then 0
    else DigitsValue(s[..|s| - 1]) * 10 + (s[|s| - 1] as int - '0' as int)
  }

  /** The decimal text of n without leading zeros, as Rust's `{}` prints an integer. */
  function DecimalString(n: nat): (s: string)
    ensures |s| >= 1 && AllDigits(s)
    ensures DigitsValue(s) == n
    ensures s[0] == '0' ==> n == 0
    decreases n
  {
    if n < 10 then [DigitChar(n)]
    else
      var prefix := DecimalString(n / 10);
      var s := prefix + [DigitChar(n % 10)];
      assert s[..|s| - 1] == prefix;
      s
  }

  /**
   * `str::parse::<u8>`: an optional '+' and then one or more decimal digits whose value
   * fits in a byte. Leading zeros are accepted.
   */
  function ParseU8(s: string): (r: Option<nat>)
    ensures r.Some? ==> r.value < 256
  {
    var digits := if |s| > 1 && s[0] == '+' then s[1..] else s;
    if |digits| > 0 && AllDigits(digits) && DigitsValue(digits) < 256 then Some(DigitsValue(digits))
    else None
  }

  lemma {:induction false} ParseDecimalString(n: nat)
    requires n < 256
    ensures ParseU8(DecimalString(n)) == Some(n)
  {
    var s := DecimalString(n);
    assert s[0] != '+' by {
      assert IsDigit(s[0]);
    }
  }

  // ----- Coords text notation -----

  /** `Coords::from_str`: the first character gives the column, the rest the one-based row. */
  function FromStr(s: string): (r: Option<Coords>)
    ensures r.Some? ==> r.value.column < 26 && r.value.row < 255
    ensures r.Some? <==> |s| >= 1 && 'a' <= s[0] <= 'z' && ParseU8(s[1..]).Some? && ParseU8(s[1..]).value > 0
    ensures r.Some? ==> ToColumnChar(r.value.column) == s[0] && ParseU8(s[1..]) == Some(r.value.row + 1)
  {
    var column := if |s| == 0 then None else ParseColumnChar(s[0]);
    var row :=
      if |s| == 0 then None
      else match ParseU8(s[1..])
        case Some(v) => if 0 < v then Some(v - 1) else None
        case None => None;
    if column.Some? && row.Some? then Some(Coords(row.value, column.value)) else None
  }

  /** `Display for Coords`: column letter, then the decimal row plus one. */
  function ToString(c: Coords): (r: string)
    requires c.column <= 158 && c.row < 255
    ensures |r| >= 2 && r[0] == ToColumnChar(c.column)
    ensures r[1..] == DecimalString(c.row + 1)
    ensures ParseU8(r[1..]) == Some(c.row + 1)
  {
    ParseDecimalString(c.row + 1);
    var r := [ToColumnChar(c.column)] + DecimalString(c.row + 1);
    assert r[1..] == DecimalString(c.row + 1);
    r
  }

  lemma {:induction false} FromStrToString(c: Coords)
    requires c.column < 26 && c.row < 255
    ensures FromStr(ToString(c)) == Some(c)
  {
    var s := ToString(c);
    assert s[1..] == DecimalString(c.row + 1);
    ParseDecimalString(c.row + 1);
    ColumnCharRoundTrip(c.column);
  }

  lemma ToStringExamples()
    ensures ToString(Coords(0, 0)) == "a1"
    ensures ToString(Coords(12, 5)) == "f13"
  {
    assert DecimalString(13) == DecimalString(1) + [DigitChar(3)];
  }

  lemma FromStrExamples()
    ensures FromStr("a1") == Some(Coords(0, 0))
    ensures FromStr("f13") == Some(Coords(12, 5))
    ensures FromStr("a01") == Some(Coords(0, 0))
  {
    assert "13"[..1] == "1";
    assert "01"[..1] == "0";
  }

  lemma FromStrRejects()
    ensures FromStr("") == None
    ensures FromStr("abc") == None
    ensures FromStr("A2") == None
    ensures FromStr("a0") == None
    ensures FromStr("ä2") == None
  {
    assert !IsDigit("bc"[0]);
  }
}
