/** The two players' stone colours (src/color.rs). */
module Colors {
  datatype Color = Black | White

  /** The other player's colour. */
  function Opponent(c: Color): (r: Color)
    ensures r != c
    ensures c == Black <==> r == White
  {
    match c
    case Black => White
    case White => Black
  }

  lemma OpponentIsInvolution(c: Color)
    ensures Opponent(Opponent(c)) == c
  {
  }
}
