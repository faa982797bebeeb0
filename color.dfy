/** The two players (core.color). */
module Colors {
  import opened Wrappers

  datatype Color = Black | White

  /** `Color.next(color)`: the opponent. */
  function Next(c: Color): (n: Color)
    ensures n != c
  {
    match c
    case Black => White
    case White => Black
  }

  /** The integer code of a colour in a layout (`color.value`). */
  function Value(c: Color): int
  {
    match c
    case Black => 1
    case White => 2
  }

  /** `Color(code)`, with the `ValueError` of an unknown code turned into `None`. */
  function FromCode(code: int): (r: Option<Color>)
    ensures r.Some? <==> code == Value(Black) || code == Value(White)
    ensures r.Some? ==> Value(r.value) == code
  {
    if code == 1 then Some(Black)
    else if code == 2 then Some(White)
    else None
  }

  lemma NextInvolution(c: Color)
    ensures Next(Next(c)) == c
  {
  }

  /** With two players, any colour but `c` is the opponent of `c`. */
  lemma OtherIsNext(c: Color, x: Color)
    ensures x != c ==> x == Next(c)
  {
  }

  lemma CodeRoundTrip(c: Color)
    ensures FromCode(Value(c)) == Some(c)
  {
  }
}
