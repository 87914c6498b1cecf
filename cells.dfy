/**
 * Table cells and the safe numeric conversion `tryconvert` (clean_data.py:17-25).
 */
module Cells {
  import opened Wrappers

  /** What a present cell holds: the raw CSV token, or a number once converted. */
  datatype Value = Token(text: string) | Number(x: real)

  /** A table cell; None is the missing marker the source writes as np.nan. */
  type Cell = Option<Value>

  /**
   * The number parser `np.float64(str)`, kept abstract: None means that it raises,
   * or that it yields NaN (which the table then holds as missing).
   */
  type Parser = string -> Option<real>

  predicate IsNumeric(c: Cell) {
    c.None? || c.value.Number?
  }

  predicate AllNumeric(col: seq<Cell>) {
    forall i :: 0 <= i < |col| ==> IsNumeric(col[i])
  }

  /** Number of occurrences of `ch` in `s`. */
  function Count(s: string, ch: char): (n: nat)
    ensures n <= |s|
    ensures n == 0 <==> ch !in s
  {
    if s == [] then 0 else (if s[0] == ch then 1 else 0) + Count(s[1..], ch)
  }

  /** Count agrees with the multiplicity of `ch` in the multiset of `s`. */
  lemma {:induction false} CountIsMultiplicity(s: string, ch: char)
    ensures Count(s, ch) == multiset(s)[ch]
  {
    if s != [] {
      assert s == [s[0]] + s[1..];
      assert multiset(s) == multiset([s[0]]) + multiset(s[1..]);
      CountIsMultiplicity(s[1..], ch);
    }
  }

  /** Counting distributes over concatenation. */
  lemma CountAppend(a: string, b: string, ch: char)
    ensures Count(a + b, ch) == Count(a, ch) + Count(b, ch)
  {
    CountIsMultiplicity(a, ch);
    CountIsMultiplicity(b, ch);
    CountIsMultiplicity(a + b, ch);
    assert multiset(a + b) == multiset(a) + multiset(b);
  }

  /**
   * tryconvert: a total conversion from a cell to a number or missing. A missing cell
   * stays missing (np.float64(nan) is nan), a number is kept, and a token is handed to
   * the parser, whose refusal becomes missing instead of an error.
   */
  function TryConvert(c: Cell, parse: Parser): (r: Option<real>)
    ensures r.Some? <==> (c.Some? && (c.value.Number? || parse(c.value.text).Some?))
    ensures r.Some? && c.value.Number? ==> r.value == c.value.x
    ensures r.Some? && c.value.Token? ==> r == parse(c.value.text)
  {
    match c
    case None => None
    case Some(Number(x)) => Some(x)
    case Some(Token(t)) => parse(t)
  }

  /** The cell written back into the table after tryconvert. */
  function ConvertCell(c: Cell, parse: Parser): (r: Cell)
    ensures IsNumeric(r)
    ensures IsNumeric(c) ==> r == c
    ensures r.Some? <==> TryConvert(c, parse).Some?
    ensures r.Some? ==> r.value == Number(TryConvert(c, parse).value)
  {
    match TryConvert(c, parse)
    case None => None
    case Some(x) => Some(Number(x))
  }

  /** One column through `.apply(lambda x: tryconvert(x))` (clean_data.py:58). */
  function Convert(col: seq<Cell>, parse: Parser): (r: seq<Cell>)
    ensures |r| == |col|
    ensures AllNumeric(r)
    ensures forall i :: 0 <= i < |col| ==> r[i] == ConvertCell(col[i], parse)
  {
    seq(|col|, i requires 0 <= i < |col| => ConvertCell(col[i], parse))
  }

  /** Converting leaves a column unchanged exactly when it is already numeric. */
  lemma ConvertFixedPoint(col: seq<Cell>, parse: Parser)
    ensures Convert(col, parse) == col <==> AllNumeric(col)
  {
    if AllNumeric(col) {
      assert forall i :: 0 <= i < |col| ==> Convert(col, parse)[i] == col[i];
    }
  }

  /** Conversion is idempotent: a converted column converts to itself. */
  lemma ConvertIdempotent(col: seq<Cell>, parse: Parser)
    ensures Convert(Convert(col, parse), parse) == Convert(col, parse)
  {
    ConvertFixedPoint(Convert(col, parse), parse);
  }
}
