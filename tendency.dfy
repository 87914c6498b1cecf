/**
 * Pressure tendency indicators (clean_data.py:77-80): a NOAA code 0..8 becomes three
 * 0.0/1.0 columns for increase (0-3), decrease (5-8) and constant (4).
 */
module Tendency {
  import opened Wrappers
  import opened Cells

  const IncrCodes: seq<real> := [0.0, 1.0, 2.0, 3.0]
  const DecrCodes: seq<real> := [5.0, 6.0, 7.0, 8.0]
  const ConsCode: real := 4.0

  /** The three indicators of one row. */
  datatype Indicators = Indicators(incr: real, decr: real, cons: real)

  /** `x in codes` for a cell: only a number can equal a code; NaN and text never do. */
  predicate InCodes(c: Cell, codes: seq<real>) {
    c.Some? && c.value.Number? && c.value.x in codes
  }

  /** A whole number between lo and hi. */
  predicate IsCodeIn(c: Cell, lo: int, hi: int) {
    c.Some? && c.value.Number? && c.value.x == c.value.x.Floor as real &&
    lo as real <= c.value.x <= hi as real
  }

  /** The three list comprehensions of lines 77-79, applied to one code. */
  function Encode(c: Cell): (r: Indicators)
    ensures r.incr == 1.0 <==> IsCodeIn(c, 0, 3)
    ensures r.decr == 1.0 <==> IsCodeIn(c, 5, 8)
    ensures r.cons == 1.0 <==> IsCodeIn(c, 4, 4)
  {
    Indicators(
      if InCodes(c, IncrCodes) then 1.0 else 0.0,
      if InCodes(c, DecrCodes) then 1.0 else 0.0,
      if InCodes(c, [ConsCode]) then 1.0 else 0.0)
  }

  /**
   * Each indicator is 0.0 or 1.0 and at most one is 1.0; exactly one is 1.0 when the
   * code is a whole number in 0..8, and all three are 0.0 otherwise (missing, text,
   * fractional or out-of-range codes).
   */
  lemma EncodeExclusive(c: Cell)
    ensures var r := Encode(c);
      && r.incr in {0.0, 1.0} && r.decr in {0.0, 1.0} && r.cons in {0.0, 1.0}
      && r.incr + r.decr + r.cons <= 1.0
      && (r.incr + r.decr + r.cons == 1.0 <==> IsCodeIn(c, 0, 8))
      && (!IsCodeIn(c, 0, 8) ==> r == Indicators(0.0, 0.0, 0.0))
  {
  }

  /** One column of codes to the three indicator columns (clean_data.py:77-79). */
  datatype Encoded = Encoded(incr: seq<Cell>, decr: seq<Cell>, cons: seq<Cell>)

  function EncodeColumn(col: seq<Cell>): (r: Encoded)
    ensures |r.incr| == |r.decr| == |r.cons| == |col|
    ensures AllNumeric(r.incr) && AllNumeric(r.decr) && AllNumeric(r.cons)
    ensures forall i :: 0 <= i < |col| ==>
      && r.incr[i] == Some(Number(Encode(col[i]).incr))
      && r.decr[i] == Some(Number(Encode(col[i]).decr))
      && r.cons[i] == Some(Number(Encode(col[i]).cons))
  {
    Encoded(
      seq(|col|, i requires 0 <= i < |col| => Some(Number(Encode(col[i]).incr))),
      seq(|col|, i requires 0 <= i < |col| => Some(Number(Encode(col[i]).decr))),
      seq(|col|, i requires 0 <= i < |col| => Some(Number(Encode(col[i]).cons))))
  }
}
