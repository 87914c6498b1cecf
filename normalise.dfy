/**
 * The cell rules of main() before and after conversion: the sentinel, the trace
 * marker and the malformed precipitation tokens (clean_data.py:50-54), and the
 * visibility range check (clean_data.py:61).
 */
module Normalise {
  import opened Wrappers
  import opened Cells

  /** The NOAA placeholder for an unavailable reading. */
  const Sentinel: string := "*"
  /** The NOAA marker for a trace of precipitation. */
  const Trace: string := "T"
  /** The token a trace is replaced with. */
  const TraceZero: string := "0.00"
  /** Visibility is reported in miles, capped at 10. */
  const VisibilityMin: real := 0.0
  const VisibilityMax: real := 10.0

  /** A token with more than one decimal point, such as "0.00.1". */
  predicate MultiDot(c: Cell) {
    c.Some? && c.value.Token? && Count(c.value.text, '.') > 1
  }

  /** A number outside the physical range of visibility. */
  predicate OutOfRange(c: Cell) {
    c.Some? && c.value.Number? && (c.value.x > VisibilityMax || c.value.x < VisibilityMin)
  }

  /** `replace(to_replace='*', value=np.nan)` on one column (clean_data.py:50). */
  function NullSentinel(col: seq<Cell>): (r: seq<Cell>)
    ensures |r| == |col|
    ensures forall i :: 0 <= i < |col| ==> (r[i].None? <==> col[i].None? || col[i] == Some(Token(Sentinel)))
    ensures forall i :: 0 <= i < |col| && r[i].Some? ==> r[i] == col[i]
  {
    seq(|col|, i requires 0 <= i < |col| => if col[i] == Some(Token(Sentinel)) then None else col[i])
  }

  /** `replace(to_replace='T', value='0.00')` on the precipitation column (clean_data.py:52). */
  function ReplaceTrace(col: seq<Cell>): (r: seq<Cell>)
    ensures |r| == |col|
    ensures forall i :: 0 <= i < |col| ==> r[i] != Some(Token(Trace))
    ensures forall i :: 0 <= i < |col| && col[i] == Some(Token(Trace)) ==> r[i] == Some(Token(TraceZero))
    ensures forall i :: 0 <= i < |col| && col[i] != Some(Token(Trace)) ==> r[i] == col[i]
  {
    seq(|col|, i requires 0 <= i < |col| => if col[i] == Some(Token(Trace)) then Some(Token(TraceZero)) else col[i])
  }

  /**
   * `.loc[col.str.count('\.') > 1] = np.nan` on the precipitation column
   * (clean_data.py:54). The count of a missing or non-string cell is NaN, and NaN > 1
   * is false, so only tokens are affected.
   */
  function NullMultiDot(col: seq<Cell>): (r: seq<Cell>)
    ensures |r| == |col|
    ensures forall i :: 0 <= i < |col| ==> !MultiDot(r[i])
    ensures forall i :: 0 <= i < |col| && MultiDot(col[i]) ==> r[i].None?
    ensures forall i :: 0 <= i < |col| && !MultiDot(col[i]) ==> r[i] == col[i]
  {
    seq(|col|, i requires 0 <= i < |col| => if MultiDot(col[i]) then None else col[i])
  }

  /**
   * `.loc[(v > 10) | (v < 0)] = np.nan` on the visibility column (clean_data.py:61).
   * Comparisons with NaN are false, so missing cells stay missing.
   */
  function NullOutOfRange(col: seq<Cell>): (r: seq<Cell>)
    ensures |r| == |col|
    ensures forall i :: 0 <= i < |col| && r[i].Some? && r[i].value.Number? ==>
      VisibilityMin <= r[i].value.x <= VisibilityMax
    ensures forall i :: 0 <= i < |col| && OutOfRange(col[i]) ==> r[i].None?
    ensures forall i :: 0 <= i < |col| && !OutOfRange(col[i]) ==> r[i] == col[i]
  {
    seq(|col|, i requires 0 <= i < |col| => if OutOfRange(col[i]) then None else col[i])
  }

  /** The replacement token itself has a single decimal point, so line 54 keeps it. */
  lemma TraceZeroHasOneDot()
    ensures Count(TraceZero, '.') == 1
  {
    assert TraceZero == ['0'] + ".00";
    assert ".00" == ['.'] + "00";
    assert Count("00", '.') == 0;
  }

  /**
   * The precipitation rules of lines 52 and 54 together: no trace marker and no
   * multi-dot token remains, a trace becomes "0.00", and a well-formed token other
   * than the trace marker is kept.
   */
  lemma PrecipNormalised(col: seq<Cell>)
    ensures var r := NullMultiDot(ReplaceTrace(col));
      && |r| == |col|
      && (forall i :: 0 <= i < |col| ==> r[i] != Some(Token(Trace)) && !MultiDot(r[i]))
      && (forall i :: 0 <= i < |col| && col[i] == Some(Token(Trace)) ==> r[i] == Some(Token(TraceZero)))
      && (forall i :: 0 <= i < |col| && col[i] != Some(Token(Trace)) && !MultiDot(col[i]) ==> r[i] == col[i])
      && (forall i :: 0 <= i < |col| && MultiDot(col[i]) ==> r[i].None?)
  {
    TraceZeroHasOneDot();
    assert !MultiDot(Some(Token(TraceZero)));
  }

  /** Nulling the sentinel twice is nulling it once. */
  lemma NullSentinelIdempotent(col: seq<Cell>)
    ensures NullSentinel(NullSentinel(col)) == NullSentinel(col)
  {
  }

  /** The range rule is idempotent: a second pass changes nothing. */
  lemma NullOutOfRangeIdempotent(col: seq<Cell>)
    ensures NullOutOfRange(NullOutOfRange(col)) == NullOutOfRange(col)
  {
  }

  /** On a converted column the token rules change nothing. */
  lemma TokenRulesFixNumeric(col: seq<Cell>)
    requires AllNumeric(col)
    ensures NullSentinel(col) == col
    ensures ReplaceTrace(col) == col
    ensures NullMultiDot(col) == col
  {
  }
}
