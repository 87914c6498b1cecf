/**
 * Hourly alignment: `shift(periods=1)` of the hourly bucket series (clean_data.py:64)
 * and the drop of its first row (clean_data.py:69).
 */
module Align {
  import opened Wrappers
  import opened Fill

  /**
   * `shift(periods=1)` of one column: every value moves one row down, the first row
   * becomes missing and the last value falls off; the index is not shifted.
   */
  function Shift<T>(s: seq<Option<T>>): (r: seq<Option<T>>)
    ensures |r| == |s|
    ensures |s| > 0 ==> r[0].None?
    ensures forall k :: 0 < k < |s| ==> r[k] == s[k - 1]
  {
    if s == [] then [] else [None] + s[..|s| - 1]
  }

  /**
   * Shift then drop the first row: one row fewer than the bucket series, output row k
   * holds bucket k, so the result is every bucket but the last.
   */
  lemma ShiftDropFirst<T>(s: seq<Option<T>>)
    requires |s| > 0
    ensures |Shift(s)[1..]| == |s| - 1
    ensures forall k :: 0 <= k < |s| - 1 ==> Shift(s)[1..][k] == s[k]
    ensures Shift(s)[1..] == s[..|s| - 1]
  {
    assert Shift(s) == [None] + s[..|s| - 1];
  }

  /**
   * The forward fill runs between the shift and the drop. Since the shift only puts a
   * missing cell in front, the result is the forward fill of every bucket but the last.
   */
  lemma ShiftFillDrop<T>(s: seq<Option<T>>)
    requires |s| > 0
    ensures FFill(Shift(s))[1..] == FFill(s[..|s| - 1])
  {
    assert Shift(s) == [None] + s[..|s| - 1];
    assert ([None] + s[..|s| - 1])[1..] == s[..|s| - 1];
  }
}
