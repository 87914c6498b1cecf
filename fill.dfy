/**
 * Forward fill, `fillna(method='ffill')`, as applied to the pressure tendency
 * column (clean_data.py:67).
 */
module Fill {
  import opened Wrappers

  /** Carry the last present value forward over the cells of `s`, starting from `last`. */
  function FillFrom<T>(last: Option<T>, s: seq<Option<T>>): (r: seq<Option<T>>)
    ensures |r| == |s|
    ensures forall i :: 0 <= i < |s| && s[i].Some? ==> r[i] == s[i]
    decreases |s|
  {
    if s == [] then []
    else
      var v := if s[0].Some? then s[0] else last;
      [v] + FillFrom(v, s[1..])
  }

  /** Forward fill: every missing cell takes the last present value above it. */
  function FFill<T>(s: seq<Option<T>>): (r: seq<Option<T>>)
    ensures |r| == |s|
    ensures forall i :: 0 <= i < |s| && s[i].Some? ==> r[i] == s[i]
  {
    FillFrom(None, s)
  }

  /**
   * Reference definition: the nearest present value among the first `k` cells,
   * searching backwards from cell k-1; None when all of them are missing.
   */
  function LastPresent<T>(s: seq<Option<T>>, k: nat): Option<T>
    requires k <= |s|
  {
    if k == 0 then None
    else if s[k - 1].Some? then s[k - 1]
    else LastPresent(s, k - 1)
  }

  /** Searching the first k+1 cells of s is searching the first k of its tail, then s[0]. */
  lemma {:induction false} LastPresentTail<T>(s: seq<Option<T>>, k: nat)
    requires 0 < |s| && k < |s|
    ensures LastPresent(s, k + 1) ==
      if LastPresent(s[1..], k).Some? then LastPresent(s[1..], k) else s[0]
  {
    if k > 0 {
      LastPresentTail(s, k - 1);
    }
  }

  lemma {:induction false} FillFromAt<T>(last: Option<T>, s: seq<Option<T>>, i: nat)
    requires i < |s|
    ensures FillFrom(last, s)[i] ==
      if LastPresent(s, i + 1).Some? then LastPresent(s, i + 1) else last
    decreases i
  {
    var v := if s[0].Some? then s[0] else last;
    if i > 0 {
      FillFromAt(v, s[1..], i - 1);
      LastPresentTail(s, i - 1);
      assert FillFrom(last, s)[i] == FillFrom(v, s[1..])[i - 1];
    }
  }

  /** Each filled cell is the nearest present value at or above it. */
  lemma FFillAt<T>(s: seq<Option<T>>, i: nat)
    requires i < |s|
    ensures FFill(s)[i] == LastPresent(s, i + 1)
  {
    FillFromAt(None, s, i);
  }

  /** The backward search finds nothing exactly when every searched cell is missing. */
  lemma {:induction false} LastPresentNone<T>(s: seq<Option<T>>, k: nat)
    requires k <= |s|
    ensures LastPresent(s, k).None? <==> forall j :: 0 <= j < k ==> s[j].None?
  {
    if k > 0 {
      LastPresentNone(s, k - 1);
    }
  }

  /** What the backward search finds is the last present cell among the first k. */
  lemma {:induction false} LastPresentWitness<T>(s: seq<Option<T>>, k: nat) returns (j: nat)
    requires k <= |s|
    requires LastPresent(s, k).Some?
    ensures j < k && s[j].Some? && LastPresent(s, k) == s[j]
    ensures forall m :: j < m < k ==> s[m].None?
  {
    if s[k - 1].Some? {
      j := k - 1;
    } else {
      j := LastPresentWitness(s, k - 1);
    }
  }

  /**
   * The forward fill contract: a cell stays missing exactly when no cell at or above it
   * is present; otherwise it holds the value of the nearest present cell at or above it.
   */
  lemma FFillSpec<T>(s: seq<Option<T>>, i: nat)
    requires i < |s|
    ensures FFill(s)[i].None? <==> forall j :: 0 <= j <= i ==> s[j].None?
    ensures FFill(s)[i].Some? ==>
      exists j :: 0 <= j <= i && s[j].Some? && FFill(s)[i] == s[j] &&
        forall m :: j < m <= i ==> s[m].None?
  {
    FFillAt(s, i);
    LastPresentNone(s, i + 1);
    if FFill(s)[i].Some? {
      var j := LastPresentWitness(s, i + 1);
    }
  }

  /** Forward filling a second time changes nothing. */
  lemma FFillIdempotent<T>(s: seq<Option<T>>)
    ensures FFill(FFill(s)) == FFill(s)
  {
    var f := FFill(s);
    forall i | 0 <= i < |s|
      ensures FFill(f)[i] == f[i]
    {
      FFillAt(f, i);
      FFillAt(s, i);
      if f[i].None? {
        LastPresentNone(s, i + 1);
        forall j | 0 <= j < i + 1
          ensures f[j].None?
        {
          FFillAt(s, j);
          LastPresentNone(s, j + 1);
        }
        LastPresentNone(f, i + 1);
      }
    }
  }
}
