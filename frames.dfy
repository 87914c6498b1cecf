/**
 * The table `data_weather` that main() mutates stage by stage (clean_data.py:45-80):
 * an index of timestamps, an ordered list of column names and one column of cells
 * per name.
 */
module Frames {
  import opened Wrappers
  import opened Cells
  import opened Normalise
  import opened Fill
  import opened Align
  import opened Tendency

  const VisibilityColumn: string := "HOURLYVISIBILITY"
  const PrecipColumn: string := "HOURLYPrecip"
  const TendencyColumn: string := "HOURLYPressureTendency"
  const IncrColumn: string := "HOURLYPressureTendencyIncr"
  const DecrColumn: string := "HOURLYPressureTendencyDecr"
  const ConsColumn: string := "HOURLYPressureTendencyCons"

  /** The data columns read from the CSV; DATE becomes the index. */
  const ImportColumns: seq<string> := [
    VisibilityColumn, "HOURLYDRYBULBTEMPF", "HOURLYWETBULBTEMPF", "HOURLYDewPointTempF",
    "HOURLYRelativeHumidity", "HOURLYWindSpeed", "HOURLYWindDirection",
    "HOURLYStationPressure", TendencyColumn, "HOURLYSeaLevelPressure", PrecipColumn,
    "HOURLYAltimeterSetting"]

  predicate Distinct(names: seq<string>) {
    forall i, j :: 0 <= i < j < |names| ==> names[i] != names[j]
  }

  /** `drop([n], axis=1)` on the list of column names: the others keep their order. */
  function Without(names: seq<string>, n: string): (r: seq<string>)
    ensures forall m :: m in r <==> m in names && m != n
    ensures Distinct(names) ==> Distinct(r)
    ensures |r| <= |names|
    ensures n !in names ==> r == names
  {
    if names == [] then []
    else if names[0] == n then Without(names[1..], n)
    else
      var rest := Without(names[1..], n);
      assert Distinct(names) ==> names[0] !in names[1..];
      [names[0]] + rest
  }

  /** With distinct names, dropping the one at position k keeps the others in order. */
  lemma {:induction false} WithoutKeepsOrder(names: seq<string>, n: string, k: nat)
    requires Distinct(names) && k < |names| && names[k] == n
    ensures Without(names, n) == names[..k] + names[k + 1..]
  {
    var tail := names[1..];
    assert Distinct(tail) by {
      forall i, j | 0 <= i < j < |tail|
        ensures tail[i] != tail[j]
      {
        assert tail[i] == names[i + 1] && tail[j] == names[j + 1];
      }
    }
    if k == 0 {
      assert n !in tail by {
        forall j | 0 <= j < |tail|
          ensures tail[j] != n
        {
          assert tail[j] == names[j + 1];
        }
      }
    } else {
      assert names[0] != n;
      WithoutKeepsOrder(tail, n, k - 1);
      assert names[..k] == [names[0]] + names[1..][..k - 1];
      assert names[k + 1..] == names[1..][k..];
    }
  }

  /** The number of rows `drop(target)` keeps: those whose index label differs from it. */
  function Kept(labels: seq<int>, target: int): (m: nat)
    ensures m == |labels| - multiset(labels)[target]
    ensures target !in labels ==> m == |labels|
  {
    if labels == [] then 0
    else
      assert labels == [labels[0]] + labels[1..];
      assert multiset(labels) == multiset([labels[0]]) + multiset(labels[1..]);
      (if labels[0] == target then 0 else 1) + Kept(labels[1..], target)
  }

  /**
   * `drop(target)` on one column: the cells whose row label differs from `target`, in
   * order. When only the first row carries that label, this is every cell but the first.
   */
  function DropLabel<T>(labels: seq<int>, col: seq<T>, target: int): (r: seq<T>)
    requires |labels| == |col|
    ensures |r| == Kept(labels, target)
    ensures |labels| == 1 ==> r == (if labels[0] == target then [] else col)
    ensures target !in labels ==> r == col
    ensures |labels| > 0 && labels[0] == target && target !in labels[1..] ==> r == col[1..]
    decreases |col|
  {
    if col == [] then []
    else (if labels[0] == target then [] else [col[0]]) + DropLabel(labels[1..], col[1..], target)
  }

  /**
   * Dropping by label works row by row: on two stacked blocks of rows it is the drop of
   * each block, stacked. With the one-row case of `DropLabel` this fixes which cells
   * survive and keeps them in their original order.
   */
  lemma {:induction false} DropLabelAppend<T>(l1: seq<int>, c1: seq<T>, l2: seq<int>, c2: seq<T>, target: int)
    requires |l1| == |c1| && |l2| == |c2|
    ensures DropLabel(l1 + l2, c1 + c2, target) == DropLabel(l1, c1, target) + DropLabel(l2, c2, target)
    decreases |c1|
  {
    if c1 == [] {
      assert l1 + l2 == l2 && c1 + c2 == c2;
    } else {
      assert (l1 + l2)[1..] == l1[1..] + l2;
      assert (c1 + c2)[1..] == c1[1..] + c2;
      DropLabelAppend(l1[1..], c1[1..], l2, c2, target);
    }
  }

  /** No row with the dropped label survives, and every surviving label was there before. */
  lemma {:induction false} DropLabelRemoves(labels: seq<int>, target: int)
    ensures forall x :: x in DropLabel(labels, labels, target) <==> x in labels && x != target
  {
    if labels != [] {
      DropLabelRemoves(labels[1..], target);
      assert labels == [labels[0]] + labels[1..];
    }
  }

  /**
   * What lines 50-61 do to one column named `name`: the sentinel everywhere, the
   * trace and multi-dot rules on precipitation, conversion everywhere, the range
   * rule on visibility. The result is numeric, and visibility lies in [0, 10].
   */
  function CleanColumn(name: string, col: seq<Cell>, parse: Parser): (r: seq<Cell>)
    ensures |r| == |col|
    ensures AllNumeric(r)
    ensures name == VisibilityColumn ==>
      forall i :: 0 <= i < |r| && r[i].Some? ==> VisibilityMin <= r[i].value.x <= VisibilityMax
  {
    RangeRule(name, Convert(PrecipRules(name, NullSentinel(col)), parse))
  }

  /** Lines 52 and 54: only the precipitation column is touched. */
  function PrecipRules(name: string, col: seq<Cell>): seq<Cell> {
    if name == PrecipColumn then NullMultiDot(ReplaceTrace(col)) else col
  }

  /** Line 61: only the visibility column is touched. */
  function RangeRule(name: string, col: seq<Cell>): seq<Cell> {
    if name == VisibilityColumn then NullOutOfRange(col) else col
  }

  /** The five stages of lines 50-61, applied table-wide one after another, clean every column. */
  lemma CleanStages(c0: map<string, seq<Cell>>, c1: map<string, seq<Cell>>, c2: map<string, seq<Cell>>,
                    c3: map<string, seq<Cell>>, c4: map<string, seq<Cell>>, c5: map<string, seq<Cell>>,
                    parse: Parser)
    requires c1.Keys == c0.Keys && forall n :: n in c1 ==> c1[n] == NullSentinel(c0[n])
    requires PrecipColumn in c1 && c2 == c1[PrecipColumn := ReplaceTrace(c1[PrecipColumn])]
    requires c3 == c2[PrecipColumn := NullMultiDot(c2[PrecipColumn])]
    requires c4.Keys == c3.Keys && forall n :: n in c4 ==> c4[n] == Convert(c3[n], parse)
    requires VisibilityColumn in c4 && c5 == c4[VisibilityColumn := NullOutOfRange(c4[VisibilityColumn])]
    ensures c5.Keys == c0.Keys
    ensures forall n :: n in c5 ==> c5[n] == CleanColumn(n, c0[n], parse)
  {
    assert forall n :: n in c3 ==> c3[n] == PrecipRules(n, NullSentinel(c0[n]));
    assert forall n :: n in c5 ==> c5[n] == RangeRule(n, c4[n]);
  }

  /** Cleaning an already cleaned column changes nothing. */
  lemma CleanColumnIdempotent(name: string, col: seq<Cell>, parse: Parser)
    ensures CleanColumn(name, CleanColumn(name, col, parse), parse) == CleanColumn(name, col, parse)
  {
    var r := CleanColumn(name, col, parse);
    TokenRulesFixNumeric(r);
    ConvertFixedPoint(r, parse);
    if name == VisibilityColumn {
      var c := Convert(PrecipRules(name, NullSentinel(col)), parse);
      NullOutOfRangeIdempotent(c);
    }
  }

  /** The sentinel is missing in every column, whatever the parser makes of "*". */
  lemma SentinelBecomesMissing(name: string, parse: Parser)
    ensures CleanColumn(name, [Some(Token(Sentinel))], parse) == [None]
  {
    var s := NullSentinel([Some(Token(Sentinel))]);
    assert s == [None];
    if name == PrecipColumn {
      assert ReplaceTrace(s) == [None];
      assert NullMultiDot([None]) == [None];
    }
    assert Convert([None], parse) == [None];
  }

  /** "0.00.1" has two decimal points. */
  lemma MalformedHasTwoDots()
    ensures Count("0.00.1", '.') == 2
  {
    assert "0.00.1" == "0" + ".00.1";
    assert ".00.1" == "." + "00.1";
    assert "00.1" == "00" + ".1";
    CountAppend("0", ".00.1", '.');
    CountAppend(".", "00.1", '.');
    CountAppend("00", ".1", '.');
    assert ".1" == "." + "1";
    CountAppend(".", "1", '.');
  }

  /** A malformed "0.00.1" in precipitation ends up missing, whatever the parser does. */
  lemma MalformedPrecipMissing(parse: Parser)
    ensures CleanColumn(PrecipColumn, [Some(Token("0.00.1"))], parse) == [None]
  {
    var col := [Some(Token("0.00.1"))];
    MalformedHasTwoDots();
    assert |"0.00.1"| == 6;
    var s := NullSentinel(col);
    assert s[0] == col[0];
    assert s == col;
    var p := PrecipRules(PrecipColumn, s);
    assert ReplaceTrace(col) == col;
    assert MultiDot(col[0]);
    assert p == [None];
    assert Convert(p, parse) == [None];
  }

  /** A trace "T" in precipitation ends up 0.0 when the parser reads "0.00" as 0.0. */
  lemma TracePrecipZero(parse: Parser)
    requires parse(TraceZero) == Some(0.0)
    ensures CleanColumn(PrecipColumn, [Some(Token(Trace))], parse) == [Some(Number(0.0))]
  {
    var col := [Some(Token(Trace))];
    TraceZeroHasOneDot();
    var s := NullSentinel(col);
    assert s[0] == col[0];
    assert s == col;
    var p := PrecipRules(PrecipColumn, s);
    assert ReplaceTrace(col) == [Some(Token(TraceZero))];
    assert !MultiDot(Some(Token(TraceZero)));
    assert p == [Some(Token(TraceZero))];
    var c := Convert(p, parse);
    assert c[0] == Some(Number(0.0));
    assert c == [Some(Number(0.0))];
  }

  /**
   * What lines 64-69 do to one column of the hourly bucket table: shift by one
   * period, forward fill if it is the tendency, drop the first row. The result is
   * one row shorter and holds every bucket but the last, the tendency forward filled.
   */
  function AlignColumn(name: string, col: seq<Cell>): (r: seq<Cell>)
    requires |col| > 0
    ensures |r| == |col| - 1
    ensures name != TendencyColumn ==> r == col[..|col| - 1]
    ensures name == TendencyColumn ==> r == FFill(col[..|col| - 1])
  {
    ShiftDropFirst(col);
    ShiftFillDrop(col);
    var shifted := Shift(col);
    var filled := if name == TendencyColumn then FFill(shifted) else shifted;
    filled[1..]
  }

  class Frame {
    /** Row timestamps (the DatetimeIndex), in minutes. */
    var index: seq<int>
    /** Column labels in table order. */
    var names: seq<string>
    /** The cells of each column, top to bottom. */
    var cells: map<string, seq<Cell>>

    ghost predicate Valid()
      reads this
    {
      && Distinct(names)
      && (forall n :: n in cells <==> n in names)
      && (forall n :: n in cells ==> |cells[n]| == |index|)
    }

    /** The table as read and indexed by DATE (clean_data.py:45-47). */
    constructor (index: seq<int>, names: seq<string>, cells: map<string, seq<Cell>>)
      requires Distinct(names)
      requires forall n :: n in cells <==> n in names
      requires forall n :: n in cells ==> |cells[n]| == |index|
      ensures Valid()
      ensures this.index == index && this.names == names && this.cells == cells
    {
      this.index := index;
      this.names := names;
      this.cells := cells;
    }

    /** `replace(to_replace='*', value=np.nan, inplace=True)` over every column (clean_data.py:50). */
    method ReplaceSentinel()
      requires Valid()
      modifies this
      ensures Valid() && index == old(index) && names == old(names)
      ensures cells.Keys == old(cells).Keys
      ensures forall n :: n in cells ==> cells[n] == NullSentinel(old(cells)[n])
    {
      cells := map n | n in cells :: NullSentinel(cells[n]);
    }

    /** Trace precipitation becomes "0.00" (clean_data.py:52). */
    method ReplaceTracePrecip()
      requires Valid() && PrecipColumn in cells
      modifies this
      ensures Valid() && index == old(index) && names == old(names)
      ensures cells == old(cells)[PrecipColumn := ReplaceTrace(old(cells)[PrecipColumn])]
    {
      cells := cells[PrecipColumn := ReplaceTrace(cells[PrecipColumn])];
    }

    /** Precipitation tokens with more than one '.' become missing (clean_data.py:54). */
    method NullMultiDotPrecip()
      requires Valid() && PrecipColumn in cells
      modifies this
      ensures Valid() && index == old(index) && names == old(names)
      ensures cells == old(cells)[PrecipColumn := NullMultiDot(old(cells)[PrecipColumn])]
    {
      cells := cells[PrecipColumn := NullMultiDot(cells[PrecipColumn])];
    }

    /** The loop that converts the columns one after another (clean_data.py:57-58). */
    method ConvertAll(parse: Parser)
      requires Valid()
      modifies this
      ensures Valid() && index == old(index) && names == old(names)
      ensures cells.Keys == old(cells).Keys
      ensures forall n :: n in cells ==> cells[n] == Convert(old(cells)[n], parse)
    {
      for i := 0 to |names|
        invariant Valid() && index == old(index) && names == old(names)
        invariant cells.Keys == old(cells).Keys
        invariant forall k :: 0 <= k < i ==> cells[names[k]] == Convert(old(cells)[names[k]], parse)
        invariant forall k :: i <= k < |names| ==> cells[names[k]] == old(cells)[names[k]]
      {
        var n := names[i];
        cells := cells[n := Convert(cells[n], parse)];
      }
      forall n | n in cells
        ensures cells[n] == Convert(old(cells)[n], parse)
      {
        var k :| 0 <= k < |names| && names[k] == n;
      }
    }

    /** Visibility outside [0, 10] becomes missing (clean_data.py:61). */
    method NullVisibilityOutOfRange()
      requires Valid() && VisibilityColumn in cells
      modifies this
      ensures Valid() && index == old(index) && names == old(names)
      ensures cells == old(cells)[VisibilityColumn := NullOutOfRange(old(cells)[VisibilityColumn])]
    {
      cells := cells[VisibilityColumn := NullOutOfRange(cells[VisibilityColumn])];
    }

    /**
     * Lines 50-61 in order. Afterwards every column is numeric, visibility lies in
     * [0, 10], and each column is its own CleanColumn.
     */
    method CleanObservations(parse: Parser)
      requires Valid() && VisibilityColumn in cells && PrecipColumn in cells
      modifies this
      ensures Valid() && index == old(index) && names == old(names)
      ensures cells.Keys == old(cells).Keys
      ensures forall n :: n in cells ==> cells[n] == CleanColumn(n, old(cells)[n], parse)
      ensures forall n :: n in cells ==> AllNumeric(cells[n])
    {
      ghost var c0 := cells;
      ReplaceSentinel();
      ghost var c1 := cells;
      ReplaceTracePrecip();
      ghost var c2 := cells;
      NullMultiDotPrecip();
      ghost var c3 := cells;
      ConvertAll(parse);
      ghost var c4 := cells;
      NullVisibilityOutOfRange();
      CleanStages(c0, c1, c2, c3, c4, cells, parse);
    }

    /** `shift(periods=1)` of every column; the index stays (clean_data.py:64). */
    method ShiftRows()
      requires Valid()
      modifies this
      ensures Valid() && index == old(index) && names == old(names)
      ensures cells.Keys == old(cells).Keys
      ensures forall n :: n in cells ==> cells[n] == Shift(old(cells)[n])
    {
      cells := map n | n in cells :: Shift(cells[n]);
    }

    /** Forward fill of the pressure tendency column (clean_data.py:67). */
    method ForwardFillTendency()
      requires Valid() && TendencyColumn in cells
      modifies this
      ensures Valid() && index == old(index) && names == old(names)
      ensures cells == old(cells)[TendencyColumn := FFill(old(cells)[TendencyColumn])]
    {
      cells := cells[TendencyColumn := FFill(cells[TendencyColumn])];
    }

    /**
     * `drop(index[0])` (clean_data.py:69) drops by label: every row labelled like the
     * first goes. On an empty table `index[0]` raises IndexError: `ok` is false and
     * nothing changes.
     */
    method DropFirstRow() returns (ok: bool)
      requires Valid()
      modifies this
      ensures Valid() && names == old(names)
      ensures ok <==> |old(index)| > 0
      ensures !ok ==> index == old(index) && cells == old(cells)
      ensures ok ==> index == DropLabel(old(index), old(index), old(index)[0])
      ensures ok ==> cells.Keys == old(cells).Keys
      ensures ok ==> forall n :: n in cells ==> cells[n] == DropLabel(old(index), old(cells)[n], old(index)[0])
    {
      ok := |index| > 0;
      if ok {
        var target := index[0];
        cells := map n | n in cells :: DropLabel(index, cells[n], target);
        index := DropLabel(index, index, target);
      }
    }

    /**
     * From the hourly bucket table: shift, forward fill the tendency, drop the first
     * row (clean_data.py:64-69). Each column becomes its AlignColumn; an empty table
     * raises at the drop and is left as it was. The bucket timestamps that resampling
     * produces are strictly increasing, so the drop removes exactly the first row and
     * output row k carries bucket k+1's timestamp.
     */
    method AlignHourly() returns (ok: bool)
      requires Valid() && TendencyColumn in cells
      requires forall i, j :: 0 <= i < j < |index| ==> index[i] < index[j]
      modifies this
      ensures Valid() && names == old(names) && cells.Keys == old(cells).Keys
      ensures ok <==> |old(index)| > 0
      ensures !ok ==> index == old(index) && cells == old(cells)
      ensures ok ==> index == old(index)[1..]
      ensures ok ==> forall n :: n in cells ==> cells[n] == AlignColumn(n, old(cells)[n])
    {
      ghost var before := cells;
      assert |index| > 0 ==> index[0] !in index[1..];
      ShiftRows();
      ForwardFillTendency();
      ok := DropFirstRow();
      if !ok {
        forall n | n in cells
          ensures cells[n] == before[n]
        {
          assert |before[n]| == 0;
        }
      }
    }

    /**
     * Replace the tendency code by its three indicator columns, appended at the end
     * (clean_data.py:77-80).
     */
    method EncodeTendency()
      requires Valid() && TendencyColumn in cells
      requires IncrColumn !in cells && DecrColumn !in cells && ConsColumn !in cells
      modifies this
      ensures Valid() && index == old(index)
      ensures names == Without(old(names), TendencyColumn) + [IncrColumn, DecrColumn, ConsColumn]
      ensures TendencyColumn !in cells
      ensures var e := EncodeColumn(old(cells)[TendencyColumn]);
        cells[IncrColumn] == e.incr && cells[DecrColumn] == e.decr && cells[ConsColumn] == e.cons
      ensures forall n :: n in old(cells) && n != TendencyColumn ==> n in cells && cells[n] == old(cells)[n]
    {
      var e := EncodeColumn(cells[TendencyColumn]);
      var rest := Without(names, TendencyColumn);
      names := rest + [IncrColumn, DecrColumn, ConsColumn];
      cells := (cells - {TendencyColumn})[IncrColumn := e.incr][DecrColumn := e.decr][ConsColumn := e.cons];
      assert Distinct(names) by {
        forall i, j | 0 <= i < j < |names|
          ensures names[i] != names[j]
        {
          if j >= |rest| {
            if i < |rest| {
              assert names[i] in rest;
            }
          }
        }
      }
    }
  }
}
