/**
 * dataset_summary: the record count, count/min/max/mean of every numeric
 * column, and the time window of the first time/date-named column.
 */
module Summarizer {
  import opened Outcome
  import opened Tables

  /** A Python float as far as the summary needs it: a real number or NaN. */
  datatype Float = NaN | Fin(value: real)

  datatype ColumnStats = ColumnStats(valid: nat, min: Float, max: Float, mean: Float)

  datatype TimeRange = TimeRange(start: string, end: string)

  /**
   * summary: "n_records", "columns" (a dict, kept here as its insertion-ordered
   * list of entries) and the optional "time_range".
   */
  datatype Summary = Summary(nRecords: nat, columns: seq<(string, ColumnStats)>, timeRange: Option<TimeRange>)

  // ---------------------------------------------------------------------
  // Per-column statistics
  // ---------------------------------------------------------------------

  /** How many times x occurs in s. */
  function Count<T(==)>(s: seq<T>, x: T): (n: nat)
    ensures n <= |s|
    ensures n > 0 <==> x in s
  {
    if s == [] then 0
    else
      var init := s[..|s| - 1];
      assert s == init + [s[|s| - 1]];
      Count(init, x) + (if s[|s| - 1] == x then 1 else 0)
  }

  /** Series.count(): the number of non-missing cells. */
  function PresentCount(cells: seq<Cell>): (n: nat)
    ensures n == |cells| - Count(cells, Missing)
  {
    if cells == [] then 0
    else PresentCount(cells[..|cells| - 1]) + (if cells[|cells| - 1].Missing? then 0 else 1)
  }

  /**
   * The numbers of a column, in row order, skipping missing cells: each
   * number occurs as often as the column holds it.
   */
  function NumValues(cells: seq<Cell>): (xs: seq<real>)
    ensures |xs| <= |cells|
    ensures forall x :: Count(xs, x) == Count(cells, Num(x))
    ensures forall k :: 0 <= k < |xs| ==> Num(xs[k]) in cells
    ensures forall i :: 0 <= i < |cells| && cells[i].Num? ==> cells[i].value in xs
  {
    if cells == [] then []
    else
      var init := cells[..|cells| - 1];
      var c := cells[|cells| - 1];
      assert forall x :: x in init ==> x in cells;
      assert forall i :: 0 <= i < |init| ==> cells[i] == init[i];
      if c.Num? then
        var xs := NumValues(init) + [c.value];
        assert xs[..|xs| - 1] == NumValues(init);
        xs
      else NumValues(init)
  }

  /** In a numeric column every present cell is a number. */
  lemma {:induction false} PresentCountIsNumCount(cells: seq<Cell>)
    requires forall i :: 0 <= i < |cells| ==> Conforms(Numeric, cells[i])
    ensures PresentCount(cells) == |NumValues(cells)|
    decreases |cells|
  {
    if cells != [] {
      PresentCountIsNumCount(cells[..|cells| - 1]);
    }
  }

  /** Series.min(skipna=True) over a non-empty list of numbers. */
  function MinOf(xs: seq<real>): (m: real)
    requires |xs| > 0
    ensures m in xs && forall k :: 0 <= k < |xs| ==> m <= xs[k]
  {
    if |xs| == 1 then xs[0]
    else
      var m' := MinOf(xs[1..]);
      if xs[0] <= m' then xs[0] else m'
  }

  /** Series.max(skipna=True) over a non-empty list of numbers. */
  function MaxOf(xs: seq<real>): (m: real)
    requires |xs| > 0
    ensures m in xs && forall k :: 0 <= k < |xs| ==> xs[k] <= m
  {
    if |xs| == 1 then xs[0]
    else
      var m' := MaxOf(xs[1..]);
      if xs[0] >= m' then xs[0] else m'
  }

  function SumOf(xs: seq<real>): real
  {
    if xs == [] then 0.0 else xs[0] + SumOf(xs[1..])
  }

  /** n values, each between lo and hi, add up to between n*lo and n*hi. */
  lemma {:induction false} SumBetween(xs: seq<real>, lo: real, hi: real)
    requires forall k :: 0 <= k < |xs| ==> lo <= xs[k] <= hi
    ensures |xs| as real * lo <= SumOf(xs) <= |xs| as real * hi
    decreases |xs|
  {
    if xs != [] {
      SumBetween(xs[1..], lo, hi);
      assert (|xs| - 1) as real * lo + lo == |xs| as real * lo;
      assert (|xs| - 1) as real * hi + hi == |xs| as real * hi;
    }
  }

  /** Dividing n*lo <= s <= n*hi by a positive n. */
  lemma DivideBounds(s: real, n: real, lo: real, hi: real)
    requires n > 0.0 && n * lo <= s <= n * hi
    ensures lo <= s / n <= hi
  {
    var q := s / n;
    assert q * n == s;
    assert (q - lo) * n == s - n * lo;
    assert (hi - q) * n == n * hi - s;
  }

  /** The mean of values that lie between lo and hi lies between lo and hi. */
  lemma MeanWithin(xs: seq<real>, lo: real, hi: real)
    requires |xs| > 0
    requires forall k :: 0 <= k < |xs| ==> lo <= xs[k] <= hi
    ensures lo <= SumOf(xs) / |xs| as real <= hi
  {
    SumBetween(xs, lo, hi);
    DivideBounds(SumOf(xs), |xs| as real, lo, hi);
  }

  /** The arithmetic mean of a non-empty list lies between its minimum and maximum. */
  lemma MeanBetween(xs: seq<real>)
    requires |xs| > 0
    ensures MinOf(xs) <= SumOf(xs) / |xs| as real <= MaxOf(xs)
  {
    MeanWithin(xs, MinOf(xs), MaxOf(xs));
  }

  /**
   * One entry of summary["columns"]: valid counts the cells that are not
   * missing; min, max and mean are NaN when no cell is a number, and
   * otherwise min and max are numbers of the column bounding every number in
   * it, with the mean between them.
   */
  function StatsOf(cells: seq<Cell>): (st: ColumnStats)
    ensures st.valid == |cells| - Count(cells, Missing)
    ensures st.min.NaN? <==> forall i :: 0 <= i < |cells| ==> !cells[i].Num?
    ensures st.min.NaN? ==> st.max.NaN? && st.mean.NaN?
    ensures st.min.Fin? ==>
              && st.max.Fin? && st.mean.Fin?
              && Num(st.min.value) in cells && Num(st.max.value) in cells
              && (forall i :: 0 <= i < |cells| && cells[i].Num? ==>
                    st.min.value <= cells[i].value <= st.max.value)
              && st.min.value <= st.mean.value <= st.max.value
  {
    var xs := NumValues(cells);
    if xs == [] then
      ColumnStats(PresentCount(cells), NaN, NaN, NaN)
    else
      MeanBetween(xs);
      assert forall i :: 0 <= i < |cells| && cells[i].Num? ==> MinOf(xs) <= cells[i].value <= MaxOf(xs) by {
        forall i | 0 <= i < |cells| && cells[i].Num?
          ensures MinOf(xs) <= cells[i].value <= MaxOf(xs)
        {
          var m :| 0 <= m < |xs| && xs[m] == cells[i].value;
        }
      }
      ColumnStats(PresentCount(cells), Fin(MinOf(xs)), Fin(MaxOf(xs)), Fin(SumOf(xs) / |xs| as real))
  }

  /**
   * For a numeric column, where every present cell is a number: valid is at
   * most the row count; with valid > 0, min and max are values of the column
   * that bound every value, and min <= mean <= max; with valid == 0 all
   * three are NaN.
   */
  lemma StatsBounds(cells: seq<Cell>)
    requires forall i :: 0 <= i < |cells| ==> Conforms(Numeric, cells[i])
    ensures var st := StatsOf(cells);
            && st.valid <= |cells|
            && (st.valid == 0 <==> st.min.NaN?)
            && (st.valid == 0 ==> st.max.NaN? && st.mean.NaN?)
            && (st.valid > 0 ==>
                  && st.min.Fin? && st.max.Fin? && st.mean.Fin?
                  && st.min.value <= st.mean.value <= st.max.value
                  && Num(st.min.value) in cells && Num(st.max.value) in cells
                  && forall i :: 0 <= i < |cells| && cells[i].Num? ==>
                       st.min.value <= cells[i].value <= st.max.value)
  {
    PresentCountIsNumCount(cells);
  }

  // ---------------------------------------------------------------------
  // summary["columns"]
  // ---------------------------------------------------------------------

  /** The indices, below n and in order, of the numeric columns. */
  function NumericColumns(columns: seq<Column>, n: nat): (js: seq<nat>)
    requires n <= |columns|
    ensures forall k :: 0 <= k < |js| ==> js[k] < n
    ensures forall k, l :: 0 <= k < l < |js| ==> js[k] < js[l]
    ensures forall j :: 0 <= j < n ==> (j in js <==> columns[j].kind == Numeric)
  {
    if n == 0 then []
    else NumericColumns(columns, n - 1) + (if columns[n - 1].kind == Numeric then [n - 1] else [])
  }

  /** The items of `all`, one per column, that belong to the numeric columns below n. */
  function PickNumeric<X>(columns: seq<Column>, all: seq<X>, n: nat): seq<X>
    requires n <= |columns| == |all|
  {
    if n == 0 then []
    else PickNumeric(columns, all, n - 1) + (if columns[n - 1].kind == Numeric then [all[n - 1]] else [])
  }

  /** Picking keeps exactly the items at NumericColumns, in that order. */
  lemma {:induction false} PickFollowsNumericColumns<X>(columns: seq<Column>, all: seq<X>, n: nat)
    requires n <= |columns| == |all|
    ensures |PickNumeric(columns, all, n)| == |NumericColumns(columns, n)|
    ensures forall k :: 0 <= k < |NumericColumns(columns, n)| ==>
              PickNumeric(columns, all, n)[k] == all[NumericColumns(columns, n)[k]]
  {
    if n > 0 {
      PickFollowsNumericColumns(columns, all, n - 1);
    }
  }

  /** summary["columns"][col] for column j. */
  function Entry(t: Frame, j: nat): (string, ColumnStats)
    requires j < |t.columns|
  {
    (t.columns[j].name, StatsOf(ColumnCells(t, j)))
  }

  /** The entry each column would get, were it numeric. */
  function AllEntries(t: Frame): (es: seq<(string, ColumnStats)>)
    ensures |es| == |t.columns|
  {
    seq(|t.columns|, j requires 0 <= j < |t.columns| => Entry(t, j))
  }

  /** The dictionary after the loop has visited the first n columns. */
  function NumericEntries(t: Frame, n: nat): seq<(string, ColumnStats)>
    requires n <= |t.columns|
  {
    PickNumeric(t.columns, AllEntries(t), n)
  }

  /** One entry per numeric column, in column order, and none for any other column. */
  lemma EntriesFollowNumericColumns(t: Frame, n: nat)
    requires n <= |t.columns|
    ensures |NumericEntries(t, n)| == |NumericColumns(t.columns, n)|
    ensures forall k :: 0 <= k < |NumericColumns(t.columns, n)| ==>
              NumericEntries(t, n)[k] == Entry(t, NumericColumns(t.columns, n)[k])
  {
    PickFollowsNumericColumns(t.columns, AllEntries(t), n);
  }

  /** What StatsBounds promises of one entry, for a table with the given row count. */
  predicate Bounded(st: ColumnStats, rows: nat)
  {
    && st.valid <= rows
    && (st.valid > 0 ==> st.min.Fin? && st.mean.Fin? && st.max.Fin? &&
                         st.min.value <= st.mean.value <= st.max.value)
  }

  /** Every entry of the dictionary is Bounded. */
  lemma EntriesBounded(t: Frame)
    ensures forall k :: 0 <= k < |NumericEntries(t, |t.columns|)| ==>
              Bounded(NumericEntries(t, |t.columns|)[k].1, |t.rows|)
  {
    var es, js := NumericEntries(t, |t.columns|), NumericColumns(t.columns, |t.columns|);
    EntriesFollowNumericColumns(t, |t.columns|);
    forall k | 0 <= k < |es| ensures Bounded(es[k].1, |t.rows|) {
      ColumnConforms(t, js[k]);
      StatsBounds(ColumnCells(t, js[k]));
    }
  }

  // ---------------------------------------------------------------------
  // summary["time_range"]
  // ---------------------------------------------------------------------

  /** A pandas Timestamp or NaT. */
  datatype Stamp = NaT | At(instant: int)

  /** Series.min() of a datetime column: the earliest timestamp, or NaT. */
  function Earliest(cells: seq<Cell>): (s: Stamp)
    ensures s.NaT? <==> forall i :: 0 <= i < |cells| ==> !cells[i].Time?
    ensures s.At? ==> Time(s.instant) in cells
    ensures s.At? ==> forall i :: 0 <= i < |cells| && cells[i].Time? ==> s.instant <= cells[i].stamp
  {
    if cells == [] then NaT
    else
      var init := cells[..|cells| - 1];
      var c := cells[|cells| - 1];
      var e := Earliest(init);
      assert forall i :: 0 <= i < |init| ==> cells[i] == init[i];
      if !c.Time? then e
      else if e.NaT? || c.stamp < e.instant then At(c.stamp)
      else e
  }

  /** Series.max() of a datetime column: the latest timestamp, or NaT. */
  function Latest(cells: seq<Cell>): (s: Stamp)
    ensures s.NaT? <==> forall i :: 0 <= i < |cells| ==> !cells[i].Time?
    ensures s.At? ==> Time(s.instant) in cells
    ensures s.At? ==> forall i :: 0 <= i < |cells| && cells[i].Time? ==> cells[i].stamp <= s.instant
  {
    if cells == [] then NaT
    else
      var init := cells[..|cells| - 1];
      var c := cells[|cells| - 1];
      var e := Latest(init);
      assert forall i :: 0 <= i < |init| ==> cells[i] == init[i];
      if !c.Time? then e
      else if e.NaT? || c.stamp > e.instant then At(c.stamp)
      else e
  }

  /** The window is never inverted. */
  lemma EarliestNotAfterLatest(cells: seq<Cell>)
    ensures Earliest(cells).NaT? <==> Latest(cells).NaT?
    ensures Earliest(cells).At? ==> Earliest(cells).instant <= Latest(cells).instant
  {
    if Earliest(cells).At? {
      var i :| 0 <= i < |cells| && cells[i] == Time(Earliest(cells).instant);
    }
  }

  /** time_cols: the indices, below n, of the time/date-named columns, in order. */
  function TimeColumns(t: Frame, n: nat): (js: seq<nat>)
    requires n <= |t.columns|
    ensures forall k :: 0 <= k < |js| ==> js[k] < n
    ensures forall k, l :: 0 <= k < l < |js| ==> js[k] < js[l]
    ensures forall j :: 0 <= j < n ==> (j in js <==> IsTimeName(t.columns[j].name))
  {
    if n == 0 then []
    else TimeColumns(t, n - 1) + (if IsTimeName(t.columns[n - 1].name) then [n - 1] else [])
  }

  /** time_cols[0], when time_cols is not empty. */
  function FirstTimeColumn(t: Frame): (j: Option<nat>)
    ensures j.None? <==> forall k :: 0 <= k < |t.columns| ==> !IsTimeName(t.columns[k].name)
    ensures j.Some? ==> j.value < |t.columns| && IsTimeName(t.columns[j.value].name)
    ensures j.Some? ==> forall k :: 0 <= k < j.value ==> !IsTimeName(t.columns[k].name)
  {
    var js := TimeColumns(t, |t.columns|);
    if js == [] then
      assert forall k :: 0 <= k < |t.columns| ==> k !in js;
      None
    else
      assert forall k :: 0 <= k < |t.columns| && IsTimeName(t.columns[k].name) ==> js[0] <= k by {
        forall k | 0 <= k < |t.columns| && IsTimeName(t.columns[k].name) ensures js[0] <= k {
          var l :| 0 <= l < |js| && js[l] == k;
        }
      }
      assert js[0] in js;
      Some(js[0])
  }

  /** time_cols[0] is the column that is time-named while no earlier column is. */
  lemma FirstTimeColumnAt(t: Frame, j: nat)
    requires j < |t.columns| && IsTimeName(t.columns[j].name)
    requires forall k :: 0 <= k < j ==> !IsTimeName(t.columns[k].name)
    ensures FirstTimeColumn(t) == Some(j)
  {
    var f := FirstTimeColumn(t);
    assert f.Some?;
    assert !(f.value < j);
    assert !(j < f.value);
  }

  /** str(Timestamp): the text pandas prints for an instant. */
  type StampText = int -> string

  /** str() of a Timestamp or of NaT. */
  function ShowStamp(show: StampText, s: Stamp): string
  {
    match s
    case NaT => "NaT"
    case At(n) => show(n)
  }

  /**
   * summary["time_range"]: present exactly when some column is
   * time/date-named.
   */
  function TimeRangeOf(t: Frame, show: StampText): (r: Option<TimeRange>)
    ensures r.None? <==> forall k :: 0 <= k < |t.columns| ==> !IsTimeName(t.columns[k].name)
  {
    match FirstTimeColumn(t)
    case None => None
    case Some(j) =>
      var cells := ColumnCells(t, j);
      Some(TimeRange(ShowStamp(show, Earliest(cells)), ShowStamp(show, Latest(cells))))
  }

  /** The time range is the window of the first time/date-named column. */
  lemma TimeRangeFromFirstTimeColumn(t: Frame, show: StampText, j: nat)
    requires j < |t.columns| && IsTimeName(t.columns[j].name)
    requires forall k :: 0 <= k < j ==> !IsTimeName(t.columns[k].name)
    ensures TimeRangeOf(t, show) ==
            Some(TimeRange(ShowStamp(show, Earliest(ColumnCells(t, j))), ShowStamp(show, Latest(ColumnCells(t, j)))))
  {
    FirstTimeColumnAt(t, j);
  }

  /**
   * The summary dataset_summary returns for t: the row count, one entry per
   * numeric column carrying that column's name, in column order, and a time
   * range exactly when some column is time/date-named.
   */
  function SummaryOf(t: Frame, show: StampText): (s: Summary)
    ensures s.nRecords == |t.rows|
    ensures var js := NumericColumns(t.columns, |t.columns|);
            && |s.columns| == |js|
            && forall k :: 0 <= k < |js| ==> s.columns[k].0 == t.columns[js[k]].name
    ensures s.timeRange.None? <==> forall k :: 0 <= k < |t.columns| ==> !IsTimeName(t.columns[k].name)
  {
    EntriesFollowNumericColumns(t, |t.columns|);
    Summary(|t.rows|, NumericEntries(t, |t.columns|), TimeRangeOf(t, show))
  }

  /** n_records is the row count and every entry obeys the bounds of StatsBounds. */
  lemma SummaryBounds(t: Frame, show: StampText)
    ensures var s := SummaryOf(t, show);
            && s.nRecords == |t.rows|
            && forall k :: 0 <= k < |s.columns| ==>
                 var st := s.columns[k].1;
                 && st.valid <= s.nRecords
                 && (st.valid > 0 ==> st.min.Fin? && st.mean.Fin? && st.max.Fin? &&
                                      st.min.value <= st.mean.value <= st.max.value)
  {
    EntriesBounded(t);
  }

  /** dataset_summary(df): the loop over df.columns fills summary["columns"]. */
  method Summarize(t: Frame, show: StampText) returns (s: Summary)
    ensures s == SummaryOf(t, show)
    ensures s.nRecords == |t.rows|
    ensures forall k :: 0 <= k < |s.columns| ==> s.columns[k].1.valid <= s.nRecords
  {
    var all := AllEntries(t);
    var entries: seq<(string, ColumnStats)> := [];
    for j := 0 to |t.columns|
      invariant entries == PickNumeric(t.columns, all, j)
    {
      if t.columns[j].kind == Numeric {
        entries := entries + [all[j]];
      }
    }
    s := Summary(|t.rows|, entries, TimeRangeOf(t, show));
    SummaryBounds(t, show);
  }
}
