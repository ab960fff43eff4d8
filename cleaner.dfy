/**
 * clean_dataset: four fixed table transformations, applied in this order:
 * drop duplicate rows, drop all-missing columns, turn sentinel numbers into
 * missing cells, coerce time/date-named columns to timestamps.
 */
module Cleaner {
  import opened Outcome
  import opened Tables

  // ---------------------------------------------------------------------
  // Step 1: df.drop_duplicates()
  // ---------------------------------------------------------------------

  /** Row i survives exactly when no earlier row is equal to it. */
  function DedupRows(rows: seq<Row>): (r: seq<Row>)
    ensures |r| <= |rows|
    ensures forall k :: 0 <= k < |r| ==> r[k] in rows
  {
    if rows == [] then []
    else
      var init := rows[..|rows| - 1];
      var last := rows[|rows| - 1];
      assert forall x :: x in init ==> x in rows;
      DedupRows(init) + (if last in init then [] else [last])
  }

  /**
   * A frame with no columns is empty for pandas and comes back unchanged;
   * any other frame keeps the rows DedupRows keeps.
   */
  function DropDuplicates(t: Frame): (r: Frame)
    ensures r.columns == t.columns
    ensures t.columns == [] ==> r == t
    ensures t.columns != [] ==> r.rows == DedupRows(t.rows)
  {
    if t.columns == [] then t
    else
      var rows := DedupRows(t.rows);
      assert forall k :: 0 <= k < |rows| ==> RowFits(t.columns, rows[k]) by {
        forall k | 0 <= k < |rows| ensures RowFits(t.columns, rows[k]) {
          var i :| 0 <= i < |t.rows| && t.rows[i] == rows[k];
        }
      }
      Table(t.columns, rows)
  }

  /** drop_duplicates row by row: a new row is kept only if it has not been seen. */
  lemma DedupAppend(rows: seq<Row>, x: Row)
    ensures DedupRows(rows + [x]) == DedupRows(rows) + (if x in rows then [] else [x])
  {
    assert (rows + [x])[..|rows|] == rows;
  }

  /** The position of the first occurrence of x. */
  function FirstIndex(rows: seq<Row>, x: Row): (i: nat)
    requires x in rows
    ensures i < |rows| && rows[i] == x && x !in rows[..i]
  {
    if rows[0] == x then 0 else 1 + FirstIndex(rows[1..], x)
  }

  lemma FirstIndexInPrefix(rows: seq<Row>, n: nat, x: Row)
    requires n <= |rows| && x in rows[..n]
    ensures FirstIndex(rows, x) == FirstIndex(rows[..n], x)
  {
  }

  /** No two surviving rows are equal. */
  lemma {:induction false} DedupNoRepeats(rows: seq<Row>)
    ensures forall i, j :: 0 <= i < j < |DedupRows(rows)| ==> DedupRows(rows)[i] != DedupRows(rows)[j]
    decreases |rows|
  {
    if rows != [] {
      var init := rows[..|rows| - 1];
      DedupNoRepeats(init);
    }
  }

  /** A row occurs in the output exactly when it occurs in the input. */
  lemma {:induction false} DedupSameRows(rows: seq<Row>)
    ensures forall x :: x in DedupRows(rows) <==> x in rows
    decreases |rows|
  {
    if rows != [] {
      var init := rows[..|rows| - 1];
      DedupSameRows(init);
      assert rows == init + [rows[|rows| - 1]];
    }
  }

  /**
   * Survivors keep the order of their first occurrences: the output is the
   * distinct input rows listed by where each first appears.
   */
  lemma {:induction false} DedupKeepsOrder(rows: seq<Row>)
    ensures forall i, j :: 0 <= i < j < |DedupRows(rows)| ==>
              FirstIndex(rows, DedupRows(rows)[i]) < FirstIndex(rows, DedupRows(rows)[j])
    decreases |rows|
  {
    if rows != [] {
      var n := |rows| - 1;
      var init := rows[..n];
      var last := rows[n];
      DedupKeepsOrder(init);
      var d := DedupRows(init);
      forall k | 0 <= k < |d|
        ensures FirstIndex(rows, d[k]) == FirstIndex(init, d[k]) < n
      {
        FirstIndexInPrefix(rows, n, d[k]);
      }
      if last !in init {
        assert rows[..n] == init;
        assert FirstIndex(rows, last) == n;
      }
    }
  }

  /** The indices of rows equal to an earlier row: what drop_duplicates removes. */
  function LaterDuplicates(rows: seq<Row>): set<nat>
  {
    set i: nat | i < |rows| && rows[i] in rows[..i]
  }

  /** Extending the rows by one adds its index exactly when it repeats an earlier row. */
  lemma LaterDuplicatesStep(rows: seq<Row>)
    requires rows != []
    ensures var n := |rows| - 1;
            LaterDuplicates(rows) ==
              LaterDuplicates(rows[..n]) + (if rows[n] in rows[..n] then {n} else {})
  {
    var n := |rows| - 1;
    var init := rows[..n];
    var extra: set<nat> := if rows[n] in init then {n} else {};
    forall i: nat | i < |rows|
      ensures i in LaterDuplicates(rows) <==> i in LaterDuplicates(init) + extra
    {
      if i < n {
        assert rows[..i] == init[..i];
      }
    }
    assert LaterDuplicates(rows) == LaterDuplicates(init) + extra;
  }

  /** The output loses exactly one row per later duplicate. */
  lemma {:induction false} DedupCount(rows: seq<Row>)
    ensures |DedupRows(rows)| == |rows| - |LaterDuplicates(rows)|
    decreases |rows|
  {
    if rows == [] {
      assert LaterDuplicates(rows) == {};
    } else {
      var n := |rows| - 1;
      DedupCount(rows[..n]);
      LaterDuplicatesStep(rows);
      assert n !in LaterDuplicates(rows[..n]);
    }
  }

  // ---------------------------------------------------------------------
  // Step 2: df.dropna(axis=1, how="all")
  // ---------------------------------------------------------------------

  /** Every cell of column j is missing (vacuously so when there are no rows). */
  predicate AllMissing(t: Frame, j: nat)
    requires j < |t.columns|
  {
    forall i :: 0 <= i < |t.rows| ==> t.rows[i][j].Missing?
  }

  /** The indices, below n and in increasing order, of the columns dropna keeps. */
  function KeptColumns(t: Frame, n: nat): (ks: seq<nat>)
    requires n <= |t.columns|
    ensures |ks| <= n
    ensures forall k :: 0 <= k < |ks| ==> ks[k] < n
    ensures forall k, l :: 0 <= k < l < |ks| ==> ks[k] < ks[l]
    ensures forall j :: 0 <= j < n ==> (j in ks <==> !AllMissing(t, j))
  {
    if n == 0 then []
    else KeptColumns(t, n - 1) + (if AllMissing(t, n - 1) then [] else [n - 1])
  }

  /** Where a column with a present cell lands among the kept columns. */
  lemma KeptAt(t: Frame, j: nat) returns (k: nat)
    requires j < |t.columns| && !AllMissing(t, j)
    ensures k < |KeptColumns(t, |t.columns|)| && KeptColumns(t, |t.columns|)[k] == j
  {
    var ks := KeptColumns(t, |t.columns|);
    assert j in ks;
    k :| 0 <= k < |ks| && ks[k] == j;
  }

  /** The cells of row at the given column indices. */
  function Project(row: Row, ks: seq<nat>): (r: Row)
    requires forall k :: 0 <= k < |ks| ==> ks[k] < |row|
    ensures |r| == |ks| && forall k :: 0 <= k < |ks| ==> r[k] == row[ks[k]]
  {
    seq(|ks|, k requires 0 <= k < |ks| => row[ks[k]])
  }

  function DropEmptyColumns(t: Frame): (r: Frame)
    ensures |r.rows| == |t.rows|
    ensures var ks := KeptColumns(t, |t.columns|);
            && |r.columns| == |ks|
            && (forall k :: 0 <= k < |ks| ==> r.columns[k] == t.columns[ks[k]])
            && (forall i, k :: 0 <= i < |t.rows| && 0 <= k < |ks| ==> r.rows[i][k] == t.rows[i][ks[k]])
  {
    var ks := KeptColumns(t, |t.columns|);
    var columns := seq(|ks|, k requires 0 <= k < |ks| => t.columns[ks[k]]);
    var rows := seq(|t.rows|, i requires 0 <= i < |t.rows| => Project(t.rows[i], ks));
    assert forall i :: 0 <= i < |rows| ==> RowFits(columns, rows[i]) by {
      forall i | 0 <= i < |rows| ensures RowFits(columns, rows[i]) {
        assert RowFits(t.columns, t.rows[i]);
      }
    }
    Table(columns, rows)
  }

  /** A column survives exactly when it held at least one non-missing cell. */
  lemma DropEmptyColumnsExactly(t: Frame)
    ensures forall j :: 0 <= j < |t.columns| ==>
              (t.columns[j] in DropEmptyColumns(t).columns <==> !AllMissing(t, j))
  {
    var r := DropEmptyColumns(t);
    var ks := KeptColumns(t, |t.columns|);
    forall j | 0 <= j < |t.columns|
      ensures t.columns[j] in r.columns <==> !AllMissing(t, j)
    {
      if t.columns[j] in r.columns {
        var k :| 0 <= k < |r.columns| && r.columns[k] == t.columns[j];
        assert t.columns[ks[k]] == t.columns[j];
        assert ks[k] == j;
      }
      if !AllMissing(t, j) {
        var k :| 0 <= k < |ks| && ks[k] == j;
        assert r.columns[k] == t.columns[j];
      }
    }
  }

  /** No all-missing column is left right after the drop. */
  lemma NoEmptyColumnAfterDrop(t: Frame)
    ensures forall k :: 0 <= k < |DropEmptyColumns(t).columns| ==> !AllMissing(DropEmptyColumns(t), k)
  {
    var r := DropEmptyColumns(t);
    var ks := KeptColumns(t, |t.columns|);
    forall k | 0 <= k < |r.columns| ensures !AllMissing(r, k) {
      assert !AllMissing(t, ks[k]);
      var i :| 0 <= i < |t.rows| && !t.rows[i][ks[k]].Missing?;
      assert r.rows[i][k] == t.rows[i][ks[k]];
    }
  }

  /** With no empty column, every index is kept, in order. */
  lemma {:induction false} KeptColumnsAll(t: Frame, n: nat)
    requires n <= |t.columns|
    requires forall j :: 0 <= j < n ==> !AllMissing(t, j)
    ensures KeptColumns(t, n) == seq(n, j => j)
  {
    if n > 0 {
      KeptColumnsAll(t, n - 1);
      assert seq(n, j => j) == seq(n - 1, j => j) + [n - 1];
    }
  }

  /** A table without an empty column passes dropna unchanged. */
  lemma DropEmptyColumnsUnchanged(t: Frame)
    requires forall j :: 0 <= j < |t.columns| ==> !AllMissing(t, j)
    ensures DropEmptyColumns(t) == t
  {
    KeptColumnsAll(t, |t.columns|);
    var r := DropEmptyColumns(t);
    assert r.columns == t.columns;
    forall i | 0 <= i < |t.rows| ensures r.rows[i] == t.rows[i] {
      assert RowFits(r.columns, r.rows[i]) && RowFits(t.columns, t.rows[i]);
    }
    assert r.rows == t.rows;
  }

  /** dropna(axis=1, how="all") applied twice is applied once. */
  lemma DropEmptyColumnsIdempotent(t: Frame)
    ensures DropEmptyColumns(DropEmptyColumns(t)) == DropEmptyColumns(t)
  {
    NoEmptyColumnAfterDrop(t);
    DropEmptyColumnsUnchanged(DropEmptyColumns(t));
  }

  // ---------------------------------------------------------------------
  // Step 3: df.replace([-999, -9999, 9999], np.nan)
  // ---------------------------------------------------------------------

  const Sentinels: set<real> := {-999.0, -9999.0, 9999.0}

  predicate IsSentinel(c: Cell)
  {
    c.Num? && c.value in Sentinels
  }

  /** Every sentinel cell, in whatever column, becomes missing; nothing else moves. */
  function ReplaceSentinels(t: Frame): (r: Frame)
    ensures r.columns == t.columns && |r.rows| == |t.rows|
    ensures forall i, j :: 0 <= i < |t.rows| && 0 <= j < |t.columns| ==>
              && (IsSentinel(t.rows[i][j]) ==> r.rows[i][j] == Missing)
              && (!IsSentinel(t.rows[i][j]) ==> r.rows[i][j] == t.rows[i][j])
  {
    var rows := seq(|t.rows|, i requires 0 <= i < |t.rows| =>
      seq(|t.rows[i]|, j requires 0 <= j < |t.rows[i]| =>
        if IsSentinel(t.rows[i][j]) then Missing else t.rows[i][j]));
    assert forall i :: 0 <= i < |rows| ==> RowFits(t.columns, rows[i]) by {
      forall i | 0 <= i < |rows| ensures RowFits(t.columns, rows[i]) {
        assert RowFits(t.columns, t.rows[i]);
      }
    }
    Table(t.columns, rows)
  }

  /** No sentinel is left after the replacement. */
  lemma NoSentinelAfterReplace(t: Frame)
    ensures forall i, j :: 0 <= i < |t.rows| && 0 <= j < |t.columns| ==>
              !IsSentinel(ReplaceSentinels(t).rows[i][j])
  {
  }

  // ---------------------------------------------------------------------
  // Step 4: df[col] = pd.to_datetime(df[col], errors="coerce")
  // ---------------------------------------------------------------------

  /**
   * pd.to_datetime on one value: the instant it denotes, or None where the
   * value cannot be read as a timestamp.
   */
  type TimeParser = Cell -> Option<int>

  /** errors="coerce": an unreadable value becomes NaT instead of raising. */
  function CoerceCell(parse: TimeParser, c: Cell): (d: Cell)
    ensures d.Missing? || d.Time?
    ensures c.Missing? ==> d.Missing?
    ensures c.Time? ==> d == c
    ensures !c.Missing? && !c.Time? ==>
              && (d.Time? <==> parse(c).Some?)
              && (d.Time? ==> d.stamp == parse(c).value)
  {
    match c
    case Missing => Missing
    case Time(_) => c
    case _ =>
      match parse(c)
      case Some(n) => Time(n)
      case None => Missing
  }

  /** The assignment to df[col] for the column at index j. */
  function CoerceColumn(t: Frame, j: nat, parse: TimeParser): (r: Frame)
    requires j < |t.columns|
    ensures r.columns == t.columns[j := Column(t.columns[j].name, Temporal)]
    ensures |r.rows| == |t.rows|
    ensures forall i, k :: 0 <= i < |t.rows| && 0 <= k < |t.columns| ==>
              r.rows[i][k] == if k == j then CoerceCell(parse, t.rows[i][j]) else t.rows[i][k]
  {
    var columns := t.columns[j := Column(t.columns[j].name, Temporal)];
    var rows := seq(|t.rows|, i requires 0 <= i < |t.rows| =>
      assert RowFits(t.columns, t.rows[i]);
      t.rows[i][j := CoerceCell(parse, t.rows[i][j])]);
    assert forall i :: 0 <= i < |rows| ==> RowFits(columns, rows[i]) by {
      forall i | 0 <= i < |rows| ensures RowFits(columns, rows[i]) {
        assert RowFits(t.columns, t.rows[i]);
      }
    }
    Table(columns, rows)
  }

  function CoercedColumn(c: Column): Column
  {
    if IsTimeName(c.name) then Column(c.name, Temporal) else c
  }

  /**
   * The table after the loop: every time/date-named column is a datetime
   * column whose cells are the coerced originals; every other column,
   * the column order and the row count are as before.
   */
  function CoercedTable(t: Frame, parse: TimeParser): (r: Frame)
    ensures |r.columns| == |t.columns| && |r.rows| == |t.rows|
    ensures forall j :: 0 <= j < |t.columns| ==> r.columns[j].name == t.columns[j].name
    ensures forall j :: 0 <= j < |t.columns| && IsTimeName(t.columns[j].name) ==> r.columns[j].kind == Temporal
    ensures forall j :: 0 <= j < |t.columns| && !IsTimeName(t.columns[j].name) ==> r.columns[j] == t.columns[j]
    ensures forall i, j :: 0 <= i < |t.rows| && 0 <= j < |t.columns| ==>
              && (IsTimeName(t.columns[j].name) ==> r.rows[i][j] == CoerceCell(parse, t.rows[i][j]))
              && (!IsTimeName(t.columns[j].name) ==> r.rows[i][j] == t.rows[i][j])
  {
    var columns := seq(|t.columns|, j requires 0 <= j < |t.columns| => CoercedColumn(t.columns[j]));
    var rows := seq(|t.rows|, i requires 0 <= i < |t.rows| =>
      assert RowFits(t.columns, t.rows[i]);
      seq(|t.columns|, j requires 0 <= j < |t.columns| =>
        if IsTimeName(t.columns[j].name) then CoerceCell(parse, t.rows[i][j]) else t.rows[i][j]));
    assert forall i :: 0 <= i < |rows| ==> RowFits(columns, rows[i]) by {
      forall i | 0 <= i < |rows| ensures RowFits(columns, rows[i]) {
        assert RowFits(t.columns, t.rows[i]);
      }
    }
    Table(columns, rows)
  }

  /** The `for col in df.columns` loop of clean_dataset. */
  method CoerceTimeColumns(t: Frame, parse: TimeParser) returns (r: Frame)
    ensures r == CoercedTable(t, parse)
  {
    r := t;
    for j := 0 to |t.columns|
      invariant |r.columns| == |t.columns| && |r.rows| == |t.rows|
      invariant forall k :: 0 <= k < |t.columns| ==>
                  r.columns[k] == if k < j then CoercedColumn(t.columns[k]) else t.columns[k]
      invariant forall i, k :: 0 <= i < |t.rows| && 0 <= k < |t.columns| ==>
                  r.rows[i][k] == if k < j && IsTimeName(t.columns[k].name)
                                  then CoerceCell(parse, t.rows[i][k]) else t.rows[i][k]
    {
      if IsTimeName(r.columns[j].name) {
        r := CoerceColumn(r, j, parse);
      }
    }
    var c := CoercedTable(t, parse);
    assert r.columns == c.columns;
    forall i | 0 <= i < |t.rows| ensures r.rows[i] == c.rows[i] {
      assert RowFits(r.columns, r.rows[i]) && RowFits(c.columns, c.rows[i]);
    }
    assert r.rows == c.rows;
  }

  /** Coercing an already coerced table changes nothing. */
  lemma CoerceIdempotent(t: Frame, parse: TimeParser)
    ensures CoercedTable(CoercedTable(t, parse), parse) == CoercedTable(t, parse)
  {
    var c := CoercedTable(t, parse);
    var cc := CoercedTable(c, parse);
    assert cc.columns == c.columns;
    forall i | 0 <= i < |t.rows| ensures cc.rows[i] == c.rows[i] {
      assert RowFits(cc.columns, cc.rows[i]) && RowFits(c.columns, c.rows[i]);
    }
    assert cc.rows == c.rows;
  }

  // ---------------------------------------------------------------------
  // The whole of clean_dataset
  // ---------------------------------------------------------------------

  /**
   * The four steps, in the order clean_dataset applies them: no more rows or
   * columns than the input, no sentinel left, and every time/date-named
   * column a datetime column.
   */
  function Cleaned(t: Frame, parse: TimeParser): (r: Frame)
    ensures |r.rows| <= |t.rows| && |r.columns| <= |t.columns|
    ensures forall i, k :: 0 <= i < |r.rows| && 0 <= k < |r.columns| ==> !IsSentinel(r.rows[i][k])
    ensures forall k :: 0 <= k < |r.columns| && IsTimeName(r.columns[k].name) ==> r.columns[k].kind == Temporal
  {
    var e := DropEmptyColumns(DropDuplicates(t));
    NoSentinelAfterReplace(e);
    CoercedTable(ReplaceSentinels(e), parse)
  }

  /** clean_dataset(df), rebinding df after each step. */
  method Clean(t: Frame, parse: TimeParser) returns (r: Frame)
    ensures r == Cleaned(t, parse)
  {
    var df := DropDuplicates(t);
    df := DropEmptyColumns(df);
    df := ReplaceSentinels(df);
    r := CoerceTimeColumns(df, parse);
  }

  /** Some column of t carries this name. */
  predicate HasColumn(t: Table, name: string)
  {
    exists k :: 0 <= k < |t.columns| && t.columns[k].name == name
  }

  /** Deduplication cannot empty or fill a column: the same rows remain. */
  lemma DedupKeepsAllMissing(t: Frame, j: nat)
    requires j < |t.columns|
    ensures AllMissing(DropDuplicates(t), j) <==> AllMissing(t, j)
  {
    var d := DropDuplicates(t);
    DedupSameRows(t.rows);
    if !AllMissing(t, j) {
      var i :| 0 <= i < |t.rows| && !t.rows[i][j].Missing?;
      assert t.rows[i] in d.rows;
    }
    if !AllMissing(d, j) {
      var i :| 0 <= i < |d.rows| && !d.rows[i][j].Missing?;
      assert d.rows[i] in t.rows;
    }
  }

  /**
   * clean_dataset leaves one row per distinct input row, except that a
   * frame without columns keeps all its rows.
   */
  lemma CleanedRowCount(t: Frame, parse: TimeParser)
    ensures |Cleaned(t, parse).rows| ==
            if t.columns == [] then |t.rows| else |t.rows| - |LaterDuplicates(t.rows)|
  {
    DedupCount(t.rows);
  }

  /** Column j of the input is kept exactly when it has a non-missing cell. */
  lemma CleanedKeepsColumn(t: Frame, parse: TimeParser, j: nat)
    requires j < |t.columns|
    ensures HasColumn(Cleaned(t, parse), t.columns[j].name) <==> !AllMissing(t, j)
  {
    var d := DropDuplicates(t);
    var e := DropEmptyColumns(d);
    var r := Cleaned(t, parse);
    DedupKeepsAllMissing(t, j);
    var ks := KeptColumns(d, |d.columns|);
    if HasColumn(r, t.columns[j].name) {
      var k :| 0 <= k < |r.columns| && r.columns[k].name == t.columns[j].name;
      assert e.columns[k] == t.columns[ks[k]];
      assert ks[k] == j;
      assert j in ks;
    }
    if !AllMissing(t, j) {
      var k := KeptAt(d, j);
      assert r.columns[k].name == t.columns[j].name;
    }
  }

  /** A column of the input is kept exactly when it has a non-missing cell. */
  lemma CleanedKeepsNonEmptyColumns(t: Frame, parse: TimeParser)
    ensures forall j :: 0 <= j < |t.columns| ==>
              (HasColumn(Cleaned(t, parse), t.columns[j].name) <==> !AllMissing(t, j))
  {
    forall j | 0 <= j < |t.columns|
      ensures HasColumn(Cleaned(t, parse), t.columns[j].name) <==> !AllMissing(t, j)
    {
      CleanedKeepsColumn(t, parse, j);
    }
  }

  /** A column made only of sentinels passes drop_duplicates and dropna, still all sentinels. */
  lemma SentinelColumnSurvivesDrop(t: Frame, j: nat)
    requires j < |t.columns| && |t.rows| > 0
    requires forall i :: 0 <= i < |t.rows| ==> IsSentinel(t.rows[i][j])
    ensures var e := DropEmptyColumns(DropDuplicates(t));
            exists k :: 0 <= k < |e.columns| && e.columns[k] == t.columns[j] &&
                        forall i :: 0 <= i < |e.rows| ==> IsSentinel(e.rows[i][k])
  {
    var d := DropDuplicates(t);
    var e := DropEmptyColumns(d);
    assert !t.rows[0][j].Missing?;
    DedupKeepsAllMissing(t, j);
    var k := KeptAt(d, j);
    DedupSameRows(t.rows);
    forall i | 0 <= i < |e.rows| ensures IsSentinel(e.rows[i][k]) {
      assert e.rows[i][k] == d.rows[i][j];
      assert d.rows[i] in t.rows;
    }
    assert e.columns[k] == t.columns[j];
  }

  /** A column of sentinels leaves the replacement and the time step all missing. */
  lemma SentinelColumnEndsMissing(e: Frame, k: nat, parse: TimeParser)
    requires k < |e.columns|
    requires forall i :: 0 <= i < |e.rows| ==> IsSentinel(e.rows[i][k])
    ensures AllMissing(CoercedTable(ReplaceSentinels(e), parse), k)
  {
    var f := ReplaceSentinels(e);
    var r := CoercedTable(f, parse);
    forall i | 0 <= i < |r.rows| ensures r.rows[i][k].Missing? {
      assert f.rows[i][k] == Missing;
    }
  }

  /**
   * A column made only of sentinels is not empty when dropna runs, so it is
   * kept, and it leaves clean_dataset with every cell missing.
   */
  lemma SentinelColumnKeptEmpty(t: Frame, j: nat, parse: TimeParser)
    requires j < |t.columns| && |t.rows| > 0
    requires forall i :: 0 <= i < |t.rows| ==> IsSentinel(t.rows[i][j])
    ensures var r := Cleaned(t, parse);
            exists k :: 0 <= k < |r.columns| && r.columns[k].name == t.columns[j].name && AllMissing(r, k)
  {
    var e := DropEmptyColumns(DropDuplicates(t));
    SentinelColumnSurvivesDrop(t, j);
    var k :| 0 <= k < |e.columns| && e.columns[k] == t.columns[j] &&
             forall i :: 0 <= i < |e.rows| ==> IsSentinel(e.rows[i][k]);
    SentinelColumnEndsMissing(e, k, parse);
    assert Cleaned(t, parse).columns[k].name == t.columns[j].name;
  }
}
