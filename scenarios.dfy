/**
 * Worked tables run through clean_dataset and dataset_summary: a small ocean
 * profile, and two tables on which the order of the cleaning steps shows.
 */
module Scenarios {
  import opened TextOps
  import opened Outcome
  import opened Tables
  import opened Cleaner
  import opened Summarizer

  // ---------------------------------------------------------------------
  // Which of the profile's headers name a time column
  // ---------------------------------------------------------------------

  /** One letter of "time" and one of "date" that the lowered name lacks rule both out. */
  lemma NotTimeNameBy(name: string, c: char, d: char)
    requires c in "time" && c !in Lower(name)
    requires d in "date" && d !in Lower(name)
    ensures !IsTimeName(name)
  {
    AbsentCharNotContained(Lower(name), "time", c);
    AbsentCharNotContained(Lower(name), "date", d);
  }

  lemma LowerDepth()
    ensures Lower("Depth") == "depth"
  {
    forall i | 0 <= i < 5 ensures Lower("Depth")[i] == "depth"[i] {}
  }

  lemma DepthIsNotTimeName()
    ensures !IsTimeName("Depth")
  {
    LowerDepth();
    NotTimeNameBy("Depth", 'i', 'a');
  }

  lemma LowerTemperature()
    ensures Lower("Temperature") == "temperature"
  {
    forall i | 0 <= i < 11 ensures Lower("Temperature")[i] == "temperature"[i] {}
  }

  lemma TemperatureIsNotTimeName()
    ensures !IsTimeName("Temperature")
  {
    LowerTemperature();
    NotTimeNameBy("Temperature", 'i', 'd');
  }

  lemma LowerSalinity()
    ensures Lower("Salinity") == "salinity"
  {
    forall i | 0 <= i < 8 ensures Lower("Salinity")[i] == "salinity"[i] {}
  }

  lemma SalinityIsNotTimeName()
    ensures !IsTimeName("Salinity")
  {
    LowerSalinity();
    NotTimeNameBy("Salinity", 'm', 'd');
  }

  lemma TimeIsTimeName()
    ensures IsTimeName("Time")
  {
    assert Lower("Time") == "time" by {
      forall i | 0 <= i < 4 ensures Lower("Time")[i] == "time"[i] {}
    }
    ContainsAt("time", "time", 0);
  }

  lemma LowerPsal()
    ensures Lower("PSAL") == "psal"
  {
    forall i | 0 <= i < 4 ensures Lower("PSAL")[i] == "psal"[i] {}
  }

  lemma PsalIsNotTimeName()
    ensures !IsTimeName("PSAL")
  {
    LowerPsal();
    NotTimeNameBy("PSAL", 't', 'd');
  }

  // ---------------------------------------------------------------------
  // The profile: a repeated first row and a -9999 temperature
  // ---------------------------------------------------------------------

  /** 2025-01-01 and 2025-01-02 as days since 1970-01-01. */
  const Day1: int := 20089
  const Day2: int := 20090

  /** pd.to_datetime on the two date strings of the profile. */
  function ParseDay(c: Cell): Option<int>
  {
    if c == Text("2025-01-01") then Some(Day1)
    else if c == Text("2025-01-02") then Some(Day2)
    else None
  }

  const Shallow: Row := [Num(0.0), Num(20.5), Num(35.1), Text("2025-01-01")]
  const Deep: Row := [Num(10.0), Num(-9999.0), Num(35.0), Text("2025-01-02")]

  const Measured: seq<Column> :=
    [Column("Depth", Numeric), Column("Temperature", Numeric), Column("Salinity", Numeric)]

  /** The table read_csv yields; the date column is still text. */
  const Profile: Frame := Table(Measured + [Column("Time", Textual)], [Shallow, Shallow, Deep])

  /** The cleaned profile: the repeat is gone, -9999 is missing, dates are parsed. */
  const CleanProfile: Frame :=
    Table(Measured + [Column("Time", Temporal)],
          [[Num(0.0), Num(20.5), Num(35.1), Time(Day1)],
           [Num(10.0), Missing, Num(35.0), Time(Day2)]])

  lemma ProfileDeduplicated()
    ensures DropDuplicates(Profile) == Table(Profile.columns, [Shallow, Deep])
  {
    assert Deep[0] != Shallow[0];
    DedupAppend([], Shallow);
    DedupAppend([Shallow], Shallow);
    DedupAppend([Shallow, Shallow], Deep);
    assert [Shallow] == [] + [Shallow] && [Shallow, Shallow] == [Shallow] + [Shallow];
    assert Profile.rows == [Shallow, Shallow] + [Deep];
  }

  lemma ProfileKeepsAllColumns(t: Frame)
    requires t == Table(Profile.columns, [Shallow, Deep])
    ensures DropEmptyColumns(t) == t
  {
    forall j | 0 <= j < 4 ensures !AllMissing(t, j) {
      assert !t.rows[0][j].Missing?;
    }
    DropEmptyColumnsUnchanged(t);
  }

  lemma ProfileSentinelsReplaced(t: Frame)
    requires t == Table(Profile.columns, [Shallow, Deep])
    ensures ReplaceSentinels(t) == Replaced
  {
    var r := ReplaceSentinels(t);
    assert IsSentinel(Deep[1]);
    assert forall j :: 0 <= j < 4 ==> !IsSentinel(Shallow[j]);
    assert forall j :: 0 <= j < 4 && j != 1 ==> !IsSentinel(Deep[j]);
    assert r.rows[0] == Shallow;
    assert r.rows[1] == [Num(10.0), Missing, Num(35.0), Text("2025-01-02")];
  }

  /** The profile after the sentinel replacement. */
  const Replaced: Frame :=
    Table(Profile.columns, [Shallow, [Num(10.0), Missing, Num(35.0), Text("2025-01-02")]])

  lemma TimeColumnCoerced()
    ensures CoercedTable(Replaced, ParseDay).columns[3] == Column("Time", Temporal)
  {
    TimeIsTimeName();
  }

  /** Coercion leaves a prefix of non-time columns as it was, header and cells. */
  lemma NonTimePrefixKept(t: Frame, parse: TimeParser, n: nat)
    requires n <= |t.columns|
    requires forall c :: c in t.columns[..n] ==> !IsTimeName(c.name)
    ensures CoercedTable(t, parse).columns[..n] == t.columns[..n]
    ensures forall i :: 0 <= i < |t.rows| ==> CoercedTable(t, parse).rows[i][..n] == t.rows[i][..n]
  {
    var r := CoercedTable(t, parse);
    assert forall k :: 0 <= k < n ==> t.columns[k] in t.columns[..n];
    forall i | 0 <= i < |t.rows| ensures r.rows[i][..n] == t.rows[i][..n] {
      assert RowFits(t.columns, t.rows[i]);
    }
  }

  lemma MeasuredNotTime()
    ensures forall c :: c in Measured ==> !IsTimeName(c.name)
  {
    MeasuredNamesAreNotTimeNames();
  }

  lemma MeasuredColumnsKept()
    ensures CoercedTable(Replaced, ParseDay).columns[..3] == Measured
  {
    assert Replaced.columns[..3] == Measured;
    MeasuredNotTime();
    NonTimePrefixKept(Replaced, ParseDay, 3);
  }

  lemma ReplacedColumnsCoerced()
    ensures CoercedTable(Replaced, ParseDay).columns == CleanProfile.columns
  {
    TimeColumnCoerced();
    MeasuredColumnsKept();
    var cs := CoercedTable(Replaced, ParseDay).columns;
    assert cs == cs[..3] + [cs[3]];
  }

  lemma DateCellParsed(i: nat)
    requires i < 2
    ensures CoercedTable(Replaced, ParseDay).rows[i][3] == Time(if i == 0 then Day1 else Day2)
  {
    TimeIsTimeName();
    assert ParseDay(Text("2025-01-01")) == Some(Day1);
    assert ParseDay(Text("2025-01-02")) == Some(Day2);
  }

  lemma MeasuredCellsKept(i: nat)
    requires i < 2
    ensures CoercedTable(Replaced, ParseDay).rows[i][..3] == Replaced.rows[i][..3]
  {
    assert Replaced.columns[..3] == Measured;
    MeasuredNotTime();
    NonTimePrefixKept(Replaced, ParseDay, 3);
  }

  lemma ReplacedRowCoerced(i: nat)
    requires i < 2
    ensures CoercedTable(Replaced, ParseDay).rows[i] == CleanProfile.rows[i]
  {
    DateCellParsed(i);
    MeasuredCellsKept(i);
    var row := CoercedTable(Replaced, ParseDay).rows[i];
    assert row == row[..3] + [row[3]];
  }

  lemma ProfileDatesParsed()
    ensures CoercedTable(Replaced, ParseDay) == CleanProfile
  {
    ReplacedColumnsCoerced();
    ReplacedRowCoerced(0);
    ReplacedRowCoerced(1);
    var r := CoercedTable(Replaced, ParseDay);
    assert r.rows == CleanProfile.rows;
  }

  /** Cleaning the profile leaves two rows, the second without a temperature. */
  lemma {:induction false} ProfileCleaned()
    ensures Cleaned(Profile, ParseDay) == CleanProfile
    ensures |CleanProfile.rows| == 2 && CleanProfile.rows[1][1] == Missing
  {
    ProfileDeduplicated();
    var d := DropDuplicates(Profile);
    ProfileKeepsAllColumns(d);
    ProfileSentinelsReplaced(d);
    ProfileDatesParsed();
  }

  lemma TwoNumbersPresent(a: real, b: real)
    ensures PresentCount([Num(a), Num(b)]) == 2
    ensures NumValues([Num(a), Num(b)]) == [a, b]
  {
    var cells := [Num(a), Num(b)];
    assert cells[..1] == [Num(a)] && cells[..1][..0] == [];
  }

  lemma ExtremesOfTwo(a: real, b: real)
    ensures MinOf([a, b]) == (if a <= b then a else b)
    ensures MaxOf([a, b]) == (if a <= b then b else a)
    ensures SumOf([a, b]) == a + b
  {
    assert [a, b][1..] == [b] && [b][1..] == [];
    assert SumOf([b]) == b;
  }

  lemma StatsOfTwoNumbers(a: real, b: real)
    ensures StatsOf([Num(a), Num(b)]) ==
            ColumnStats(2, Fin(if a <= b then a else b), Fin(if a <= b then b else a), Fin((a + b) / 2.0))
  {
    TwoNumbersPresent(a, b);
    ExtremesOfTwo(a, b);
    assert |[a, b]| as real == 2.0;
  }

  lemma StatsOfNumberAndMissing(a: real)
    ensures StatsOf([Num(a), Missing]) == ColumnStats(1, Fin(a), Fin(a), Fin(a))
  {
    var cells := [Num(a), Missing];
    assert cells[..1] == [Num(a)] && cells[..1][..0] == [];
    assert PresentCount(cells) == 1;
    assert NumValues(cells) == [a];
    assert [a][1..] == [];
    assert SumOf([a]) == a;
    assert MinOf([a]) == a && MaxOf([a]) == a;
    assert SumOf([a]) / |[a]| as real == a;
  }

  lemma EarliestLatestOfTwo(a: int, b: int)
    requires a <= b
    ensures Earliest([Time(a), Time(b)]) == At(a) && Latest([Time(a), Time(b)]) == At(b)
  {
    var cells := [Time(a), Time(b)];
    assert cells[0].Time? && cells[1].Time?;
  }

  lemma CleanProfileColumn(j: nat)
    requires j < 4
    ensures ColumnCells(CleanProfile, j) == [CleanProfile.rows[0][j], CleanProfile.rows[1][j]]
  {
  }

  lemma DepthStats()
    ensures Entry(CleanProfile, 0) == ("Depth", ColumnStats(2, Fin(0.0), Fin(10.0), Fin(5.0)))
  {
    CleanProfileColumn(0);
    StatsOfTwoNumbers(0.0, 10.0);
  }

  lemma TemperatureStats()
    ensures Entry(CleanProfile, 1) == ("Temperature", ColumnStats(1, Fin(20.5), Fin(20.5), Fin(20.5)))
  {
    CleanProfileColumn(1);
    StatsOfNumberAndMissing(20.5);
  }

  lemma SalinityStats()
    ensures Entry(CleanProfile, 2) == ("Salinity", ColumnStats(2, Fin(35.0), Fin(35.1), Fin(35.05)))
  {
    CleanProfileColumn(2);
    assert [CleanProfile.rows[0][2], CleanProfile.rows[1][2]] == [Num(35.1), Num(35.0)];
    StatsOfTwoNumbers(35.1, 35.0);
  }

  lemma MeasuredNamesAreNotTimeNames()
    ensures !IsTimeName(Measured[0].name) && !IsTimeName(Measured[1].name) && !IsTimeName(Measured[2].name)
  {
    DepthIsNotTimeName();
    TemperatureIsNotTimeName();
    SalinityIsNotTimeName();
  }

  lemma CleanProfileFirstTimeColumn()
    ensures FirstTimeColumn(CleanProfile) == Some(3)
  {
    assert CleanProfile.columns[..3] == Measured;
    MeasuredNotTime();
    assert forall k :: 0 <= k < 3 ==> CleanProfile.columns[k] in Measured;
    TimeIsTimeName();
    assert CleanProfile.columns[3].name == "Time";
    FirstTimeColumnAt(CleanProfile, 3);
  }

  lemma CleanProfileTimeRange(show: StampText)
    ensures TimeRangeOf(CleanProfile, show) == Some(TimeRange(show(Day1), show(Day2)))
  {
    CleanProfileFirstTimeColumn();
    CleanProfileColumn(3);
    EarliestLatestOfTwo(Day1, Day2);
  }

  /** Only the first three columns of the cleaned profile are numeric. */
  lemma CleanProfilePick<X>(all: seq<X>)
    requires |all| == 4
    ensures PickNumeric(CleanProfile.columns, all, 4) == all[..3]
  {
    assert PickNumeric(CleanProfile.columns, all, 0) == [];
    assert PickNumeric(CleanProfile.columns, all, 1) == [all[0]];
    assert PickNumeric(CleanProfile.columns, all, 2) == [all[0], all[1]];
    assert PickNumeric(CleanProfile.columns, all, 3) == [all[0], all[1], all[2]];
    assert CleanProfile.columns[3].kind == Temporal;
  }

  lemma ThreeEqual<X>(a: seq<X>, b: seq<X>)
    requires |a| == |b| == 3 && a[0] == b[0] && a[1] == b[1] && a[2] == b[2]
    ensures a == b
  {
  }

  /** The statistics entries the cleaned profile should get, in column order. */
  const ProfileEntries: seq<(string, ColumnStats)> :=
    [("Depth", ColumnStats(2, Fin(0.0), Fin(10.0), Fin(5.0))),
     ("Temperature", ColumnStats(1, Fin(20.5), Fin(20.5), Fin(20.5))),
     ("Salinity", ColumnStats(2, Fin(35.0), Fin(35.1), Fin(35.05)))]

  lemma DepthEntry()
    ensures |NumericEntries(CleanProfile, 4)| == 3
    ensures NumericEntries(CleanProfile, 4)[0] == ProfileEntries[0]
  {
    var all := AllEntries(CleanProfile);
    CleanProfilePick(all);
    assert all[0] == Entry(CleanProfile, 0);
    DepthStats();
  }

  lemma TemperatureEntry()
    ensures |NumericEntries(CleanProfile, 4)| == 3
    ensures NumericEntries(CleanProfile, 4)[1] == ProfileEntries[1]
  {
    var all := AllEntries(CleanProfile);
    CleanProfilePick(all);
    assert all[1] == Entry(CleanProfile, 1);
    TemperatureStats();
  }

  lemma SalinityEntry()
    ensures |NumericEntries(CleanProfile, 4)| == 3
    ensures NumericEntries(CleanProfile, 4)[2] == ProfileEntries[2]
  {
    var all := AllEntries(CleanProfile);
    CleanProfilePick(all);
    assert all[2] == Entry(CleanProfile, 2);
    SalinityStats();
  }

  lemma CleanProfileEntries()
    ensures NumericEntries(CleanProfile, 4) == ProfileEntries
  {
    DepthEntry();
    TemperatureEntry();
    SalinityEntry();
    ThreeEqual(NumericEntries(CleanProfile, 4), ProfileEntries);
  }

  /**
   * The summary of the cleaned profile: two records, one statistics entry
   * per measured column (only one valid temperature), and the dates as the
   * time range.
   */
  lemma ProfileSummary(show: StampText)
    ensures SummaryOf(CleanProfile, show) ==
            Summary(2,
                    [("Depth", ColumnStats(2, Fin(0.0), Fin(10.0), Fin(5.0))),
                     ("Temperature", ColumnStats(1, Fin(20.5), Fin(20.5), Fin(20.5))),
                     ("Salinity", ColumnStats(2, Fin(35.0), Fin(35.1), Fin(35.05)))],
                    Some(TimeRange(show(Day1), show(Day2))))
  {
    CleanProfileEntries();
    CleanProfileTimeRange(show);
  }

  // ---------------------------------------------------------------------
  // Where the step order shows
  // ---------------------------------------------------------------------

  /** One numeric column whose only value is the sentinel -9999. */
  const SentinelOnly: Frame := Table([Column("PSAL", Numeric)], [[Num(-9999.0)]])

  /** The same column once the sentinel is replaced: a single missing cell. */
  const Emptied: Frame := Table([Column("PSAL", Numeric)], [[Missing]])

  /** A header that names no time column is left alone by the time step. */
  lemma CoercePsalTable(t: Frame, parse: TimeParser)
    requires t.columns == [Column("PSAL", Numeric)]
    ensures CoercedTable(t, parse) == t
  {
    PsalIsNotTimeName();
    var r := CoercedTable(t, parse);
    assert r.columns == t.columns;
    forall i | 0 <= i < |t.rows| ensures r.rows[i] == t.rows[i] {
      assert RowFits(r.columns, r.rows[i]) && RowFits(t.columns, t.rows[i]);
    }
    assert r.rows == t.rows;
  }

  lemma SentinelOnlyDistinct()
    ensures DropDuplicates(SentinelOnly) == SentinelOnly
  {
    DedupAppend([], [Num(-9999.0)]);
    assert [] + [[Num(-9999.0)]] == SentinelOnly.rows;
  }

  lemma SentinelOnlyReplaced()
    ensures ReplaceSentinels(SentinelOnly) == Emptied
  {
    var f := ReplaceSentinels(SentinelOnly);
    assert IsSentinel(SentinelOnly.rows[0][0]);
    assert f.rows[0] == [Missing];
  }

  lemma SentinelOnlyCleaned(parse: TimeParser)
    ensures Cleaned(SentinelOnly, parse) == Emptied
  {
    SentinelOnlyDistinct();
    assert !SentinelOnly.rows[0][0].Missing?;
    DropEmptyColumnsUnchanged(SentinelOnly);
    SentinelOnlyReplaced();
    CoercePsalTable(ReplaceSentinels(SentinelOnly), parse);
  }

  lemma EmptiedDistinct()
    ensures DropDuplicates(Emptied) == Emptied
  {
    DedupAppend([], [Missing]);
    assert [] + [[Missing]] == Emptied.rows;
  }

  lemma EmptiedColumnDropped()
    ensures DropEmptyColumns(Emptied) == Table([], [[]])
  {
    assert AllMissing(Emptied, 0);
    assert KeptColumns(Emptied, 0) == [];
    assert KeptColumns(Emptied, 1) == [];
    var e := DropEmptyColumns(Emptied);
    assert e.columns == [] && e.rows[0] == [];
  }

  lemma NoColumnsCleanedAway(parse: TimeParser)
    ensures CoercedTable(ReplaceSentinels(Table([], [[]])), parse) == Table([], [[]])
  {
    var f := ReplaceSentinels(Table([], [[]]));
    assert f.rows[0] == [];
    var g := CoercedTable(f, parse);
    assert g.rows[0] == [];
  }

  lemma EmptiedColumnDroppedOnSecondPass(parse: TimeParser)
    ensures Cleaned(Emptied, parse) == Table([], [[]])
  {
    EmptiedDistinct();
    EmptiedColumnDropped();
    NoColumnsCleanedAway(parse);
  }

  /**
   * clean_dataset is not idempotent: dropna runs before the sentinel
   * replacement, so a column emptied by the replacement survives the first
   * pass and is dropped by the second.
   */
  lemma {:induction false} CleanNotIdempotent(parse: TimeParser)
    ensures Cleaned(Cleaned(SentinelOnly, parse), parse) != Cleaned(SentinelOnly, parse)
  {
    SentinelOnlyCleaned(parse);
    EmptiedColumnDroppedOnSecondPass(parse);
  }

  /** Two rows that differ only in which sentinel they hold. */
  const TwoSentinels: Frame := Table([Column("PSAL", Numeric)], [[Num(-999.0)], [Num(-9999.0)]])

  lemma TwoSentinelsDistinct()
    ensures DropDuplicates(TwoSentinels) == TwoSentinels
  {
    DedupAppend([], [Num(-999.0)]);
    DedupAppend([[Num(-999.0)]], [Num(-9999.0)]);
    assert [] + [[Num(-999.0)]] == [[Num(-999.0)]];
    assert [[Num(-999.0)]] + [[Num(-9999.0)]] == TwoSentinels.rows;
  }

  lemma TwoSentinelsReplaced()
    ensures ReplaceSentinels(TwoSentinels) == Table([Column("PSAL", Numeric)], [[Missing], [Missing]])
  {
    var f := ReplaceSentinels(TwoSentinels);
    assert IsSentinel(TwoSentinels.rows[0][0]) && IsSentinel(TwoSentinels.rows[1][0]);
    assert f.rows[0] == [Missing] && f.rows[1] == [Missing];
  }

  /**
   * drop_duplicates runs before the sentinel replacement, so a cleaned table
   * can still hold repeated rows.
   */
  lemma CleanedMayRepeatRows(parse: TimeParser)
    ensures var r := Cleaned(TwoSentinels, parse);
            |r.rows| == 2 && r.rows[0] == r.rows[1] == [Missing]
  {
    TwoSentinelsDistinct();
    assert !TwoSentinels.rows[0][0].Missing?;
    DropEmptyColumnsUnchanged(TwoSentinels);
    TwoSentinelsReplaced();
    CoercePsalTable(ReplaceSentinels(TwoSentinels), parse);
  }
}
