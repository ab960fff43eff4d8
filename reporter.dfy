/** print_report: the summary as the sequence of strings it prints. */
module Reporter {
  import opened TextOps
  import opened Outcome
  import opened Summarizer

  /** str() of a finite Python float. */
  type RealText = real -> string

  const Header: string := "\n=== Dataset Report ==="

  /** str() of a float; NaN prints as "nan". */
  function FloatText(show: RealText, f: Float): string
  {
    match f
    case NaN => "nan"
    case Fin(x) => show(x)
  }

  function RecordsLine(n: nat): string
  {
    "Total records: " + NatToString(n)
  }

  /** The time-range line opens with its label and ends with the extra newline. */
  function TimeLine(r: TimeRange): (line: string)
    ensures StartsWith(line, "Time range: ")
    ensures EndsWith(line, "\n")
  {
    var p := "Time range: ";
    var line := p + r.start + " -> " + r.end + "\n";
    assert line[..|p|] == p;
    line
  }

  /** A column line opens with the column's name and its valid count. */
  function ColumnLine(show: RealText, entry: (string, ColumnStats)): (line: string)
    ensures StartsWith(line, " - " + entry.0 + ": valid=")
  {
    var p := " - " + entry.0 + ": valid=";
    var rest := NatToString(entry.1.valid)
      + ", min=" + FloatText(show, entry.1.min)
      + ", max=" + FloatText(show, entry.1.max)
      + ", mean=" + FloatText(show, entry.1.mean);
    assert (p + rest)[..|p|] == p;
    p + rest
  }

  /**
   * The argument of each print call, in order: the header, the record count,
   * the time range when the summary has one, then one line per summarised
   * column in the summary's order.
   */
  function ReportLines(s: Summary, show: RealText): (lines: seq<string>)
    ensures |lines| == 2 + (if s.timeRange.Some? then 1 else 0) + |s.columns|
    ensures lines[0] == Header && lines[1] == RecordsLine(s.nRecords)
    ensures s.timeRange.Some? ==> lines[2] == TimeLine(s.timeRange.value)
    ensures forall k :: 0 <= k < |s.columns| ==>
              lines[|lines| - |s.columns| + k] == ColumnLine(show, s.columns[k])
  {
    [Header, RecordsLine(s.nRecords)]
      + (match s.timeRange case Some(r) => [TimeLine(r)] case None => [])
      + seq(|s.columns|, k requires 0 <= k < |s.columns| => ColumnLine(show, s.columns[k]))
  }

  /** The line printed for the k-th summarised column names that column. */
  lemma ColumnLineInSummaryOrder(s: Summary, show: RealText, k: nat)
    requires k < |s.columns|
    ensures var lines := ReportLines(s, show);
            StartsWith(lines[|lines| - |s.columns| + k], " - " + s.columns[k].0 + ": valid=")
  {
  }

  lemma HeaderIsNotTimeLine()
    ensures !StartsWith(Header, "Time range: ")
  {
    assert Header[0] != "Time range: "[0];
  }

  lemma RecordsLineIsNotTimeLine(n: nat)
    ensures !StartsWith(RecordsLine(n), "Time range: ")
  {
    assert RecordsLine(n)[1] == 'o';
  }

  lemma ColumnLineIsNotTimeLine(show: RealText, e: (string, ColumnStats))
    ensures !StartsWith(ColumnLine(show, e), "Time range: ")
  {
    assert ColumnLine(show, e)[0] == (" - " + e.0 + ": valid=")[0];
  }

  /**
   * A line reading "Time range: ..." is printed only when the summary has a
   * time range, and then only as the third line.
   */
  lemma TimeLineOnlyWhenPresent(s: Summary, show: RealText, k: nat)
    requires k < |ReportLines(s, show)| && StartsWith(ReportLines(s, show)[k], "Time range: ")
    ensures s.timeRange.Some? && k == 2
  {
    var off := |ReportLines(s, show)| - |s.columns|;
    HeaderIsNotTimeLine();
    RecordsLineIsNotTimeLine(s.nRecords);
    if k >= off {
      ColumnLineIsNotTimeLine(show, s.columns[k - off]);
    }
  }
}
