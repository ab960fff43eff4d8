/** example_flow: download, load, clean, summarise, report. */
module Pipeline {
  import opened TextOps
  import opened Outcome
  import opened Tables
  import opened Fetcher
  import opened Loader
  import opened Cleaner
  import opened Summarizer
  import opened Reporter

  /**
   * What example_flow depends on but cannot compute itself: the network's
   * answer, the CSV/JSON readers, pd.to_datetime, and str() of timestamps
   * and floats.
   */
  datatype Oracles = Oracles(
    responseOk: bool,
    parse: Parser,
    parseTime: TimeParser,
    showStamp: StampText,
    showReal: RealText)

  /**
   * The outcome of example_flow(url) when `cached` holds the names of the
   * files present beforehand: the first error raised, or the cleaned table
   * and its summary.
   */
  function Flow(cached: set<string>, url: string, o: Oracles): (r: Result<(Frame, Summary)>)
    ensures var local := LocalName(url, None);
            local !in cached && !o.responseOk ==> r == Err(FetchError(url))
    ensures var local := LocalName(url, None);
            (local in cached || o.responseOk) && Load(local, o.parse).Err? ==>
              r == Err(Load(local, o.parse).error)
    ensures var local := LocalName(url, None);
            (local in cached || o.responseOk) && Load(local, o.parse).Ok? ==>
              && r.Ok?
              && r.value.0 == Cleaned(Load(local, o.parse).value, o.parseTime)
              && r.value.1 == SummaryOf(r.value.0, o.showStamp)
  {
    var local := LocalName(url, None);
    if local !in cached && !o.responseOk then Err(FetchError(url))
    else
      match Load(local, o.parse)
      case Err(e) => Err(e)
      case Ok(df) =>
        var clean := Cleaned(df, o.parseTime);
        Ok((clean, SummaryOf(clean, o.showStamp)))
  }

  /**
   * example_flow(url): the stages run in order, each error escapes unchanged
   * and nothing is printed after it; on success the report is printed and
   * the cleaned table and summary are returned.
   */
  method ExampleFlow(cache: FileCache, url: string, o: Oracles) returns (r: Result<(Frame, Summary)>, printed: seq<string>)
    modifies cache
    ensures r == Flow(old(cache.files), url, o)
    ensures printed == if r.Ok? then ReportLines(r.value.1, o.showReal) else []
    ensures cache.files ==
            if LocalName(url, None) !in old(cache.files) && o.responseOk
            then old(cache.files) + {LocalName(url, None)} else old(cache.files)
    ensures cache.requests == old(cache.requests) + (if LocalName(url, None) in old(cache.files) then [] else [url])
  {
    ghost var local := LocalName(url, None);
    var fetched := cache.Download(url, None, o.responseOk);
    if fetched.Err? {
      assert local !in old(cache.files) && !o.responseOk;
      return Err(fetched.error), [];
    }
    assert fetched.value == local && (local in old(cache.files) || o.responseOk);
    var loaded := Load(fetched.value, o.parse);
    if loaded.Err? {
      return Err(loaded.error), [];
    }
    var clean := Clean(loaded.value, o.parseTime);
    var summary := Summarize(clean, o.showStamp);
    printed := ReportLines(summary, o.showReal);
    r := Ok((clean, summary));
  }

  /**
   * A successful run returns a cleaned table and the summary of that very
   * table: one record per surviving row, and the bounds of StatsBounds on
   * every column entry.
   */
  lemma FlowSummaryDescribesCleanTable(cached: set<string>, url: string, o: Oracles)
    requires Flow(cached, url, o).Ok?
    ensures var (clean, s) := Flow(cached, url, o).value;
            && s.nRecords == |clean.rows|
            && forall k :: 0 <= k < |s.columns| ==>
                 var st := s.columns[k].1;
                 && st.valid <= s.nRecords
                 && (st.valid > 0 ==> st.min.Fin? && st.mean.Fin? && st.max.Fin? &&
                                      st.min.value <= st.mean.value <= st.max.value)
  {
    var (clean, s) := Flow(cached, url, o).value;
    SummaryBounds(clean, o.showStamp);
  }

  /**
   * A failed download stops the run before any reader is called: the
   * outcome is the fetch error whatever the readers would do.
   */
  lemma FetchFailureSkipsLoading(cached: set<string>, url: string, o: Oracles, parse2: Parser)
    requires LocalName(url, None) !in cached && !o.responseOk
    ensures Flow(cached, url, o) == Flow(cached, url, o.(parse := parse2)) == Err(FetchError(url))
  {
  }

  /** A cached file needs no network: the run's outcome ignores the network's answer. */
  lemma CachedRunIgnoresNetwork(cached: set<string>, url: string, o: Oracles)
    requires LocalName(url, None) in cached
    ensures Flow(cached, url, o) == Flow(cached, url, o.(responseOk := false))
  {
  }

  /** The fallback name "ocean_data.csv" is always read with the CSV reader. */
  lemma DefaultNameReadAsCsv(parse: Parser)
    ensures Load(DefaultName, parse) == parse(Csv, DefaultName)
  {
    assert DefaultName[|DefaultName| - 4..] == ".csv";
  }
}
