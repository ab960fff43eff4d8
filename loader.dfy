/** load_dataset: pick the reader from the path's suffix. */
module Loader {
  import opened TextOps
  import opened Outcome
  import opened Tables

  datatype Format = Csv | Json

  /**
   * pd.read_csv and pd.read_json, given the format and the path: a table, or
   * a ParseError for a file the reader cannot interpret.
   */
  type Parser = (Format, string) -> Result<Frame>

  /** A path that ends in s ends in s's last character. */
  lemma EndsWithLast(path: string, s: string)
    requires EndsWith(path, s) && s != []
    ensures path[|path| - 1] == s[|s| - 1]
  {
    assert path[|path| - |s|..][|s| - 1] == path[|path| - 1];
  }

  /** The if/elif on path.endswith; the test is case-sensitive. */
  function FormatOf(path: string): (f: Option<Format>)
    ensures f == Some(Csv) <==> EndsWith(path, ".csv")
    ensures f == Some(Json) <==> EndsWith(path, ".json")
  {
    if EndsWith(path, ".csv") then
      EndsWithLast(path, ".csv");
      Some(Csv)
    else if EndsWith(path, ".json") then Some(Json)
    else None
  }

  /**
   * load_dataset(path): a ".csv" path goes to the CSV reader, a ".json" path
   * to the JSON reader, and any other path raises the ValueError.
   */
  function Load(path: string, parse: Parser): (r: Result<Frame>)
    ensures EndsWith(path, ".csv") ==> r == parse(Csv, path)
    ensures EndsWith(path, ".json") ==> r == parse(Json, path)
    ensures !EndsWith(path, ".csv") && !EndsWith(path, ".json") ==> r == Err(UnsupportedFormat(UnsupportedMessage))
  {
    match FormatOf(path)
    case Some(f) => parse(f, path)
    case None => Err(UnsupportedFormat(UnsupportedMessage))
  }

  /**
   * Any other suffix is rejected before a reader is chosen: the outcome is
   * the same whatever the readers would have done.
   */
  lemma UnsupportedIgnoresParsers(path: string, parse1: Parser, parse2: Parser)
    requires FormatOf(path).None?
    ensures Load(path, parse1) == Load(path, parse2) == Err(UnsupportedFormat(UnsupportedMessage))
  {
  }

  /** An ".xml" file is refused. */
  lemma XmlRejected(stem: string, parse: Parser)
    ensures Load(stem + ".xml", parse) == Err(UnsupportedFormat(UnsupportedMessage))
  {
    var p := stem + ".xml";
    assert p[|p| - 1] == 'l';
    if EndsWith(p, ".csv") { EndsWithLast(p, ".csv"); }
    if EndsWith(p, ".json") { EndsWithLast(p, ".json"); }
  }

  /** The suffix test is case-sensitive: ".CSV" is refused. */
  lemma UpperCaseSuffixRejected(stem: string, parse: Parser)
    ensures Load(stem + ".CSV", parse) == Err(UnsupportedFormat(UnsupportedMessage))
  {
    var p := stem + ".CSV";
    assert p[|p| - 1] == 'V';
    if EndsWith(p, ".csv") { EndsWithLast(p, ".csv"); }
    if EndsWith(p, ".json") { EndsWithLast(p, ".json"); }
  }
}
