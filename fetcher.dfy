/**
 * download_file: choose a local file name for a URL and fetch the resource
 * only when no file of that name is cached yet.
 */
module Fetcher {
  import opened TextOps
  import opened Outcome

  /** The name used when the URL's last path segment is empty. */
  const DefaultName: string := "ocean_data.csv"

  /** `local_path or ...`: None and "" are both falsy in Python. */
  predicate Explicit(localPath: Option<string>)
  {
    localPath.Some? && localPath.value != []
  }

  /** The URL text before its query string. */
  function UrlPath(url: string): (p: string)
    ensures p <= url && '?' !in p
    ensures |p| < |url| ==> url[|p|] == '?'
  {
    BeforeFirst(url, '?')
  }

  /**
   * The local file name download_file uses: the explicit name when one is
   * given, else the last path segment of the URL without its query, else
   * DefaultName.
   */
  function LocalName(url: string, localPath: Option<string>): (name: string)
    ensures name != []
    ensures Explicit(localPath) ==> name == localPath.value
  {
    if Explicit(localPath) then localPath.value
    else
      var base := Basename(UrlPath(url));
      if base != [] then base else DefaultName
  }

  /**
   * Without an explicit name: a URL path that is empty or ends in '/' gives
   * DefaultName; any other gives the path's last segment, which is free of
   * '/' and '?', ends the path and starts it or follows a '/'.
   */
  lemma LocalNameRule(url: string, localPath: Option<string>)
    ensures var p, n := UrlPath(url), LocalName(url, localPath);
            !Explicit(localPath) && (p == [] || p[|p| - 1] == '/') ==> n == DefaultName
    ensures var p, n := UrlPath(url), LocalName(url, localPath);
            !Explicit(localPath) && p != [] && p[|p| - 1] != '/' ==>
              && '/' !in n && '?' !in n
              && |n| <= |p| && n == p[|p| - |n|..]
              && (|n| < |p| ==> p[|p| - |n| - 1] == '/')
  {
    if !Explicit(localPath) {
      var p := UrlPath(url);
      var b := Basename(p);
      if b != [] {
        assert LocalName(url, localPath) == b;
        assert |b| <= |p| && b == p[|p| - |b|..];
        assert |b| < |p| ==> p[|p| - |b| - 1] == '/';
        SuffixAvoids(p, b, '?');
      } else {
        assert LocalName(url, localPath) == DefaultName;
      }
    }
  }

  /** A URL ".../dir/name?query" is cached under "name". */
  lemma {:induction false} LocalNameOfUrl(dir: string, name: string, query: string)
    requires '?' !in dir && '?' !in name && '/' !in name && name != []
    ensures LocalName(dir + "/" + name + "?" + query, None) == name
  {
    var url := dir + "/" + name + "?" + query;
    assert url == (dir + "/" + name) + ['?'] + query;
    BeforeFirstSplit(dir + "/" + name, '?', query);
    assert dir + "/" + name == dir + ['/'] + name;
    AfterLastSplit(dir, '/', name);
  }

  /** A URL ".../dir/name" without a query is cached under "name". */
  lemma {:induction false} LocalNameOfPlainUrl(dir: string, name: string)
    requires '?' !in dir && '?' !in name && '/' !in name && name != []
    ensures LocalName(dir + "/" + name, None) == name
  {
    var url := dir + "/" + name;
    assert '?' !in url by {
      assert url == dir + ['/'] + name;
    }
    BeforeFirstAbsent(url, '?');
    assert url == dir + ['/'] + name;
    AfterLastSplit(dir, '/', name);
  }

  /** A URL whose path ends in '/' falls back to DefaultName. */
  lemma {:induction false} LocalNameOfDirectoryUrl(dir: string, query: string)
    requires '?' !in dir
    ensures LocalName(dir + "/?" + query, None) == DefaultName
  {
    var url := dir + "/?" + query;
    assert url == (dir + "/") + ['?'] + query;
    BeforeFirstSplit(dir + "/", '?', query);
    assert Basename(dir + "/") == [];
  }

  /**
   * The local file system as far as download_file sees it: the names of the
   * files present, and the URLs requested over the network so far.
   */
  class FileCache {
    var files: set<string>
    var requests: seq<string>

    constructor (present: set<string>)
      ensures files == present && requests == []
    {
      files := present;
      requests := [];
    }

    /**
     * download_file(url, local_path).  `responseOk` is what the network
     * answers: false stands for a timeout, a connection error or a status
     * that raise_for_status rejects.  A cached name is returned without a
     * request; otherwise exactly one request is made and the file is written
     * only when it succeeds.
     */
    method Download(url: string, localPath: Option<string>, responseOk: bool) returns (r: Result<string>)
      modifies this
      ensures r.Ok? ==> r.value == LocalName(url, localPath) && r.value in files
      ensures LocalName(url, localPath) in old(files) ==>
                r == Ok(LocalName(url, localPath)) && files == old(files) && requests == old(requests)
      ensures LocalName(url, localPath) !in old(files) ==>
                && requests == old(requests) + [url]
                && (responseOk ==> r == Ok(LocalName(url, localPath)) && files == old(files) + {LocalName(url, localPath)})
                && (!responseOk ==> r == Err(FetchError(url)) && files == old(files))
    {
      var local := LocalName(url, localPath);
      if local !in files {
        requests := requests + [url];
        if !responseOk {
          return Err(FetchError(url));
        }
        files := files + {local};
      }
      r := Ok(local);
    }
  }

  /**
   * Fetching the same URL twice.  When the name is cached or the first
   * request succeeds, both calls return that name and at most one request is
   * made; when the first request fails, the second call asks again.
   */
  method DownloadTwice(cache: FileCache, url: string, localPath: Option<string>, firstOk: bool, secondOk: bool)
    returns (first: Result<string>, second: Result<string>)
    modifies cache
    ensures var name := LocalName(url, localPath);
            name in old(cache.files) || firstOk ==>
              && first == Ok(name) && second == first
              && cache.requests == old(cache.requests) + (if name in old(cache.files) then [] else [url])
              && cache.files == old(cache.files) + {name}
    ensures var name := LocalName(url, localPath);
            name !in old(cache.files) && !firstOk ==>
              && first == Err(FetchError(url))
              && second == (if secondOk then Ok(name) else Err(FetchError(url)))
              && cache.requests == old(cache.requests) + [url, url]
              && cache.files == old(cache.files) + (if secondOk then {name} else {})
  {
    ghost var name := LocalName(url, localPath);
    first := cache.Download(url, localPath, firstOk);
    if first.Ok? {
      assert name in cache.files;
    } else {
      assert name !in cache.files && cache.requests == old(cache.requests) + [url];
    }
    second := cache.Download(url, localPath, secondOk);
  }
}
