/** What both downloaders do with a list of videos: read a list file into
    watch URLs (`process_file_with_video_urls`), and find the 11-character
    video ID in a URL (`fetch_single_video`).

    A CSV list file is given as the rows `csv.reader` yields, a text list
    file as the lines `readlines()` yields; which one is used depends only on
    the path's `.csv` suffix, as in the source. */
module VideoUrls {
  import opened PyText

  const WatchPrefix: string := "https://www.youtube.com/watch?v="

  /** `f"https://www.youtube.com/watch?v={video_id}"`. */
  function WatchUrl(id: string): string
  {
    WatchPrefix + id
  }

  /** One line of a text list: stripped, and kept as it is when it already
      starts with `https://`, otherwise taken as a video ID. */
  function LineUrl(line: string): string
  {
    var v := Strip(line);
    if StartsWith(v, "https://") then v else WatchUrl(v)
  }

  lemma WatchUrlIsHttps(id: string)
    ensures StartsWith(WatchUrl(id), "https://")
  {
    assert WatchUrl(id)[..8] == WatchPrefix[..8];
  }

  /** Every line becomes an `https://` URL, and reading a produced URL back as
      a line gives the same URL: a URL list written out one per line is read
      back unchanged. */
  lemma {:induction false} LineUrlStable(line: string)
    ensures StartsWith(LineUrl(line), "https://")
    ensures LineUrl(LineUrl(line)) == LineUrl(line)
  {
    var v := Strip(line);
    if StartsWith(v, "https://") {
      StripTrimmed(v);
    } else {
      var u := WatchUrl(v);
      WatchUrlIsHttps(v);
      assert u[0] == 'h';
      assert !IsSpace(u[|u| - 1]) by {
        if v == [] {
          assert u[|u| - 1] == '=';
        } else {
          assert u[|u| - 1] == v[|v| - 1];
        }
      }
      StripTrimmed(u);
    }
  }

  // ---------------------------------------------------------------- list files

  /** The CSV reader gets through the file: there is a first (header) row to
      skip, and no later row is empty (`row[0]` of an empty row raises). */
  predicate CsvReadable(rows: seq<seq<string>>)
  {
    rows != [] && forall i :: 1 <= i < |rows| ==> rows[i] != []
  }

  /** `[f(x) for x in xs]`. */
  function Map<A, B>(xs: seq<A>, f: A -> B): (r: seq<B>)
    ensures |r| == |xs|
  {
    if xs == [] then [] else Map(xs[..|xs| - 1], f) + [f(xs[|xs| - 1])]
  }

  /** The `i`th element of the mapped list is the image of the `i`th. */
  lemma {:induction false} MapAt<A, B>(xs: seq<A>, f: A -> B)
    ensures forall i :: 0 <= i < |xs| ==> Map(xs, f)[i] == f(xs[i])
  {
    if xs != [] {
      MapAt(xs[..|xs| - 1], f);
    }
  }

  /** Mapping one more element of a list appends that element's image. */
  lemma MapPrefix<A, B>(xs: seq<A>, i: nat, f: A -> B)
    requires i < |xs|
    ensures Map(xs[..i + 1], f) == Map(xs[..i], f) + [f(xs[i])]
  {
    assert xs[..i + 1][..i] == xs[..i];
  }

  /** Mapping a list one element longer appends that element's image. */
  lemma MapSnoc<A, B>(xs: seq<A>, x: A, f: A -> B)
    ensures Map(xs + [x], f) == Map(xs, f) + [f(x)]
  {
    assert (xs + [x])[..|xs|] == xs;
  }

  /** The whole list as its own prefix. */
  lemma MapWhole<A, B>(xs: seq<A>, f: A -> B)
    ensures Map(xs[..|xs|], f) == Map(xs, f)
  {
    assert xs[..|xs|] == xs;
  }

  /** The first cell of each row. */
  function FirstCells(rows: seq<seq<string>>): (r: seq<string>)
    requires forall i :: 0 <= i < |rows| ==> rows[i] != []
  {
    seq(|rows|, i requires 0 <= i < |rows| => rows[i][0])
  }

  /** One more row adds its first cell. */
  lemma FirstCellsStep(rows: seq<seq<string>>, i: nat)
    requires 1 <= i < |rows| && forall j :: 1 <= j <= i ==> rows[j] != []
    ensures FirstCells(rows[1..i + 1]) == FirstCells(rows[1..i]) + [rows[i][0]]
  {
  }

  /** The URL built from a CSV cell. */
  function CellUrl(cell: string): string
  {
    WatchUrl(Strip(cell))
  }

  /** The watch URLs of the rows after the header: each row's stripped
      first cell. */
  function CellUrls(rows: seq<seq<string>>): (r: seq<string>)
    requires forall i :: 0 <= i < |rows| ==> rows[i] != []
    ensures |r| == |rows|
    ensures forall i :: 0 <= i < |rows| ==> r[i] == WatchUrl(Strip(rows[i][0]))
  {
    MapAt(FirstCells(rows), CellUrl);
    Map(FirstCells(rows), CellUrl)
  }

  /** The URLs of a text list, one per line, in order. */
  function LineUrls(lines: seq<string>): (r: seq<string>)
    ensures |r| == |lines|
    ensures forall i :: 0 <= i < |lines| ==> r[i] == LineUrl(lines[i])
  {
    MapAt(lines, LineUrl);
    Map(lines, LineUrl)
  }

  /** The URL list of a list file, or `None` when its CSV rows cannot be
      read; only the `.csv` suffix decides how the file is read. */
  function ListedUrls(path: string, rows: seq<seq<string>>, lines: seq<string>): Option<seq<string>>
  {
    if EndsWith(path, ".csv") then
      if CsvReadable(rows) then Some(CellUrls(rows[1..])) else None
    else Some(LineUrls(lines))
  }

  /** The CSV branch: skips the header row and turns the stripped first cell
      of each later row into a watch URL. A file with no rows, or an empty
      row, raises inside the `try`, so no URL is processed at all. */
  method CsvUrls(rows: seq<seq<string>>) returns (urls: Option<seq<string>>)
    ensures urls.Some? <==> CsvReadable(rows)
    ensures urls.Some? ==> urls.value == CellUrls(rows[1..])
  {
    if rows == [] {
      return None;
    }
    var acc: seq<string> := [];
    ghost var cells: seq<string> := [];
    var i := 1;
    while i < |rows|
      invariant 1 <= i <= |rows|
      invariant forall j :: 1 <= j < i ==> rows[j] != []
      invariant cells == FirstCells(rows[1..i])
      invariant acc == Map(cells, CellUrl)
    {
      if rows[i] == [] {
        return None;
      }
      FirstCellsStep(rows, i);
      MapSnoc(cells, rows[i][0], CellUrl);
      acc := acc + [CellUrl(rows[i][0])];
      cells := cells + [rows[i][0]];
      i := i + 1;
    }
    assert rows[1..i] == rows[1..];
    urls := Some(acc);
  }

  /** The body of the text branch for one line. */
  method ReadLine(line: string) returns (url: string)
    ensures url == LineUrl(line)
  {
    var videoId := Strip(line);
    if !StartsWith(videoId, "https://") {
      url := WatchUrl(videoId);
    } else {
      url := videoId;
    }
  }

  /** The text branch: one URL per line, in order. */
  method TextUrls(lines: seq<string>) returns (urls: seq<string>)
    ensures urls == LineUrls(lines)
  {
    urls := [];
    for i := 0 to |lines|
      invariant urls == Map(lines[..i], LineUrl)
    {
      var url := ReadLine(lines[i]);
      MapPrefix(lines, i, LineUrl);
      urls := urls + [url];
    }
    MapWhole(lines, LineUrl);
  }

  /** The URL list of a list file, or `None` when its CSV rows cannot be
      read. */
  method UrlsFromFile(path: string, rows: seq<seq<string>>, lines: seq<string>)
    returns (urls: Option<seq<string>>)
    ensures urls == ListedUrls(path, rows, lines)
  {
    var isCsv := EndsWith(path, ".csv");
    if isCsv {
      urls := CsvUrls(rows);
    } else {
      var text := TextUrls(lines);
      urls := Some(text);
    }
  }

  // ---------------------------------------------------------------- video IDs

  /** The class `[0-9A-Za-z_-]`. */
  predicate IsIdChar(c: char)
  {
    IsAsciiDigit(c) || IsAsciiLetter(c) || c == '_' || c == '-'
  }

  predicate IsVideoId(id: string)
  {
    |id| == 11 && forall i :: 0 <= i < 11 ==> IsIdChar(id[i])
  }

  /** Eleven ID characters start at `i`. */
  predicate IdAt(s: string, i: nat)
  {
    i + 11 <= |s| && forall j :: i <= j < i + 11 ==> IsIdChar(s[j])
  }

  /** The pattern `(?:v=|\/)([0-9A-Za-z_-]{11})` matches at `i`; what may
      follow the ID is optional and never stops a match. */
  predicate MatchAt(s: string, i: nat)
  {
    || (i + 2 <= |s| && s[i] == 'v' && s[i + 1] == '=' && IdAt(s, i + 2))
    || (i < |s| && s[i] == '/' && IdAt(s, i + 1))
  }

  /** Where the captured ID starts in a match at `i`. */
  function IdStart(s: string, i: nat): (k: nat)
    requires MatchAt(s, i)
    ensures IdAt(s, k)
    ensures k == i + 1 || k == i + 2
    ensures k == i + 1 ==> s[i] == '/'
    ensures k == i + 2 ==> s[i..k] == "v="
  {
    if s[i] == '/' then i + 1 else i + 2
  }

  /** `re.search`: the leftmost position, from `from` on, where the pattern
      matches; `|s|` when there is none. */
  function FirstMatch(s: string, from: nat): (k: nat)
    requires from <= |s|
    ensures from <= k <= |s|
    ensures k < |s| ==> MatchAt(s, k)
    ensures forall j :: from <= j < k ==> !MatchAt(s, j)
    decreases |s| - from
  {
    if from == |s| then |s|
    else if MatchAt(s, from) then from
    else FirstMatch(s, from + 1)
  }

  /** `match.group(1)` of the search, or `None` when the URL has no video ID. */
  function ExtractVideoId(url: string): (r: Option<string>)
    ensures r.None? <==> forall i :: 0 <= i < |url| ==> !MatchAt(url, i)
    ensures r.Some? ==> IsVideoId(r.value)
    ensures r.Some? ==>
              var k := FirstMatch(url, 0);
              var p := IdStart(url, k);
              && r.value == url[p..p + 11]
              && (url[p - 1] == '/' || url[p - 2..p] == "v=")
  {
    var k := FirstMatch(url, 0);
    if k == |url| then None
    else
      var p := IdStart(url, k);
      Some(url[p..p + 11])
  }

  /** The watch URL built for a video ID yields that ID again: none of the
      `/` of `https://www.youtube.com/` is followed by eleven ID characters,
      and `v=` appears only right before the ID. */
  lemma WatchUrlRoundTrip(id: string)
    requires IsVideoId(id)
    ensures ExtractVideoId(WatchUrl(id)) == Some(id)
  {
    var u := WatchUrl(id);
    assert |WatchPrefix| == 32;
    assert forall j :: 0 <= j < 32 ==> u[j] == WatchPrefix[j];
    assert forall j :: 0 <= j < 11 ==> u[32 + j] == id[j];
    forall i | 0 <= i < 30 ensures !MatchAt(u, i) {
      if i == 6 {
        assert !IsIdChar(u[7]);
      } else if i == 7 {
        assert !IsIdChar(u[11]);
      } else if i == 23 {
        assert !IsIdChar(u[29]);
      } else {
        assert u[i] != '/' && u[i] != 'v';
      }
    }
    assert MatchAt(u, 30);
    var k := FirstMatch(u, 0);
    assert k == 30;
    assert u[32..43] == id;
  }

  /** A bare video ID on a line of a text list, or in the first cell of a
      CSV row, leads back to that ID. */
  lemma ListedIdRoundTrip(id: string)
    requires IsVideoId(id)
    ensures ExtractVideoId(LineUrl(id)) == Some(id)
    ensures ExtractVideoId(WatchUrl(Strip(id))) == Some(id)
  {
    assert !IsSpace(id[0]) && !IsSpace(id[10]);
    StripTrimmed(id);
    assert IsIdChar(id[5]) && !IsIdChar("https://"[5]);
    assert id[..8][5] != "https://"[5];
    WatchUrlRoundTrip(id);
  }
}
