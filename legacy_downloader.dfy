/** The older, function-based downloader: its file-name cleaning, the
    `hh:mm` duration format of its channel listing, the quoted-path handling
    and URL list of `process_file_with_video_urls`, and the `.txt` duplicate
    search. The transcript download itself and the YouTube Data API are not
    part of this model. */
module LegacyDownloader {
  import opened PyText
  import opened FilenameRewrites
  import opened VideoUrls
  import opened DuplicateScan

  /** `TRANSCRIPT_FILENAME_LENGTH` in the default configuration. */
  const DefaultFilenameLength: int := 36

  // ================================================================ sanitize_filename

  /** What `[^\w\-\s]` leaves in place. */
  predicate IsLegacyNameChar(c: char)
  {
    IsWordChar(c) || c == '-' || IsSpace(c)
  }

  /** `sanitize_filename(name, max_length)`: characters other than word
      characters, `-` and whitespace are removed, the ends stripped, the
      result cut to `max_length`; an empty result becomes `"untitled"`. */
  function SanitizeFilename(name: string, maxLength: int := DefaultFilenameLength): (r: string)
    ensures r != []
    ensures forall c :: c in r ==> IsLegacyNameChar(c)
    ensures r == "untitled" || (0 <= maxLength ==> |r| <= maxLength)
    ensures r == "untitled" || !IsSpace(r[0])
    ensures forall c :: c in r ==> c in name || r == "untitled"
  {
    var kept := Filter(name, IsLegacyNameChar);
    var stripped := Strip(kept);
    var cut := SliceTo(stripped, maxLength);
    if cut == [] then
      assert forall i :: 0 <= i < 8 ==> IsWordChar("untitled"[i]);
      "untitled"
    else
      assert forall c :: c in cut ==> c in stripped;
      cut
  }

  /** The fallback is taken exactly when nothing survives the cleaning and
      the cut, and otherwise the cleaned and cut name is returned; nothing
      survives in particular when the name has no word character and no
      `-`, or `max_length` is 0. */
  lemma UntitledExactly(name: string, maxLength: int)
    ensures var cut := SliceTo(Strip(Filter(name, IsLegacyNameChar)), maxLength);
            && (cut == [] ==> SanitizeFilename(name, maxLength) == "untitled")
            && (cut != [] ==> SanitizeFilename(name, maxLength) == cut)
    ensures (maxLength == 0 || forall c :: c in name ==> !IsWordChar(c) && c != '-') ==>
              SanitizeFilename(name, maxLength) == "untitled"
  {
    var kept := Filter(name, IsLegacyNameChar);
    forall i | 0 <= i < |kept| && (forall c :: c in name ==> !IsWordChar(c) && c != '-')
      ensures IsSpace(kept[i])
    {
      assert kept[i] in kept;
    }
  }

  /** With the default `max_length`, a clean, stripped name longer than
      `TRANSCRIPT_FILENAME_LENGTH` keeps its first 36 characters. */
  lemma DefaultLengthCut(name: string)
    requires |name| > DefaultFilenameLength
    requires forall c :: c in name ==> IsLegacyNameChar(c)
    requires !IsSpace(name[0]) && !IsSpace(name[|name| - 1])
    ensures SanitizeFilename(name) == name[..DefaultFilenameLength]
  {
    FilterKeepsAll(name, IsLegacyNameChar);
    StripTrimmed(name);
  }

  /** A name that is already clean, stripped and short enough is kept. */
  lemma CleanNameKept(name: string, maxLength: int)
    requires name != [] && |name| <= maxLength
    requires forall c :: c in name ==> IsLegacyNameChar(c)
    requires !IsSpace(name[0]) && !IsSpace(name[|name| - 1])
    ensures SanitizeFilename(name, maxLength) == name
  {
    FilterKeepsAll(name, IsLegacyNameChar);
    StripTrimmed(name);
  }

  /** The cut comes after the strip, so a name may end in a space: a clean
      `a b` cut just after the space keeps that space. */
  lemma TrailingSpaceAfterCut(a: string, b: string)
    requires a != [] && b != []
    requires forall c :: c in a ==> IsWordChar(c)
    requires forall c :: c in b ==> IsWordChar(c)
    ensures SanitizeFilename(a + " " + b, |a| + 1) == a + " "
  {
    var n := a + " " + b;
    assert forall c :: c in n ==> IsLegacyNameChar(c) by {
      forall c | c in n ensures IsLegacyNameChar(c) {
        assert c in a || c == ' ' || c in b;
      }
    }
    FilterKeepsAll(n, IsLegacyNameChar);
    assert a[0] in a && b[|b| - 1] in b;
    WordCharIsNotSpace(a[0]);
    WordCharIsNotSpace(b[|b| - 1]);
    assert n[0] == a[0] && n[|n| - 1] == b[|b| - 1];
    StripTrimmed(n);
    assert SliceTo(n, |a| + 1) == n[..|a| + 1] == a + " ";
  }

  // ================================================================ format_duration

  /** Index just past the run of ASCII digits starting at `from`. */
  function DigitRun(s: string, from: nat): (k: nat)
    requires from <= |s|
    ensures from <= k <= |s|
    ensures forall i :: from <= i < k ==> IsAsciiDigit(s[i])
    ensures k == |s| || !IsAsciiDigit(s[k])
    decreases |s| - from
  {
    if from < |s| && IsAsciiDigit(s[from]) then DigitRun(s, from + 1) else from
  }

  /** The optional group `(?:(\d+)X)?` at `from`: its number and the
      position after it, or no number and `from` unchanged. Only the whole
      digit run can be followed by the designator (a shorter run is followed
      by a digit), so backtracking never finds another match. */
  function Designator(s: string, from: nat, d: char): (r: (Option<nat>, nat))
    requires from <= |s|
    ensures r.1 <= |s|
    ensures r.0.None? ==> r.1 == from
    ensures r.0.Some? ==> from < r.1 - 1 && s[r.1 - 1] == d
  {
    var k := DigitRun(s, from);
    if from < k < |s| && s[k] == d then
      assert AllDigits(s[from..k]);
      (Some(ParseNat(s[from..k])), k + 1)
    else (None, from)
  }

  function OrZero(n: Option<nat>): nat
  {
    if n.Some? then n.value else 0
  }

  /** `format_duration`: `re.match` of `PT(?:(\d+)H)?(?:(\d+)M)?(?:(\d+)S)?`
      succeeds on every text that starts with `PT`; hours and minutes are
      zero-padded, seconds discarded, missing parts read as 0. */
  function FormatDuration(iso: string): (r: string)
    ensures !StartsWith(iso, "PT") ==> r == "00:00"
  {
    if !StartsWith(iso, "PT") then "00:00"
    else
      var (hours, next) := Designator(iso, 2, 'H');
      var (minutes, _) := Designator(iso, next, 'M');
      Pad2(OrZero(hours)) + ":" + Pad2(OrZero(minutes))
  }

  /** One optional part of an ISO 8601 duration: the number and its
      designator, or nothing. */
  function Part(n: Option<nat>, d: char): string
  {
    if n.Some? then Digits(n.value) + [d] else ""
  }

  /** The time part of an ISO 8601 duration with optional hours, minutes and
      seconds. */
  function IsoDuration(hours: Option<nat>, minutes: Option<nat>, seconds: Option<nat>): string
  {
    "PT" + Part(hours, 'H') + Part(minutes, 'M') + Part(seconds, 'S')
  }

  lemma {:induction false} DigitRunOver(s: string, from: nat, ds: string, i: nat)
    requires from + |ds| <= |s| && s[from..from + |ds|] == ds && AllDigits(ds)
    requires from + |ds| == |s| || !IsAsciiDigit(s[from + |ds|])
    requires i <= |ds|
    ensures DigitRun(s, from + i) == from + |ds|
    decreases |ds| - i
  {
    if i < |ds| {
      assert s[from + i] == ds[i];
      DigitRunOver(s, from, ds, i + 1);
    }
  }

  /** A slice ending in `d` is the digits followed by `d`. */
  lemma SplitLast(s: string, from: nat, ds: string, d: char)
    requires from + |ds| < |s| && s[from..from + |ds| + 1] == ds + [d]
    ensures s[from..from + |ds|] == ds && s[from + |ds|] == d
  {
    assert s[from..from + |ds|] == s[from..from + |ds| + 1][..|ds|] == (ds + [d])[..|ds|];
    assert s[from + |ds|] == s[from..from + |ds| + 1][|ds|];
  }

  /** A present part is read as its number. */
  lemma DesignatorHit(s: string, from: nat, n: nat, d: char)
    requires !IsAsciiDigit(d)
    requires from + |Digits(n)| < |s| && s[from..from + |Digits(n)| + 1] == Digits(n) + [d]
    ensures Designator(s, from, d) == (Some(n), from + |Digits(n)| + 1)
  {
    var ds := Digits(n);
    SplitLast(s, from, ds, d);
    DigitRunOver(s, from, ds, 0);
    ParseDigits(n);
  }

  /** A part with another designator is not read. */
  lemma DesignatorMiss(s: string, from: nat, n: nat, e: char, d: char)
    requires !IsAsciiDigit(d) && !IsAsciiDigit(e) && e != d
    requires from + |Digits(n)| < |s| && s[from..from + |Digits(n)| + 1] == Digits(n) + [e]
    ensures Designator(s, from, d) == (None, from)
  {
    var ds := Digits(n);
    SplitLast(s, from, ds, e);
    DigitRunOver(s, from, ds, 0);
  }

  /** A present part starting at `from`, as the slice the group looks at. */
  lemma PartAt(s: string, from: nat, n: nat, d: char, rest: string)
    requires from <= |s| && s[from..] == Part(Some(n), d) + rest
    ensures from + |Digits(n)| < |s| && s[from..from + |Digits(n)| + 1] == Digits(n) + [d]
  {
    var ds := Digits(n);
    assert s[from..from + |ds| + 1] == s[from..][..|ds| + 1];
    assert ((ds + [d]) + rest)[..|ds| + 1] == ds + [d];
  }

  /** What follows `from` is an `e` part, an `f` part and the end: a `d`
      group matches nothing there. */
  lemma NoneAt(s: string, from: nat, d: char, m: Option<nat>, e: char, n: Option<nat>, f: char)
    requires !IsAsciiDigit(d) && !IsAsciiDigit(e) && !IsAsciiDigit(f) && e != d && f != d
    requires from <= |s| && s[from..] == Part(None, d) + (Part(m, e) + Part(n, f))
    ensures Designator(s, from, d) == (None, from)
  {
    assert s[from..] == Part(m, e) + Part(n, f);
    if m.Some? {
      PartAt(s, from, m.value, e, Part(n, f));
      DesignatorMiss(s, from, m.value, e, d);
    } else if n.Some? {
      assert s[from..] == Part(n, f) + [];
      PartAt(s, from, n.value, f, []);
      DesignatorMiss(s, from, n.value, f, d);
    } else {
      assert from == |s|;
    }
  }

  /** What follows `from` starts with a `d` part: the group reads it. */
  lemma SomeAt(s: string, from: nat, n: nat, d: char, rest: string)
    requires !IsAsciiDigit(d)
    requires from <= |s| && s[from..] == Part(Some(n), d) + rest
    ensures Designator(s, from, d) == (Some(n), from + |Digits(n)| + 1)
  {
    PartAt(s, from, n, d, rest);
    DesignatorHit(s, from, n, d);
  }

  lemma DropPrefix(a: string, b: string)
    ensures (a + b)[|a|..] == b
  {
  }

  /** What follows `PT`. */
  lemma AfterPT(h: Option<nat>, m: Option<nat>, sec: Option<nat>)
    ensures IsoDuration(h, m, sec)[2..] == Part(h, 'H') + (Part(m, 'M') + Part(sec, 'S'))
  {
    var tail := Part(h, 'H') + (Part(m, 'M') + Part(sec, 'S'));
    assert IsoDuration(h, m, sec) == "PT" + tail;
    DropPrefix("PT", tail);
  }

  /** What follows the hours. */
  lemma AfterHours(h: Option<nat>, m: Option<nat>, sec: Option<nat>)
    ensures 2 + |Part(h, 'H')| <= |IsoDuration(h, m, sec)|
    ensures IsoDuration(h, m, sec)[2 + |Part(h, 'H')|..] == Part(m, 'M') + (Part(sec, 'S') + Part(None, 'S'))
  {
    var tail := Part(m, 'M') + (Part(sec, 'S') + Part(None, 'S'));
    assert IsoDuration(h, m, sec) == ("PT" + Part(h, 'H')) + tail;
    DropPrefix("PT" + Part(h, 'H'), tail);
  }

  lemma HoursRead(h: Option<nat>, m: Option<nat>, sec: Option<nat>)
    ensures Designator(IsoDuration(h, m, sec), 2, 'H') == (h, 2 + |Part(h, 'H')|)
  {
    AfterPT(h, m, sec);
    if h.Some? {
      SomeAt(IsoDuration(h, m, sec), 2, h.value, 'H', Part(m, 'M') + Part(sec, 'S'));
    } else {
      NoneAt(IsoDuration(h, m, sec), 2, 'H', m, 'M', sec, 'S');
    }
  }

  lemma MinutesRead(h: Option<nat>, m: Option<nat>, sec: Option<nat>)
    ensures var from := 2 + |Part(h, 'H')|;
            Designator(IsoDuration(h, m, sec), from, 'M').0 == m
  {
    AfterHours(h, m, sec);
    if m.Some? {
      SomeAt(IsoDuration(h, m, sec), 2 + |Part(h, 'H')|, m.value, 'M', Part(sec, 'S') + Part(None, 'S'));
    } else {
      NoneAt(IsoDuration(h, m, sec), 2 + |Part(h, 'H')|, 'M', sec, 'S', None, 'S');
    }
  }

  /** Any time part of an ISO 8601 duration formats as its hours and minutes,
      zero-padded, missing ones as 0, the seconds dropped. */
  lemma {:induction false} DurationFormat(h: Option<nat>, m: Option<nat>, sec: Option<nat>)
    ensures FormatDuration(IsoDuration(h, m, sec)) == Pad2(OrZero(h)) + ":" + Pad2(OrZero(m))
  {
    var iso := IsoDuration(h, m, sec);
    assert iso[..2] == "PT";
    HoursRead(h, m, sec);
    MinutesRead(h, m, sec);
  }

  /** The formatted duration reads back as the hours and the minutes of the
      ISO 8601 duration, whatever its seconds. */
  lemma DurationReadBack(h: Option<nat>, m: Option<nat>, sec: Option<nat>)
    ensures var f := Split(FormatDuration(IsoDuration(h, m, sec)), ':');
            && |f| == 2 && AllDigits(f[0]) && AllDigits(f[1])
            && ParseNat(f[0]) == OrZero(h) && ParseNat(f[1]) == OrZero(m)
  {
    DurationFormat(h, m, sec);
    SplitFields2(Pad2(OrZero(h)), Pad2(OrZero(m)));
    ParsePad2(OrZero(h));
    ParsePad2(OrZero(m));
  }

  lemma FormatDurationHoursMinutes()
    ensures FormatDuration("PT1H2M30S") == "01:02"
  {
    assert Digits(30) == Digits(3) + [DigitChar(0)] == "30";
    assert IsoDuration(Some(1), Some(2), Some(30)) == "PT1H2M30S";
    DurationFormat(Some(1), Some(2), Some(30));
    assert Pad2(1) == "01" && Pad2(2) == "02";
    assert "01" + ":" + "02" == "01:02";
  }

  /** Minutes are copied, not carried into hours. */
  lemma FormatDurationNoCarry()
    ensures FormatDuration("PT90M") == "00:90"
  {
    assert Digits(90) == Digits(9) + [DigitChar(0)] == "90";
    assert IsoDuration(None, Some(90), None) == "PT90M";
    DurationFormat(None, Some(90), None);
    assert Pad2(0) == "00" && Pad2(90) == "90";
    assert "00" + ":" + "90" == "00:90";
  }

  /** A duration with a day part does not start with `PT`. */
  lemma FormatDurationDays()
    ensures FormatDuration("P1DT1H") == "00:00"
  {
    assert "P1DT1H"[..2][1] == '1' != "PT"[1];
  }

  // ================================================================ process_file_with_video_urls

  /** `path[1:-1]` when the (already stripped) path both starts and ends
      with `"`; a lone `"` leaves the empty path. */
  function Unquote(p: string): (r: string)
    ensures p != [] && p[0] == '"' && p[|p| - 1] == '"' ==> |r| == if |p| >= 2 then |p| - 2 else 0
    ensures p != [] && p[0] == '"' && p[|p| - 1] == '"' && |p| >= 2 ==> r == p[1..|p| - 1]
    ensures !(p != [] && p[0] == '"' && p[|p| - 1] == '"') ==> r == p
  {
    if StartsWith(p, "\"") && EndsWith(p, "\"") then
      if |p| >= 2 then p[1..|p| - 1] else []
    else p
  }

  /** The path the user typed: stripped, then unquoted. */
  function UnquotePath(input: string): string
  {
    Unquote(Strip(input))
  }

  /** A quoted path is unwrapped to what was inside the quotes. */
  lemma QuotedPathUnwrapped(path: string)
    requires path == [] || (!IsSpace(path[0]) && !IsSpace(path[|path| - 1]))
    ensures UnquotePath("\"" + path + "\"") == path
  {
    var q := "\"" + path + "\"";
    StripTrimmed(q);
    assert q[1..|q| - 1] == path;
  }

  /** A path that is not wrapped in quotes is only stripped. */
  lemma UnquotedPathKept(path: string)
    requires path == [] || (!IsSpace(path[0]) && !IsSpace(path[|path| - 1]))
    requires !(path != [] && path[0] == '"' && path[|path| - 1] == '"')
    ensures UnquotePath(path) == path
  {
    StripTrimmed(path);
  }

  /** The first step of `process_file_with_video_urls`: strip the typed
      path and remove surrounding quotes. */
  method ReadPath(input: string) returns (filePath: string)
    ensures filePath == UnquotePath(input)
  {
    filePath := Strip(input);
    if StartsWith(filePath, "\"") && EndsWith(filePath, "\"") {
      filePath := if |filePath| >= 2 then filePath[1..|filePath| - 1] else [];
    }
  }

  /** The loop over the URLs: `fetch_single_video` looks for each one's
      video ID, in order. */
  method FindVideoIds(urls: seq<string>) returns (videoIds: seq<Option<string>>)
    ensures |videoIds| == |urls|
    ensures forall i :: 0 <= i < |urls| ==> videoIds[i] == ExtractVideoId(urls[i])
  {
    videoIds := [];
    for i := 0 to |urls|
      invariant |videoIds| == i
      invariant forall j :: 0 <= j < i ==> videoIds[j] == ExtractVideoId(urls[j])
    {
      videoIds := videoIds + [ExtractVideoId(urls[i])];
    }
  }

  /** How `process_file_with_video_urls` ends: the file does not exist,
      reading it raised, or every URL was handed to `fetch_single_video`,
      which looks for the video ID (the download itself is not modelled). */
  datatype ListRun = FileNotFound | ReadFailed | Ran(urls: seq<string>, videoIds: seq<Option<string>>)

  method ProcessFileWithVideoUrls(input: string, existing: set<string>, rows: seq<seq<string>>,
                                  lines: seq<string>)
    returns (run: ListRun)
    ensures UnquotePath(input) !in existing <==> run == FileNotFound
    ensures run == ReadFailed <==>
              UnquotePath(input) in existing && ListedUrls(UnquotePath(input), rows, lines).None?
    ensures run.Ran? ==> run.urls == ListedUrls(UnquotePath(input), rows, lines).value
    ensures run.Ran? ==>
              |run.videoIds| == |run.urls|
              && forall i :: 0 <= i < |run.urls| ==> run.videoIds[i] == ExtractVideoId(run.urls[i])
  {
    var filePath := ReadPath(input);
    if filePath !in existing {
      return FileNotFound;
    }
    var urls := UrlsFromFile(filePath, rows, lines);
    if urls.None? {
      return ReadFailed;
    }
    var videoIds := FindVideoIds(urls.value);
    run := Ran(urls.value, videoIds);
  }

  // ================================================================ find_duplicate_transcripts

  /** `find_duplicate_transcripts`: nothing for a missing directory (the
      typed path is used as it is, not stripped); otherwise the scan over its
      `.txt` files. */
  method FindDuplicateTranscripts(dir: string, existing: set<string>, walk: seq<WalkEntry>, sha1: Hasher)
    returns (found: Option<ScanState>)
    ensures dir !in existing <==> found.None?
    ensures found.Some? ==> found.value == Scan(Candidates(walk, ".txt"), sha1)
    ensures found.Some? ==> |found.value.duplicates| + |found.value.hashes| == |Candidates(walk, ".txt")|
  {
    if dir !in existing {
      return None;
    }
    var st := FindDuplicates(walk, ".txt", sha1);
    found := Some(st);
  }
}
