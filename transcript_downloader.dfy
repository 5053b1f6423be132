/** The class-based transcript downloader: its file-name and text cleaning,
    the `HH:MM:SS` time format, the decision `fetch_single_video` takes for a
    URL and optional metadata, and the list-file and duplicate commands.

    The YouTube Data API's `fetch_video_metadata` is a parameter (a map from
    video ID to the metadata dictionary it returns, `{}` when nothing was
    found or the call failed); the transcript download and the JSON file it
    writes are not part of this model. */
module TranscriptDownloader {
  import opened PyText
  import opened JsonValue
  import opened FilenameRewrites
  import opened VideoUrls
  import opened DuplicateScan

  /** `TRANSCRIPT_FILENAME_LENGTH` in the default configuration. */
  const DefaultFilenameLength: int := 50

  // ================================================================ sanitize_text

  /** The class `[\\^$.|?*+(){}[\]]`. */
  predicate IsRegexSpecial(c: char)
  {
    || c == '\\' || c == '^' || c == '$' || c == '.' || c == '|' || c == '?' || c == '*'
    || c == '+' || c == '(' || c == ')' || c == '{' || c == '}' || c == '[' || c == ']'
  }

  predicate IsNotRegexSpecial(c: char)
  {
    !IsRegexSpecial(c)
  }

  /** `re.sub(r"\s+", " ", s)`: each maximal run of whitespace becomes one
      space. */
  function CollapseWhitespace(s: string): (r: string)
    ensures forall c :: c in r ==> (c in s && !IsSpace(c)) || c == ' '
    ensures forall i :: 0 <= i < |r| - 1 ==> !(IsSpace(r[i]) && IsSpace(r[i + 1]))
    ensures |r| == 0 <==> |s| == 0
    ensures |r| > 0 ==> (IsSpace(r[0]) <==> IsSpace(s[0]))
  {
    CollapsedShape(s);
    Collapsed(s)
  }

  /** The left-to-right scan behind `CollapseWhitespace`: a character that is
      not whitespace is copied, a whitespace character followed by another
      is dropped, and the last of a run gives one space. It carries no
      contract, so that proofs about concatenations stay small. */
  function Collapsed(s: string): string
  {
    if s == [] then []
    else if !IsSpace(s[0]) then [s[0]] + Collapsed(s[1..])
    else if |s| > 1 && IsSpace(s[1]) then Collapsed(s[1..])
    else " " + Collapsed(s[1..])
  }

  /** The contract of `CollapseWhitespace`, by induction over the scan. */
  lemma {:induction false} CollapsedShape(s: string)
    ensures var r := Collapsed(s);
      && (forall c :: c in r ==> (c in s && !IsSpace(c)) || c == ' ')
      && (forall i :: 0 <= i < |r| - 1 ==> !(IsSpace(r[i]) && IsSpace(r[i + 1])))
      && (|r| == 0 <==> |s| == 0)
      && (|r| > 0 ==> (IsSpace(r[0]) <==> IsSpace(s[0])))
  {
    if s != [] {
      CollapsedShape(s[1..]);
      assert forall c :: c in s[1..] ==> c in s;
      if |s| > 1 {
        assert s[1..][0] == s[1];
      }
    }
  }

  /** Step of the collapse at a character that is not whitespace. */
  lemma CollapseFirstKept(s: string)
    requires s != [] && !IsSpace(s[0])
    ensures Collapsed(s) == [s[0]] + Collapsed(s[1..])
  {
  }

  /** Step of the collapse at a single whitespace character. */
  lemma CollapseFirstSpace(s: string)
    requires s != [] && IsSpace(s[0]) && (|s| == 1 || !IsSpace(s[1]))
    ensures Collapsed(s) == " " + Collapsed(s[1..])
  {
  }

  /** The tail of a single-spaced text is single-spaced. */
  lemma SingleSpacedTail(s: string)
    requires s != []
    requires forall c :: c in s && IsSpace(c) ==> c == ' '
    requires forall i :: 0 <= i < |s| - 1 ==> !(IsSpace(s[i]) && IsSpace(s[i + 1]))
    ensures forall c :: c in s[1..] && IsSpace(c) ==> c == ' '
    ensures forall i :: 0 <= i < |s[1..]| - 1 ==> !(IsSpace(s[1..][i]) && IsSpace(s[1..][i + 1]))
  {
    assert forall c :: c in s[1..] ==> c in s;
    forall i | 0 <= i < |s[1..]| - 1
      ensures !(IsSpace(s[1..][i]) && IsSpace(s[1..][i + 1]))
    {
      assert s[1..][i] == s[i + 1] && s[1..][i + 1] == s[i + 2];
    }
  }

  /** A text whose whitespace is single spaces, never two in a row, is left
      as it is by the collapse. */
  lemma {:induction false} CollapseSingleSpaces(s: string)
    requires forall c :: c in s && IsSpace(c) ==> c == ' '
    requires forall i :: 0 <= i < |s| - 1 ==> !(IsSpace(s[i]) && IsSpace(s[i + 1]))
    ensures CollapseWhitespace(s) == s
  {
    if s != [] {
      SingleSpacedTail(s);
      CollapseSingleSpaces(s[1..]);
      if IsSpace(s[0]) {
        assert s[0] in s;
        CollapseFirstSpace(s);
      } else {
        CollapseFirstKept(s);
      }
      assert [s[0]] + s[1..] == s;
    }
  }

  predicate IsNotSpace(c: char)
  {
    !IsSpace(c)
  }

  /** The collapse keeps every character that is not whitespace, in order. */
  lemma {:induction false} CollapseWhitespaceKeepsOthers(s: string)
    ensures Filter(CollapseWhitespace(s), IsNotSpace) == Filter(s, IsNotSpace)
  {
    if s != [] {
      CollapseWhitespaceKeepsOthers(s[1..]);
      var r := Collapsed(s[1..]);
      if !IsSpace(s[0]) {
        assert ([s[0]] + r)[1..] == r;
      } else if !(|s| > 1 && IsSpace(s[1])) {
        assert (" " + r)[1..] == r;
      }
    }
  }

  /** Where the text is cut just before a character that is not whitespace,
      the collapse works on the two sides apart. */
  lemma {:induction false} AppendBeforeKept(x: string, y: string)
    requires y != [] && !IsSpace(y[0])
    ensures Collapsed(x + y) == Collapsed(x) + Collapsed(y)
  {
    if x == [] {
      assert x + y == y;
    } else {
      var c, t := x[0], x[1..];
      assert x + y == [c] + (t + y);
      assert x == [c] + t;
      assert t == [] ==> (t + y)[0] == y[0];
      assert t != [] ==> (t + y)[0] == t[0];
      CollapsedCons(c, t + y);
      CollapsedCons(c, t);
      AppendBeforeKept(t, y);
      ConcatAssoc([c], Collapsed(t), Collapsed(y));
      ConcatAssoc(" ", Collapsed(t), Collapsed(y));
    }
  }

  /** One step of the scan, for a text given as its first character and
      the rest. */
  lemma CollapsedCons(c: char, t: string)
    ensures Collapsed([c] + t)
         == if !IsSpace(c) then [c] + Collapsed(t)
            else if t != [] && IsSpace(t[0]) then Collapsed(t)
            else " " + Collapsed(t)
  {
    assert ([c] + t)[1..] == t;
  }

  /** Where the text is cut just after a character that is not whitespace,
      the collapse works on the two sides apart. */
  lemma {:induction false} AppendAfterKept(x: string, y: string)
    requires x != [] && !IsSpace(x[|x| - 1])
    ensures Collapsed(x + y) == Collapsed(x) + Collapsed(y)
  {
    assert (x + y)[1..] == x[1..] + y;
    if |x| == 1 {
      assert x[1..] == [];
    } else {
      assert (x + y)[1] == x[1];
      AppendAfterKept(x[1..], y);
    }
  }

  /** A run of whitespace followed by another character, or by nothing,
      collapses to one space. */
  lemma {:induction false} RunThenRest(w: string, y: string)
    requires w != [] && forall c :: c in w ==> IsSpace(c)
    requires y == [] || !IsSpace(y[0])
    ensures Collapsed(w + y) == " " + Collapsed(y)
  {
    assert w[0] in w;
    assert (w + y)[1..] == w[1..] + y;
    if |w| == 1 {
      assert w[1..] + y == y;
    } else {
      assert w[1] in w;
      assert (w + y)[1] == w[1];
      assert forall c :: c in w[1..] ==> c in w;
      RunThenRest(w[1..], y);
    }
  }

  /** A run of whitespace between two other characters becomes one space. */
  lemma CollapseWhitespaceRun(x: string, w: string, y: string)
    requires x == [] || !IsSpace(x[|x| - 1])
    requires w != [] && forall c :: c in w ==> IsSpace(c)
    requires y == [] || !IsSpace(y[0])
    ensures CollapseWhitespace(x + w + y) == CollapseWhitespace(x) + " " + CollapseWhitespace(y)
  {
    CollapsedRun(x, w, y);
  }

  lemma CollapsedRun(x: string, w: string, y: string)
    requires x == [] || !IsSpace(x[|x| - 1])
    requires w != [] && forall c :: c in w ==> IsSpace(c)
    requires y == [] || !IsSpace(y[0])
    ensures Collapsed(x + w + y) == Collapsed(x) + " " + Collapsed(y)
  {
    RunThenRest(w, y);
    if x == [] {
      assert x + w + y == w + y;
    } else {
      assert x + w + y == x + (w + y);
      AppendAfterKept(x, w + y);
    }
  }

  /** The first two substitutions of `sanitize_text`: metacharacters go,
      then characters above U+FFFF. */
  function DropSpecial(text: string): string
  {
    Filter(Filter(text, IsNotRegexSpecial), IsBmp)
  }

  /** The shape of a cleaned text: no metacharacter, nothing above U+FFFF,
      no whitespace but single spaces, and none at either end. */
  predicate IsSanitized(r: string)
  {
    && (forall c :: c in r ==> !IsRegexSpecial(c) && IsBmp(c) && (IsSpace(c) ==> c == ' '))
    && (forall i :: 0 <= i < |r| - 1 ==> !(IsSpace(r[i]) && IsSpace(r[i + 1])))
    && (r == [] || (!IsSpace(r[0]) && !IsSpace(r[|r| - 1])))
  }

  /** `sanitize_text`: a falsy text gives `""`; otherwise regular-expression
      metacharacters and characters above U+FFFF are removed, whitespace runs
      become one space, and the ends are stripped. */
  function SanitizeText(text: string): (r: string)
    ensures text == [] ==> r == []
    ensures IsSanitized(r)
    ensures forall c :: c in r ==> c in text || c == ' '
    ensures Filter(r, IsNotSpace) == Filter(text, IsTextChar)
  {
    if text == [] then []
    else
      var t := CollapseWhitespace(DropSpecial(text));
      CleanedChars(text);
      StripKeepsSpacing(t);
      StripKeepsOthers(t);
      CollapseWhitespaceKeepsOthers(DropSpecial(text));
      FilterFilter(text, IsNotRegexSpecial, IsBmp, IsCleanChar);
      FilterFilter(text, IsCleanChar, IsNotSpace, IsTextChar);
      Strip(t)
  }

  /** What survives the two filters and the collapse: no metacharacter, no
      character above U+FFFF, no whitespace but the space, nothing new but
      spaces. */
  lemma CleanedChars(text: string)
    ensures var t := CollapseWhitespace(DropSpecial(text));
            forall c :: c in t ==>
              !IsRegexSpecial(c) && IsBmp(c) && (IsSpace(c) ==> c == ' ') && (c in text || c == ' ')
  {
    var f := Filter(Filter(text, IsNotRegexSpecial), IsBmp);
    assert forall c :: c in f ==> c in text && !IsRegexSpecial(c) && IsBmp(c);
  }

  /** Stripping keeps a text free of adjacent whitespace. */
  lemma StripKeepsSpacing(t: string)
    requires forall i :: 0 <= i < |t| - 1 ==> !(IsSpace(t[i]) && IsSpace(t[i + 1]))
    ensures var r := Strip(t);
            forall i :: 0 <= i < |r| - 1 ==> !(IsSpace(r[i]) && IsSpace(r[i + 1]))
  {
    var r := Strip(t);
    var a := LeadingSpaces(t);
    forall i | 0 <= i < |r| - 1 ensures !(IsSpace(r[i]) && IsSpace(r[i + 1])) {
      assert r[i] == t[a + i] && r[i + 1] == t[a + i + 1];
    }
  }

  /** What `sanitize_text` keeps apart from spaces: characters that are not
      metacharacters, not above U+FFFF and not whitespace. */
  predicate IsTextChar(c: char)
  {
    !IsRegexSpecial(c) && IsBmp(c) && !IsSpace(c)
  }

  predicate IsCleanChar(c: char)
  {
    !IsRegexSpecial(c) && IsBmp(c)
  }

  /** Stripping removes whitespace only. */
  lemma StripKeepsOthers(t: string)
    ensures Filter(Strip(t), IsNotSpace) == Filter(t, IsNotSpace)
  {
    var r := Strip(t);
    if r == [] {
      NoneKept(t);
    } else {
      var a := LeadingSpaces(t);
      var b := a + |r|;
      assert t == t[..a] + r + t[b..];
      NoneKept(t[..a]);
      NoneKept(t[b..]);
      calc {
        Filter(t, IsNotSpace);
        { FilterAppend(t[..a] + r, t[b..], IsNotSpace); }
        Filter(t[..a] + r, IsNotSpace) + [];
        { FilterAppend(t[..a], r, IsNotSpace); }
        [] + Filter(r, IsNotSpace) + [];
        Filter(r, IsNotSpace);
      }
    }
  }

  /** Whitespace alone leaves nothing behind. */
  lemma {:induction false} NoneKept(s: string)
    requires forall i :: 0 <= i < |s| ==> IsSpace(s[i])
    ensures Filter(s, IsNotSpace) == []
  {
    if s != [] {
      NoneKept(s[1..]);
    }
  }

  lemma DropSpecialAppend(x: string, y: string)
    ensures DropSpecial(x + y) == DropSpecial(x) + DropSpecial(y)
  {
    FilterAppend(x, y, IsNotRegexSpecial);
    FilterAppend(Filter(x, IsNotRegexSpecial), Filter(y, IsNotRegexSpecial), IsBmp);
  }

  /** The first two substitutions leave whitespace alone. */
  lemma DropSpecialKeeps(s: string)
    requires forall c :: c in s ==> IsCleanChar(c)
    ensures DropSpecial(s) == s
  {
    FilterKeepsAll(s, IsNotRegexSpecial);
    FilterKeepsAll(s, IsBmp);
  }

  /** The cleaned form of a text that ends with a kept character ends with it. */
  lemma CleanedEnd(x: string)
    requires x != [] && IsTextChar(x[|x| - 1])
    ensures var f := DropSpecial(x);
            f != [] && f[|f| - 1] == x[|x| - 1]
    ensures var t := CollapseWhitespace(DropSpecial(x));
            t != [] && t[|t| - 1] == x[|x| - 1]
  {
    var c := x[|x| - 1];
    var p := x[..|x| - 1];
    assert x == p + [c];
    DropSpecialAppend(p, [c]);
    DropSpecialKeeps([c]);
    AppendBeforeKept(DropSpecial(p), [c]);
    CollapseFirstKept([c]);
    assert [c][1..] == [];
  }

  /** The cleaned form of a text that starts with a kept character starts
      with it. */
  lemma CleanedStart(y: string)
    requires y != [] && IsTextChar(y[0])
    ensures var f := DropSpecial(y);
            f != [] && f[0] == y[0]
    ensures var t := CollapseWhitespace(DropSpecial(y));
            t != [] && t[0] == y[0]
  {
    var d := y[0];
    assert y == [d] + y[1..];
    DropSpecialAppend([d], y[1..]);
    DropSpecialKeeps([d]);
    CollapseFirstKept(DropSpecial(y));
  }

  /** Whitespace is neither a metacharacter nor above U+FFFF. */
  lemma WhitespaceIsClean(w: string)
    requires forall c :: c in w ==> IsSpace(c)
    ensures DropSpecial(w) == w
  {
    forall c | c in w
      ensures IsCleanChar(c)
    {
      assert IsSpace(c);
    }
    DropSpecialKeeps(w);
  }

  /** The three steps of `sanitize_text` on a non-empty text. */
  function Clean(text: string): string
  {
    Strip(CollapseWhitespace(DropSpecial(text)))
  }

  lemma SanitizeTextClean(text: string)
    requires text != []
    ensures SanitizeText(text) == Clean(text)
  {
  }

  lemma CleanRun(x: string, w: string, y: string)
    requires x != [] && IsTextChar(x[|x| - 1])
    requires w != [] && forall c :: c in w ==> IsSpace(c)
    requires y != [] && IsTextChar(y[0])
    ensures Clean(x + w + y) == Clean(x) + " " + Clean(y)
  {
    CollapseJoined(x, w, y);
    CleanedEnd(x);
    CleanedStart(y);
    StripAroundSpace(CollapseWhitespace(DropSpecial(x)), CollapseWhitespace(DropSpecial(y)));
  }

  /** Before the strip, the whitespace run between two kept characters is
      already one space. */
  lemma CollapseJoined(x: string, w: string, y: string)
    requires x != [] && IsTextChar(x[|x| - 1])
    requires w != [] && forall c :: c in w ==> IsSpace(c)
    requires y != [] && IsTextChar(y[0])
    ensures CollapseWhitespace(DropSpecial(x + w + y))
         == CollapseWhitespace(DropSpecial(x)) + " " + CollapseWhitespace(DropSpecial(y))
  {
    DropJoined(x, w, y);
    CleanedEnd(x);
    CleanedStart(y);
    CollapseWhitespaceRun(DropSpecial(x), w, DropSpecial(y));
  }

  /** The first two substitutions work on each part and keep the whitespace. */
  lemma DropJoined(x: string, w: string, y: string)
    requires forall c :: c in w ==> IsSpace(c)
    ensures DropSpecial(x + w + y) == DropSpecial(x) + w + DropSpecial(y)
  {
    DropSpecialAppend(x + w, y);
    DropSpecialAppend(x, w);
    WhitespaceIsClean(w);
  }

  /** A run of whitespace between two kept characters becomes exactly one
      space, and the text on each side is cleaned as it would be alone. */
  lemma SanitizeTextRun(x: string, w: string, y: string)
    requires x != [] && IsTextChar(x[|x| - 1])
    requires w != [] && forall c :: c in w ==> IsSpace(c)
    requires y != [] && IsTextChar(y[0])
    ensures SanitizeText(x + w + y) == SanitizeText(x) + " " + SanitizeText(y)
  {
    CleanRun(x, w, y);
    SanitizeTextClean(x + w + y);
    SanitizeTextClean(x);
    SanitizeTextClean(y);
  }

  /** A text that already has the shape `sanitize_text` produces is left
      as it is. */
  lemma SanitizedFixed(r: string)
    requires IsSanitized(r)
    ensures SanitizeText(r) == r
  {
    if r != [] {
      FilterKeepsAll(r, IsNotRegexSpecial);
      FilterKeepsAll(r, IsBmp);
      CollapseSingleSpaces(r);
      StripTrimmed(r);
    }
  }

  /** Cleaning a cleaned text changes nothing (unlike the file-name
      sanitizers, this one is idempotent). */
  lemma SanitizeTextIdempotent(text: string)
    ensures SanitizeText(SanitizeText(text)) == SanitizeText(text)
  {
    var r := SanitizeText(text);
    assert SanitizeText(r) == r by {
      SanitizedFixed(r);
    }
  }

  lemma SanitizeTextExample()
    ensures SanitizeText("(a)") == "a"
  {
    assert Filter("(a)", IsNotRegexSpecial) == "a" by {
      assert "(a)"[1..] == "a)" && "a)"[1..] == ")" && ")"[1..] == [];
    }
    assert Filter("a", IsBmp) == "a" by { assert "a"[1..] == []; }
    assert CollapseWhitespace("a") == "a" by { assert "a"[1..] == []; }
    StripTrimmed("a");
  }

  // ================================================================ parse_time_format

  /** The argument of `parse_time_format`: an `int`, a `float`, or anything
      else (which raises `ValueError`). */
  datatype Seconds = IntSeconds(n: int) | FloatSeconds(x: real) | NotANumber

  /** `int(x)` of a float: truncation toward zero. */
  function Truncate(x: real): (n: int)
    ensures 0.0 <= x ==> 0 <= n && n as real <= x < n as real + 1.0
    ensures x < 0.0 ==> n <= 0 && n as real - 1.0 < x <= n as real
  {
    if x >= 0.0 then x.Floor else -((-x).Floor)
  }

  function TotalSeconds(s: Seconds): int
    requires !s.NotANumber?
  {
    match s
    case IntSeconds(n) => n
    case FloatSeconds(x) => Truncate(x)
  }

  datatype Clock = Clock(hours: int, minutes: int, seconds: int)

  /** The two `divmod`s (floor division, like Python's). */
  function Divmod(total: int): (c: Clock)
    ensures 0 <= c.minutes < 60 && 0 <= c.seconds < 60
    ensures c.hours * 3600 + c.minutes * 60 + c.seconds == total
    ensures c.hours == 0 <==> 0 <= total < 3600
    ensures 0 <= total ==> 0 <= c.hours
  {
    var remainder := total % 3600;
    Clock(total / 3600, remainder / 60, remainder % 60)
  }

  function ClockText(c: Clock): string
  {
    if c.hours != 0 then Pad2(c.hours) + ":" + Pad2(c.minutes) + ":" + Pad2(c.seconds)
    else Pad2(c.minutes) + ":" + Pad2(c.seconds)
  }

  /** `parse_time_format`; `None` stands for the `ValueError` it raises. */
  function ParseTimeFormat(seconds: Seconds): (r: Option<string>)
    ensures r.None? <==> seconds.NotANumber?
  {
    if seconds.NotANumber? then None
    else Some(ClockText(Divmod(TotalSeconds(seconds))))
  }

  /** Reads `"H:MM:SS"` or `"MM:SS"` back into seconds. */
  function ReadClock(text: string): Option<int>
  {
    var f := Split(text, ':');
    if (|f| == 2 || |f| == 3) && forall i :: 0 <= i < |f| ==> AllDigits(f[i]) then
      if |f| == 3 then Some(3600 * ParseNat(f[0]) + 60 * ParseNat(f[1]) + ParseNat(f[2]))
      else Some(60 * ParseNat(f[0]) + ParseNat(f[1]))
    else None
  }

  /** The fields of the formatted time of a non-negative number of seconds:
      three when it is at least an hour, otherwise two; the last two are the
      minutes and the seconds, two digits each. */
  lemma ClockFields(seconds: Seconds)
    requires !seconds.NotANumber? && 0 <= TotalSeconds(seconds)
    ensures var t := TotalSeconds(seconds);
            var f := Split(ParseTimeFormat(seconds).value, ':');
            var c := Divmod(t);
            && (|f| == 3 <==> t >= 3600)
            && (|f| == 2 <==> t < 3600)
            && f[|f| - 2] == Pad2(c.minutes) && f[|f| - 1] == Pad2(c.seconds)
            && |f[|f| - 2]| == 2 && |f[|f| - 1]| == 2
  {
    var c := Divmod(TotalSeconds(seconds));
    if c.hours != 0 {
      SplitFields3(Pad2(c.hours), Pad2(c.minutes), Pad2(c.seconds));
    } else {
      SplitFields2(Pad2(c.minutes), Pad2(c.seconds));
    }
  }

  lemma ReadClock3(h: nat, m: nat, s: nat)
    ensures ReadClock(Pad2(h) + ":" + Pad2(m) + ":" + Pad2(s)) == Some(3600 * h + 60 * m + s)
  {
    SplitFields3(Pad2(h), Pad2(m), Pad2(s));
    ParsePad2(h);
    ParsePad2(m);
    ParsePad2(s);
  }

  lemma ReadClock2(m: nat, s: nat)
    ensures ReadClock(Pad2(m) + ":" + Pad2(s)) == Some(60 * m + s)
  {
    SplitFields2(Pad2(m), Pad2(s));
    ParsePad2(m);
    ParsePad2(s);
  }

  /** For non-negative input the formatted time reads back as the whole
      number of seconds: `hours*3600 + minutes*60 + seconds == int(seconds)`,
      fractions truncated first. */
  lemma ClockRoundTrip(seconds: Seconds)
    requires !seconds.NotANumber? && 0 <= TotalSeconds(seconds)
    ensures ReadClock(ParseTimeFormat(seconds).value) == Some(TotalSeconds(seconds))
  {
    var c := Divmod(TotalSeconds(seconds));
    assert c.hours >= 0;
    ClockTextRoundTrip(c);
  }

  /** A clock with minutes and seconds in range reads back as its total. */
  lemma ClockTextRoundTrip(c: Clock)
    requires c.hours >= 0 && 0 <= c.minutes < 60 && 0 <= c.seconds < 60
    ensures ReadClock(ClockText(c)) == Some(c.hours * 3600 + c.minutes * 60 + c.seconds)
  {
    if c.hours != 0 {
      ReadClock3(c.hours, c.minutes, c.seconds);
    } else {
      ReadClock2(c.minutes, c.seconds);
    }
  }

  lemma ParseTimeFormatExample()
    ensures ParseTimeFormat(IntSeconds(3725)) == Some("01:02:05")
    ensures ParseTimeFormat(FloatSeconds(59.9)) == Some("00:59")
  {
    assert Divmod(3725) == Clock(1, 2, 5);
    assert Pad2(1) == "01" && Pad2(2) == "02" && Pad2(5) == "05";
    assert ClockText(Clock(1, 2, 5)) == "01" + ":" + "02" + ":" + "05" == "01:02:05";
    assert ParseTimeFormat(IntSeconds(3725)) == Some(ClockText(Divmod(3725)));
    assert Truncate(59.9) == 59;
    assert Divmod(59) == Clock(0, 0, 59);
    assert Digits(59) == Digits(5) + [DigitChar(9)];
    assert Pad2(0) == "00" && Pad2(59) == "59";
    assert ClockText(Clock(0, 0, 59)) == "00" + ":" + "59" == "00:59";
    assert ParseTimeFormat(FloatSeconds(59.9)) == Some(ClockText(Divmod(59)));
  }

  // ================================================================ fetch_single_video

  /** The keys provided metadata must carry. */
  const RequiredMetadataKeys: set<string> := {"title", "channel_title", "publish_date", "duration", "tags"}

  /** `all(key in metadata and metadata[key] not in [None, "", []] ...)`. */
  predicate IsMetadataValid(m: JsonObject)
  {
    forall k :: k in RequiredMetadataKeys ==> k in m && !IsBlank(m[k])
  }

  /** Metadata is rejected as soon as one required key is missing or holds
      `None`, `""` or `[]`. */
  lemma MetadataNeedsEveryKey(m: JsonObject, k: string, blank: Json)
    requires k in RequiredMetadataKeys && IsBlank(blank)
    ensures !IsMetadataValid(m - {k})
    ensures !IsMetadataValid(m[k := blank])
  {
  }

  /** `fetch_video_metadata`: the dictionary for a video ID, `{}` when none. */
  type MetadataApi = string -> JsonObject

  /** What `fetch_single_video` ends in: a URL without a video ID, a video
      skipped for lack of metadata, or a transcript download with metadata. */
  datatype FetchOutcome = InvalidUrl | Skipped(videoId: string) | Download(videoId: string, metadata: JsonObject)

  /** `fetch_single_video(url, metadata)` as written: provided metadata is
      checked only when it is truthy (present and non-empty); `None` or `{}`
      falls straight through to the skip. */
  function FetchSingleVideo(url: string, provided: Option<JsonObject>, api: MetadataApi): (r: FetchOutcome)
    ensures r.InvalidUrl? <==> ExtractVideoId(url).None?
    ensures !r.InvalidUrl? ==> r.videoId == ExtractVideoId(url).value && IsVideoId(r.videoId)
    ensures r.Download? ==> r.metadata != map[] && provided.Some? && provided.value != map[]
    ensures r.Download? && IsMetadataValid(provided.value) ==> r.metadata == provided.value
    ensures r.Download? && !IsMetadataValid(provided.value) ==> r.metadata == api(r.videoId)
    ensures (!r.InvalidUrl? && provided.Some? && provided.value != map[]
             && (IsMetadataValid(provided.value) || api(r.videoId) != map[])) ==> r.Download?
  {
    match ExtractVideoId(url)
    case None => InvalidUrl
    case Some(videoId) =>
      var metadata :=
        if provided.Some? && provided.value != map[] && !IsMetadataValid(provided.value)
        then Some(api(videoId))
        else provided;
      if metadata.None? || metadata.value == map[] then Skipped(videoId)
      else Download(videoId, metadata.value)
  }

  /** `fetch_single_video` as its docstring describes it: provided metadata
      is used when it is valid, and in every other case, none provided
      included, the metadata is fetched from the API. */
  function FetchSingleVideoIntended(url: string, provided: Option<JsonObject>, api: MetadataApi)
    : (r: FetchOutcome)
    ensures r.InvalidUrl? <==> ExtractVideoId(url).None?
    ensures !r.InvalidUrl? ==> r.videoId == ExtractVideoId(url).value
    ensures r.Download? ==> r.metadata != map[]
    ensures !r.InvalidUrl? ==>
              (r.Download? <==> ((provided.Some? && IsMetadataValid(provided.value)) || api(r.videoId) != map[]))
  {
    match ExtractVideoId(url)
    case None => InvalidUrl
    case Some(videoId) =>
      var metadata :=
        if provided.Some? && IsMetadataValid(provided.value) then provided.value else api(videoId);
      if metadata == map[] then Skipped(videoId) else Download(videoId, metadata)
  }

  /** Valid metadata is never empty, so the two agree whenever valid
      metadata is provided. */
  lemma IntendedAgreesOnValidMetadata(url: string, m: JsonObject, api: MetadataApi)
    requires IsMetadataValid(m)
    ensures FetchSingleVideo(url, Some(m), api) == FetchSingleVideoIntended(url, Some(m), api)
  {
    assert "title" in m;
  }

  /** The discrepancy: for a plain watch URL and no metadata, the code skips
      a video whose metadata the API would return, and the intended
      behaviour downloads it. */
  lemma NoMetadataSkipsVideo(id: string, api: MetadataApi)
    requires IsVideoId(id) && api(id) != map[]
    ensures FetchSingleVideo(WatchUrl(id), None, api) == Skipped(id)
    ensures FetchSingleVideoIntended(WatchUrl(id), None, api) == Download(id, api(id))
  {
    WatchUrlRoundTrip(id);
  }

  /** With the intended behaviour, a list of video IDs downloads every
      video for which the API returns metadata. */
  lemma IntendedListDownloads(ids: seq<string>, api: MetadataApi)
    requires forall i :: 0 <= i < |ids| ==> IsVideoId(ids[i])
    ensures forall i :: 0 <= i < |ids| ==>
              var r := FetchSingleVideoIntended(LineUrl(ids[i]), None, api);
              !r.InvalidUrl? && r.videoId == ids[i] && (r.Download? <==> api(ids[i]) != map[])
  {
    forall i | 0 <= i < |ids|
      ensures var r := FetchSingleVideoIntended(LineUrl(ids[i]), None, api);
              !r.InvalidUrl? && r.videoId == ids[i] && (r.Download? <==> api(ids[i]) != map[])
    {
      ListedIdRoundTrip(ids[i]);
    }
  }

  // ================================================================ the downloader

  /** How `process_file_with_video_urls` ends: the file does not exist,
      reading it raised, or every listed URL went through
      `fetch_single_video` (which is called without metadata). */
  datatype ListRun = FileNotFound | ReadFailed | Ran(urls: seq<string>, outcomes: seq<FetchOutcome>)

  /** The loop of `process_file_with_video_urls`: `fetch_single_video(url)`
      for each URL in order, without metadata, so that no video is
      downloaded. */
  method FetchAll(urls: seq<string>, api: MetadataApi) returns (outcomes: seq<FetchOutcome>)
    ensures |outcomes| == |urls|
    ensures forall i :: 0 <= i < |urls| ==> outcomes[i] == FetchSingleVideo(urls[i], None, api)
    ensures forall i :: 0 <= i < |outcomes| ==> !outcomes[i].Download?
  {
    outcomes := [];
    for i := 0 to |urls|
      invariant |outcomes| == i
      invariant forall j :: 0 <= j < i ==> outcomes[j] == FetchSingleVideo(urls[j], None, api)
    {
      outcomes := outcomes + [FetchSingleVideo(urls[i], None, api)];
    }
  }

  class Downloader {
    /** `TRANSCRIPT_FILENAME_LENGTH` from the configuration. */
    const transcriptFilenameLength: int

    /** The configuration file and the API key are not modelled: the
        defaults apply. */
    constructor ()
      ensures transcriptFilenameLength == DefaultFilenameLength
    {
      transcriptFilenameLength := DefaultFilenameLength;
    }

    /** `_sanitize_filename(name, max_length)`: non-strings become
        `str(name)`; strings go through the replacement loop, are stripped
        and cut to `max_length`, which defaults to the configured length. */
    method SanitizeFilename(name: Json, maxLength: Option<int>) returns (r: string)
      ensures !name.JString? ==> r == Shown(name)
      ensures name.JString? ==>
                var limit := if maxLength.Some? then maxLength.value else transcriptFilenameLength;
                && r == SliceTo(CleanName(name.s), limit)
                && (0 <= limit ==> |r| <= limit)
                && (forall c :: c in r ==> IsNameChar(c) && c != '_' && c != ':')
                && (r == [] || !IsSpace(r[0]))
    {
      if !name.JString? {
        return Shown(name);
      }
      var sanitized := RunReplacements(name.s);
      var limit := if maxLength.Some? then maxLength.value else transcriptFilenameLength;
      var stripped := Strip(sanitized);
      r := SliceTo(stripped, limit);
      assert forall i :: 0 <= i < |r| ==> r[i] == stripped[i];
      forall c | c in r ensures c in stripped {
        var i :| 0 <= i < |r| && r[i] == c;
      }
    }

    /** `process_file_with_video_urls(file_path)`: nothing happens for a
        missing file; otherwise the URL list is read and each URL handed to
        `fetch_single_video` in order, without metadata. */
    method ProcessFileWithVideoUrls(path: string, existing: set<string>, rows: seq<seq<string>>,
                                    lines: seq<string>, api: MetadataApi)
      returns (run: ListRun)
      ensures path !in existing <==> run == FileNotFound
      ensures run == ReadFailed <==> path in existing && ListedUrls(path, rows, lines).None?
      ensures run.Ran? ==> run.urls == ListedUrls(path, rows, lines).value
      ensures run.Ran? ==>
                |run.outcomes| == |run.urls|
                && forall i :: 0 <= i < |run.urls| ==> run.outcomes[i] == FetchSingleVideo(run.urls[i], None, api)
      ensures run.Ran? ==> forall i :: 0 <= i < |run.outcomes| ==> !run.outcomes[i].Download?
    {
      if path !in existing {
        return FileNotFound;
      }
      var urls := UrlsFromFile(path, rows, lines);
      if urls.None? {
        return ReadFailed;
      }
      var outcomes := FetchAll(urls.value, api);
      run := Ran(urls.value, outcomes);
    }

    /** `find_duplicate_transcripts`: nothing for a missing directory;
        otherwise the scan over its `.json` files. */
    method FindDuplicateTranscripts(dir: string, existing: set<string>, walk: seq<WalkEntry>, sha1: Hasher)
      returns (found: Option<ScanState>)
      ensures dir !in existing <==> found.None?
      ensures found.Some? ==> found.value == Scan(Candidates(walk, ".json"), sha1)
      ensures found.Some? ==>
                |found.value.duplicates| + |found.value.hashes| == |Candidates(walk, ".json")|
                && forall i :: 0 <= i < |found.value.duplicates| ==> EndsWith(found.value.duplicates[i].0, ".json")
    {
      if dir !in existing {
        return None;
      }
      var st := FindDuplicates(walk, ".json", sha1);
      ScanPairs(Candidates(walk, ".json"), sha1);
      RepeatsAreIn(Candidates(walk, ".json"), sha1);
      found := Some(st);
    }
  }
}
