/** The transcript processor: it joins a transcript's segments, asks an AI
    service for a reformatted document (retrying only timeouts), cuts the JSON
    body out of the reply, checks its keys and minimum lengths, writes it under
    `processed/<channel>/<title>.json`, and records the input's base name in a
    ledger so that a later run skips it while the output still exists.

    The AI service is a sequence of outcomes, one per attempt; JSON decoding is
    an abstract `Decoder`; the file system is a set of existing paths plus the
    documents written and the ledger file. */
module AiTranscriptProcessor {
  import opened PyText
  import opened JsonValue
  import opened FilenameRewrites

  /** Attempts the processor makes at the AI call. */
  const MaxRetries: nat := 3

  // ================================================================ sanitizing

  /** `_sanitize_filename(title)`: strings are cleaned, any other value is
      returned as `str(title)`. */
  function Sanitized(title: Json): string
  {
    match title
    case JString(s) => CleanName(s)
    case _ => Shown(title)
  }

  /** A non-empty run of ASCII letters and digits. */
  predicate IsPlainWord(w: string)
  {
    w != [] && forall c :: c in w ==> IsAsciiLetter(c) || IsAsciiDigit(c)
  }

  /** Joining two non-empty space-free strings with a middle part that has
      no two adjacent spaces makes no two adjacent spaces. */
  lemma NoSpaceRuns(a: string, m: string, b: string)
    requires a != [] && b != [] && ' ' !in a && ' ' !in b
    requires forall i :: 0 <= i < |m| - 1 ==> !(m[i] == ' ' && m[i + 1] == ' ')
    ensures forall i :: 0 <= i < |a + m + b| - 1 ==>
      !((a + m + b)[i] == ' ' && (a + m + b)[i + 1] == ' ')
  {
    var t := a + m + b;
    forall i | 0 <= i < |t| - 1 ensures !(t[i] == ' ' && t[i + 1] == ' ') {
      if i < |a| { assert t[i] == a[i] && a[i] in a; }
      else if i >= |a| + |m| { assert t[i] == b[i - |a| - |m|] && b[i - |a| - |m|] in b; }
      else if i == |a| + |m| - 1 { assert t[i + 1] == b[0] && b[0] in b; }
      else { assert t[i] == m[i - |a|] && t[i + 1] == m[i - |a| + 1]; }
    }
  }

  lemma PlainWordChars(w: string)
    requires IsPlainWord(w)
    ensures forall c :: c in w ==> IsBmp(c) && IsNameChar(c) && c != '_' && c != ' ' && c != ':'
    ensures !IsSpace(w[0]) && !IsSpace(w[|w| - 1])
  {
    assert w[0] in w && w[|w| - 1] in w;
  }

  /** The ends of a joined text are the ends of its outer parts. */
  lemma JoinEnds(a: string, m: string, b: string)
    requires a != [] && b != []
    ensures (a + m + b)[0] == a[0] && (a + m + b)[|a + m + b| - 1] == b[|b| - 1]
  {
  }

  /** Step 3 on `"<a>: <b><p>"`. */
  lemma ColonStep(a: string, b: string, p: char)
    requires IsPlainWord(a) && IsPlainWord(b) && p != ':'
    ensures ColonsToDashes(a + ": " + b + [p]) == a + " - " + b + [p]
  {
    var tail := b + [p];
    assert ' ' !in a && ':' !in a by {
      forall c | c in a ensures c != ' ' && c != ':' { }
    }
    assert ':' !in tail && tail[0] != ' ' by {
      assert tail[0] == b[0] && b[0] in b;
      forall c | c in tail ensures c != ':' { assert c in b || c == p; }
    }
    ColonBetween(a, tail);
    Regroup4(a, ": ", b, p);
    Regroup4(a, " - ", b, p);
  }

  /** Regrouping a four-part concatenation around its middle part. */
  lemma Regroup4(a: string, m: string, b: string, p: char)
    ensures a + m + b + [p] == a + (m + (b + [p]))
  {
  }

  /** Step 4 on `"<a> - <b><p>"`: there is no run of spaces to collapse. */
  lemma DashCollapseKept(a: string, b: string, p: char)
    requires IsPlainWord(a) && IsPlainWord(b) && p != ' '
    ensures CollapseSpaceRuns(a + " - " + b + [p]) == a + " - " + b + [p]
  {
    assert ' ' !in a && ' ' !in b + [p] by {
      assert forall c :: c in a ==> c != ' ';
      assert forall c :: c in b + [p] ==> c in b || c == p;
    }
    NoSpaceRuns(a, " - ", b + [p]);
    assert a + " - " + (b + [p]) == a + " - " + b + [p];
    CollapseWithoutRuns(a + " - " + b + [p]);
  }

  /** Step 5 on `"<a> - <b><p>"`: only the punctuation mark goes. */
  lemma DashFilterKept(a: string, b: string, p: char)
    requires IsPlainWord(a) && IsPlainWord(b) && !IsNameChar(p)
    ensures Filter(a + " - " + b + [p], IsNameChar) == a + " - " + b
  {
    var u := a + " - " + b;
    FilterDropsLast(u, p, IsNameChar);
    assert forall c :: c in u ==> c in a || c in b || c == ' ' || c == '-';
    FilterKeepsAll(u, IsNameChar);
  }

  /** Steps 4 and 5 on `"<a> - <b><p>"`. */
  lemma DashTailSteps(a: string, b: string, p: char)
    requires IsPlainWord(a) && IsPlainWord(b) && !IsNameChar(p)
    ensures Filter(CollapseSpaceRuns(a + " - " + b + [p]), IsNameChar) == a + " - " + b
  {
    DashCollapseKept(a, b, p);
    DashFilterKept(a, b, p);
  }

  /** The first two steps leave `"<a>: <b><p>"` alone. */
  lemma ColonWordsSteps(a: string, b: string, p: char)
    requires IsPlainWord(a) && IsPlainWord(b)
    requires !IsNameChar(p) && IsBmp(p)
    ensures CleanName(a + ": " + b + [p])
         == Strip(Filter(CollapseSpaceRuns(ColonsToDashes(a + ": " + b + [p])), IsNameChar))
  {
    var s := a + ": " + b + [p];
    PlainWordChars(a);
    PlainWordChars(b);
    forall c | c in s ensures IsBmp(c) && c != '_' {
      assert c in a || c in b || c == ':' || c == ' ' || c == p;
    }
    BmpPlainSteps(s);
  }

  /** Two words with anything between them have no whitespace at either
      end. */
  lemma WordsAroundTrimmed(a: string, m: string, b: string)
    requires IsPlainWord(a) && IsPlainWord(b)
    ensures Strip(a + m + b) == a + m + b
  {
    var u := a + m + b;
    assert u[0] == a[0] && a[0] in a && u[|u| - 1] == b[|b| - 1] && b[|b| - 1] in b;
    StripTrimmed(u);
  }

  /** A colon after a word becomes ` - `, and trailing punctuation is dropped:
      `"<a>: <b><p>"` sanitizes to `"<a> - <b>"`. */
  lemma ColonBetweenWords(a: string, b: string, p: char)
    requires IsPlainWord(a) && IsPlainWord(b)
    requires !IsNameChar(p) && p != ':' && IsBmp(p)
    ensures CleanName(a + ": " + b + [p]) == a + " - " + b
  {
    ColonWordsSteps(a, b, p);
    ColonStep(a, b, p);
    DashTailSteps(a, b, p);
    WordsAroundTrimmed(a, " - ", b);
  }

  lemma SanitizeExample()
    ensures Sanitized(JString("Hello: World!")) == "Hello - World"
  {
    assert "Hello: World!" == "Hello" + ": " + "World" + ['!'];
    assert "Hello - World" == "Hello" + " - " + "World";
    ColonBetweenWords("Hello", "World", '!');
  }

  /** One pass over `"<a> <p> <b>"`: the spaces around `p` are not adjacent
      when step 4 runs, and step 5 then deletes `p` from between them. */
  lemma DroppedBetweenSpaces(a: string, b: string, p: char)
    requires IsPlainWord(a) && IsPlainWord(b)
    requires !IsNameChar(p) && p != ':' && IsBmp(p)
    ensures CleanName(a + " " + [p] + " " + b) == a + "  " + b
  {
    var s := a + " " + [p] + " " + b;
    PlainWordChars(a);
    PlainWordChars(b);
    forall c | c in s ensures IsBmp(c) && c != '_' && c != ':' {
      assert c in a || c in b || c == ' ' || c == p;
    }
    BmpPlainSteps(s);
    ColonFree(s);
    SpacedCharKept(a, b, p);
    FilterSpaced(a, b, p);
    WordsAroundTrimmed(a, "  ", b);
  }

  lemma SpacedCharKept(a: string, b: string, p: char)
    requires IsPlainWord(a) && IsPlainWord(b) && p != ' '
    ensures CollapseSpaceRuns(a + " " + [p] + " " + b) == a + " " + [p] + " " + b
  {
    PlainWordChars(a);
    PlainWordChars(b);
    var m := " " + [p] + " ";
    assert a + m + b == a + " " + [p] + " " + b;
    NoSpaceRuns(a, m, b);
    CollapseWithoutRuns(a + m + b);
  }

  /** The two ways of cutting `a + " " + [p] + " " + b` the filter steps use. */
  lemma Regroup(a: string, b: string, p: char)
    ensures a + " " + [p] + " " + b == ((a + " ") + [p]) + (" " + b)
    ensures (a + " ") + (" " + b) == a + "  " + b
  {
  }

  lemma FilterSpaced(a: string, b: string, p: char)
    requires IsPlainWord(a) && IsPlainWord(b) && !IsNameChar(p)
    ensures Filter(a + " " + [p] + " " + b, IsNameChar) == a + "  " + b
  {
    var l, r := a + " ", " " + b;
    Regroup(a, b, p);
    FilterAppend(l + [p], r, IsNameChar);
    FilterDropsLast(l, p, IsNameChar);
    PlainPlusSpaceKept(a, b);
  }

  lemma PlainPlusSpaceKept(a: string, b: string)
    requires IsPlainWord(a) && IsPlainWord(b)
    ensures Filter(a + " ", IsNameChar) == a + " "
    ensures Filter(" " + b, IsNameChar) == " " + b
  {
    PlainWordChars(a);
    PlainWordChars(b);
    forall c | c in a + " " ensures IsNameChar(c) { assert c in a || c == ' '; }
    forall c | c in " " + b ensures IsNameChar(c) { assert c in b || c == ' '; }
    FilterKeepsAll(a + " ", IsNameChar);
    FilterKeepsAll(" " + b, IsNameChar);
  }

  /** A second pass over `"<a>  <b>"` collapses the two spaces. */
  lemma DoubleSpaceCollapsed(a: string, b: string)
    requires IsPlainWord(a) && IsPlainWord(b)
    ensures CleanName(a + "  " + b) == a + " " + b
  {
    var s := a + "  " + b;
    PlainWordChars(a);
    PlainWordChars(b);
    forall c | c in s ensures IsBmp(c) && c != '_' && c != ':' {
      assert c in a || c in b || c == ' ';
    }
    BmpPlainSteps(s);
    ColonFree(s);
    DoubleSpaceStep(a, b);
    SingleSpacedKept(a, b);
  }

  lemma DoubleSpaceStep(a: string, b: string)
    requires IsPlainWord(a) && IsPlainWord(b)
    ensures CollapseSpaceRuns(a + "  " + b) == a + " " + b
  {
    PlainWordChars(a);
    PlainWordChars(b);
    assert a + "  " + b == a + ("  " + b);
    CollapseAfterPlain(a, "  " + b);
    assert SpaceRun("  " + b) == 2 by {
      assert ("  " + b)[2] == b[0] && b[0] in b;
    }
    assert ("  " + b)[2..] == b;
    forall i | 0 <= i < |b| - 1 ensures b[i] != ' ' { assert b[i] in b; }
    CollapseWithoutRuns(b);
    assert a + (" " + b) == a + " " + b;
  }

  lemma SingleSpacedKept(a: string, b: string)
    requires IsPlainWord(a) && IsPlainWord(b)
    ensures Strip(Filter(a + " " + b, IsNameChar)) == a + " " + b
  {
    PlainWordChars(a);
    PlainWordChars(b);
    var u := a + " " + b;
    assert forall c :: c in u ==> c in a || c in b || c == ' ';
    FilterKeepsAll(u, IsNameChar);
    JoinEnds(a, " ", b);
    StripTrimmed(u);
  }

  /** Sanitizing is not idempotent: step 4 collapses spaces before step 5
      deletes the character that separated them, so a second pass collapses
      what the first one left. */
  lemma SanitizeNotIdempotent(a: string, b: string, p: char)
    requires IsPlainWord(a) && IsPlainWord(b)
    requires !IsNameChar(p) && p != ':' && IsBmp(p)
    ensures CleanName(CleanName(a + " " + [p] + " " + b)) != CleanName(a + " " + [p] + " " + b)
  {
    DroppedBetweenSpaces(a, b, p);
    DoubleSpaceCollapsed(a, b);
    assert |a + " " + b| < |a + "  " + b|;
  }

  lemma NotIdempotentExample()
    ensures CleanName("a ! b") == "a  b" && CleanName("a  b") == "a b"
  {
    assert "a ! b" == "a" + " " + ['!'] + " " + "b";
    assert "a  b" == "a" + "  " + "b";
    assert "a b" == "a" + " " + "b";
    DroppedBetweenSpaces("a", "b", '!');
    DoubleSpaceCollapsed("a", "b");
  }

  // ================================================================ transcript

  datatype Segment = Segment(text: string, at: string)

  /** The input record: free-form metadata and the time-coded segments. */
  datatype TranscriptRecord = TranscriptRecord(metadata: JsonObject, transcript: seq<Segment>)

  /** `" ".join(segment["text"] for segment in transcript)`. */
  function CombineTranscript(segments: seq<Segment>): string
  {
    if segments == [] then ""
    else if |segments| == 1 then segments[0].text
    else segments[0].text + " " + CombineTranscript(segments[1..])
  }

  /** Where the `i`-th segment's text starts in the combined transcript. */
  function SegmentOffset(segments: seq<Segment>, i: nat): nat
    requires i <= |segments|
  {
    if i == 0 then 0 else SegmentOffset(segments, i - 1) + |segments[i - 1].text| + 1
  }

  /** The combined transcript is as long as the texts and one separator
      between each two of them. */
  lemma {:induction false} CombineLength(segments: seq<Segment>)
    requires segments != []
    ensures |CombineTranscript(segments)|
         == SegmentOffset(segments, |segments| - 1) + |segments[|segments| - 1].text|
  {
    if |segments| > 1 {
      CombineLength(segments[1..]);
      OffsetShift(segments, |segments| - 1);
    }
  }

  /** A position in the rest of a joined text, past the first part and its
      separator. */
  lemma AfterSeparator(head: string, rest: string, o: nat, n: nat)
    requires o + n <= |rest|
    ensures (head + " " + rest)[|head| + 1 + o..|head| + 1 + o + n] == rest[o..o + n]
    ensures o + n < |rest| ==> (head + " " + rest)[|head| + 1 + o + n] == rest[o + n]
  {
    var u := head + " " + rest;
    assert forall j :: 0 <= j < |rest| ==> u[|head| + 1 + j] == rest[j];
  }

  /** The `i`-th text sits at its offset in the combined transcript. */
  lemma {:induction false} CombineTextAt(segments: seq<Segment>, i: nat)
    requires i < |segments|
    ensures var r := CombineTranscript(segments);
            var o := SegmentOffset(segments, i);
            o + |segments[i].text| <= |r| && r[o..o + |segments[i].text|] == segments[i].text
  {
    if |segments| > 1 {
      var tail := segments[1..];
      var t0 := segments[0].text;
      var rt := CombineTranscript(tail);
      assert CombineTranscript(segments) == t0 + " " + rt;
      if i > 0 {
        CombineTextAt(tail, i - 1);
        OffsetShift(segments, i);
        AfterSeparator(t0, rt, SegmentOffset(tail, i - 1), |segments[i].text|);
      } else {
        assert (t0 + " " + rt)[..|t0|] == t0;
      }
    }
  }

  /** Each text but the last is followed by one space. */
  lemma {:induction false} CombineSpaceAfter(segments: seq<Segment>, i: nat)
    requires i < |segments| - 1
    ensures var r := CombineTranscript(segments);
            var o := SegmentOffset(segments, i);
            o + |segments[i].text| < |r| && r[o + |segments[i].text|] == ' '
  {
    var tail := segments[1..];
    var t0 := segments[0].text;
    var rt := CombineTranscript(tail);
    assert CombineTranscript(segments) == t0 + " " + rt;
    if i > 0 {
      CombineSpaceAfter(tail, i - 1);
      OffsetShift(segments, i);
      AfterSeparator(t0, rt, SegmentOffset(tail, i - 1), |segments[i].text|);
    }
  }

  /** The combined transcript is laid out as the segment texts in their order,
      each but the last followed by exactly one space, and nothing else. */
  lemma CombineLayout(segments: seq<Segment>, i: nat)
    requires i < |segments|
    ensures var r := CombineTranscript(segments);
            var o := SegmentOffset(segments, i);
            && |r| == SegmentOffset(segments, |segments| - 1) + |segments[|segments| - 1].text|
            && o + |segments[i].text| <= |r|
            && (i < |segments| - 1 ==> o + |segments[i].text| < |r|)
            && r[o..o + |segments[i].text|] == segments[i].text
            && (i < |segments| - 1 ==> r[o + |segments[i].text|] == ' ')
  {
    CombineLength(segments);
    CombineTextAt(segments, i);
    if i < |segments| - 1 {
      CombineSpaceAfter(segments, i);
    }
  }

  /** Offsets in the tail are offsets in the whole, shifted by the first text
      and its separator. */
  lemma {:induction false} OffsetShift(segments: seq<Segment>, i: nat)
    requires 0 < i <= |segments|
    ensures SegmentOffset(segments, i)
         == |segments[0].text| + 1 + SegmentOffset(segments[1..], i - 1)
  {
    if i > 1 {
      OffsetShift(segments, i - 1);
    }
  }

  lemma CombineEmpty()
    ensures CombineTranscript([]) == ""
  {
  }

  // ================================================================ AI call

  /** What one attempt at the AI call yields: a timeout, any other exception,
      or a reply whose message content is `content` ("" when it is empty or
      absent). */
  datatype AiOutcome = Timeout | Failure | Reply(content: string)

  /** How the retry loop ends: the reply text it got, if any, and how many
      attempts it made. */
  datatype CallResult = CallResult(reply: Option<string>, attempts: nat)

  /** The retry loop from attempt `attempt` on: a timeout is retried while
      attempts remain; any other exception ends the loop at once; a reply ends
      it with that reply. */
  function RetryFrom(outcomes: seq<AiOutcome>, attempt: nat): (r: CallResult)
    requires attempt < MaxRetries <= |outcomes|
    ensures attempt < r.attempts <= MaxRetries
    ensures forall j :: attempt <= j < r.attempts - 1 ==> outcomes[j].Timeout?
    ensures r.reply.Some? <==> outcomes[r.attempts - 1].Reply?
    ensures r.reply.Some? ==> r.reply.value == outcomes[r.attempts - 1].content
    ensures outcomes[r.attempts - 1].Timeout? ==> r.attempts == MaxRetries
    decreases MaxRetries - attempt
  {
    match outcomes[attempt]
    case Timeout =>
      if attempt == MaxRetries - 1 then CallResult(None, MaxRetries)
      else RetryFrom(outcomes, attempt + 1)
    case Failure => CallResult(None, attempt + 1)
    case Reply(text) => CallResult(Some(text), attempt + 1)
  }

  /** Three timeouts in a row: the loop gives up after its third attempt. */
  lemma AllTimeouts(outcomes: seq<AiOutcome>)
    requires MaxRetries <= |outcomes|
    requires forall j :: 0 <= j < MaxRetries ==> outcomes[j] == Timeout
    ensures RetryFrom(outcomes, 0) == CallResult(None, MaxRetries)
  {
  }

  /** A failure that is not a timeout ends the loop without another attempt. */
  lemma FailureStops(outcomes: seq<AiOutcome>, k: nat)
    requires k < MaxRetries <= |outcomes|
    requires forall j :: 0 <= j < k ==> outcomes[j] == Timeout
    requires outcomes[k] == Failure
    ensures RetryFrom(outcomes, 0) == CallResult(None, k + 1)
  {
    var r := RetryFrom(outcomes, 0);
    assert outcomes[r.attempts - 1] != Timeout || r.attempts - 1 == k;
  }

  // ================================================================ the reply

  /** Index of the first `c` in `s`, or `|s|`. */
  function FirstIndex(s: string, c: char): (k: nat)
    ensures k <= |s|
    ensures c !in s[..k]
    ensures k < |s| ==> s[k] == c
  {
    if s == [] then 0
    else if s[0] == c then 0
    else
      assert s[..1 + FirstIndex(s[1..], c)] == [s[0]] + s[1..][..FirstIndex(s[1..], c)];
      1 + FirstIndex(s[1..], c)
  }

  /** Index just past the last `c` in `s`, or 0. */
  function EndOfLast(s: string, c: char): (k: nat)
    ensures k <= |s|
    ensures c !in s[k..]
    ensures k > 0 ==> s[k - 1] == c
  {
    if s == [] then 0
    else if s[|s| - 1] == c then |s|
    else
      assert s[EndOfLast(s[..|s| - 1], c)..] == s[..|s| - 1][EndOfLast(s[..|s| - 1], c)..] + [s[|s| - 1]];
      EndOfLast(s[..|s| - 1], c)
  }

  /** The two trimming substitutions: `^[^{]*` and then `[^}]*$` are deleted. */
  function TrimReply(reply: string): (r: string)
    ensures r == [] || (r[0] == '{' && r[|r| - 1] == '}')
    ensures |r| <= |reply|
  {
    var t := reply[FirstIndex(reply, '{')..];
    t[..EndOfLast(t, '}')]
  }

  /** The first `c` is found where it is. */
  lemma FirstIndexAt(s: string, c: char, a: nat)
    requires a < |s| && s[a] == c && c !in s[..a]
    ensures FirstIndex(s, c) == a
  {
    var k := FirstIndex(s, c);
    assert forall i :: 0 <= i < a ==> s[..a][i] == s[i];
    assert forall i :: 0 <= i < k ==> s[..k][i] == s[i];
  }

  /** The last `c` is found where it is. */
  lemma EndOfLastAt(s: string, c: char, e: nat)
    requires 0 < e <= |s| && s[e - 1] == c && c !in s[e..]
    ensures EndOfLast(s, c) == e
  {
    var k := EndOfLast(s, c);
    assert forall i :: e <= i < |s| ==> s[e..][i - e] == s[i];
    assert forall i :: k <= i < |s| ==> s[k..][i - k] == s[i];
  }

  /** When the reply holds a `{` before a `}`, trimming leaves exactly the span
      from its first `{` to its last `}`. */
  lemma TrimReplySpan(reply: string, a: nat, b: nat)
    requires a < b <= |reply|
    requires reply[a] == '{' && '{' !in reply[..a]
    requires reply[b - 1] == '}' && '}' !in reply[b..]
    ensures TrimReply(reply) == reply[a..b]
  {
    FirstIndexAt(reply, '{', a);
    var t := reply[a..];
    assert t[b - a - 1] == '}';
    assert t[b - a..] == reply[b..];
    EndOfLastAt(t, '}', b - a);
    assert t[..b - a] == reply[a..b];
  }

  /** When no `}` follows the first `{`, trimming leaves nothing. */
  lemma TrimReplyEmpty(reply: string)
    requires forall i, j :: 0 <= i < j < |reply| && reply[i] == '{' ==> reply[j] != '}'
    ensures TrimReply(reply) == []
  {
    var f := FirstIndex(reply, '{');
    var t := reply[f..];
    assert forall j :: 0 <= j < |t| ==> t[j] == reply[f + j] && t[j] != '}';
    EndOfLastNone(t, '}');
  }

  /** Without any `c`, nothing is kept before the end of the last one. */
  lemma EndOfLastNone(s: string, c: char)
    requires forall j :: 0 <= j < |s| ==> s[j] != c
    ensures EndOfLast(s, c) == 0 && s[..EndOfLast(s, c)] == []
  {
  }

  /** Text without `{` before a braced body and text without `}` after it
      are cut away. */
  lemma TrimReplyWrapped(before: string, body: string, after: string)
    requires '{' !in before && '}' !in after
    requires |body| >= 2 && body[0] == '{' && body[|body| - 1] == '}'
    ensures TrimReply(before + body + after) == body
  {
    var s := before + body + after;
    var a, b := |before|, |before| + |body|;
    assert s[..a] == before;
    assert s[b..] == after;
    assert s[a..b] == body;
    TrimReplySpan(s, a, b);
  }

  lemma TrimReplyExample()
    ensures TrimReply("ok: {\"t\": 1} bye") == "{\"t\": 1}"
  {
    TrimReplyWrapped("ok: ", "{\"t\": 1}", " bye");
    assert "ok: " + "{\"t\": 1}" + " bye" == "ok: {\"t\": 1} bye";
  }

  predicate HasRequiredKeys(doc: JsonObject)
  {
    "title" in doc && "summary" in doc && "content" in doc
  }

  /** The minimum lengths; a section must be strictly longer to pass. */
  datatype MinLengths = MinLengths(title: nat, summary: nat, content: nat)

  const DefaultMinLengths := MinLengths(20, 100, 500)

  /** `len(title) > min_title_length and len(summary) > ... and
      len(content) > ...`; a value without `len()` fails the gate. */
  predicate PassesLengthGate(title: Json, summary: Json, content: Json, mins: MinLengths)
  {
    && PyLen(title).Some? && PyLen(title).value > mins.title
    && PyLen(summary).Some? && PyLen(summary).value > mins.summary
    && PyLen(content).Some? && PyLen(content).value > mins.content
  }

  /** The gate is strict: a section exactly at its minimum is rejected, and
      one character more in every section is accepted. */
  lemma LengthGateIsStrict(t: string, s: string, c: string)
    ensures |t| == 20 || |s| == 100 || |c| == 500
            ==> !PassesLengthGate(JString(t), JString(s), JString(c), DefaultMinLengths)
    ensures |t| == 21 && |s| == 101 && |c| == 501
            ==> PassesLengthGate(JString(t), JString(s), JString(c), DefaultMinLengths)
  {
  }

  // ================================================================ output

  /** `f"{_sanitize_filename(title)}.json"`. */
  function OutputFilename(title: Json): string
  {
    Sanitized(title) + ".json"
  }

  /** `os.path.join("processed", channel)`: the directory `makedirs` creates. */
  function OutputDir(metadata: JsonObject): string
    requires "channel_name" in metadata
  {
    PathJoin("processed", Sanitized(metadata["channel_name"]))
  }

  /** `os.path.join(os.path.join("processed", channel), filename)`. */
  function OutputPath(channel: Json, title: Json): string
  {
    PathJoin(PathJoin("processed", Sanitized(channel)), OutputFilename(title))
  }

  /** For string channel and title the document lands at
      `processed/<channel>/<title>.json` (or `processed/<title>.json` when the
      channel sanitizes to nothing), and the file name is the path's last
      component. */
  lemma OutputPathShape(channel: string, title: string)
    ensures var ch := CleanName(channel);
            var fname := CleanName(title) + ".json";
            && OutputPath(JString(channel), JString(title))
               == (if ch == [] then "processed/" else "processed/" + ch + "/") + fname
            && Basename(OutputPath(JString(channel), JString(title))) == fname
  {
    CleanNameHasNoSlash(channel);
    CleanNameHasNoSlash(title);
    JsonNameHasNoSlash(CleanName(title));
    NestedJoin(CleanName(channel), CleanName(title) + ".json");
  }

  /** `join(join("processed", ch), fname)` for slash-free parts. */
  lemma NestedJoin(ch: string, fname: string)
    requires '/' !in ch && '/' !in fname && fname != []
    ensures PathJoin(PathJoin("processed", ch), fname)
         == (if ch == [] then "processed/" else "processed/" + ch + "/") + fname
    ensures Basename(PathJoin(PathJoin("processed", ch), fname)) == fname
  {
    var dir := PathJoin("processed", ch);
    assert !StartsWith(fname, "/") by { assert fname[0] in fname; }
    assert dir == "processed/" + ch by {
      assert !StartsWith(ch, "/") by { if |ch| > 0 { assert ch[0] in ch; } }
    }
    if ch == [] {
      assert dir == "processed/";
      assert dir + fname == "processed" + "/" + fname;
      BasenameAfterSlash("processed", fname);
    } else {
      assert dir[|dir| - 1] == ch[|ch| - 1] && ch[|ch| - 1] in ch;
      BasenameAfterSlash(dir, fname);
    }
  }

  lemma CleanNameHasNoSlash(s: string)
    ensures '/' !in CleanName(s)
  {
  }

  lemma JsonNameHasNoSlash(t: string)
    requires '/' !in t
    ensures '/' !in t + ".json"
  {
    forall c | c in t + ".json" ensures c != '/' {
      assert c in t || c in ".json";
    }
  }

  lemma {:induction false} BasenameAfterSlash(a: string, b: string)
    requires '/' !in b
    ensures Basename(a + "/" + b) == b
  {
    var p := a + "/" + b;
    var k := AfterLastSlash(p);
    assert p[|a|] == '/';
    assert forall i :: |a| < i < |p| ==> p[i] == b[i - |a| - 1];
    assert k == |a| + 1;
    assert p[k..] == b;
  }

  /** What the processor returns for an accepted document. */
  datatype Processed = Processed(
    title: Json, summary: Json, content: Json, filename: string, filepath: string)

  /** An accepted document and the whole decoded object that is written. */
  datatype Acceptance = Acceptance(result: Processed, written: JsonObject)

  /** Everything after a reply arrives: an empty reply fails, the JSON body is
      cut out and decoded, the three keys and the lengths are checked, and the
      output path is built from the metadata's `channel_name`. */
  function AcceptReply(reply: string, decode: Decoder, metadata: JsonObject, mins: MinLengths)
    : (r: Option<Acceptance>)
    ensures r.Some? ==> && reply != ""
                        && decode(TrimReply(reply)).Some?
                        && r.value.written == decode(TrimReply(reply)).value
                        && HasRequiredKeys(r.value.written)
                        && "channel_name" in metadata
    ensures r.Some? ==> var doc := r.value.written; var p := r.value.result;
                        && p.title == doc["title"] && p.summary == doc["summary"]
                        && p.content == doc["content"]
                        && PassesLengthGate(p.title, p.summary, p.content, mins)
                        && p.filename == OutputFilename(p.title)
                        && p.filepath == OutputPath(metadata["channel_name"], p.title)
  {
    if reply == "" then None
    else
      match decode(TrimReply(reply))
      case None => None
      case Some(doc) =>
        if !HasRequiredKeys(doc) then None
        else
          var title, summary, content := doc["title"], doc["summary"], doc["content"];
          if !PassesLengthGate(title, summary, content, mins) then None
          else if "channel_name" !in metadata then None
          else
            var channel := metadata["channel_name"];
            Some(Acceptance(
              Processed(title, summary, content, OutputFilename(title), OutputPath(channel, title)),
              doc))
  }

  /** A decoded reply that lacks any required key, or does not decode, is
      rejected; so is a reply with no `{...}` span at all. */
  lemma RejectsIncompleteReply(reply: string, decode: Decoder, metadata: JsonObject, mins: MinLengths)
    requires RejectsEmpty(decode)
    requires || decode(TrimReply(reply)).None?
             || !HasRequiredKeys(decode(TrimReply(reply)).value)
             || forall i, j :: 0 <= i < j < |reply| && reply[i] == '{' ==> reply[j] != '}'
    ensures AcceptReply(reply, decode, metadata, mins).None?
  {
    if forall i, j :: 0 <= i < j < |reply| && reply[i] == '{' ==> reply[j] != '}' {
      TrimReplyEmpty(reply);
    }
  }

  /** A reply whose document passes every check is accepted. */
  lemma AcceptsCompleteReply(reply: string, decode: Decoder, metadata: JsonObject, mins: MinLengths)
    requires reply != "" && decode(TrimReply(reply)).Some?
    requires var doc := decode(TrimReply(reply)).value;
             && HasRequiredKeys(doc)
             && PassesLengthGate(doc["title"], doc["summary"], doc["content"], mins)
    requires "channel_name" in metadata
    ensures AcceptReply(reply, decode, metadata, mins).Some?
  {
  }

  /** The whole of `reformat_transcript` after the prompt is built. */
  function Reformatted(outcomes: seq<AiOutcome>, decode: Decoder, record: TranscriptRecord, mins: MinLengths)
    : Option<Acceptance>
    requires MaxRetries <= |outcomes|
  {
    match RetryFrom(outcomes, 0).reply
    case None => None
    case Some(text) => AcceptReply(text, decode, record.metadata, mins)
  }

  // ================================================================ ledger

  datatype LedgerEntry = LedgerEntry(outputPath: string, processedDate: string)

  /** The ledger file: unreadable (missing or not valid JSON) or its entries. */
  datatype LedgerFile = Unreadable | Ledger(entries: map<string, LedgerEntry>)

  /** A missing or corrupt ledger reads as empty. */
  function LoadLedger(f: LedgerFile): (entries: map<string, LedgerEntry>)
    ensures f.Unreadable? ==> entries == map[]
    ensures f.Ledger? ==> entries == f.entries
  {
    match f
    case Unreadable => map[]
    case Ledger(entries) => entries
  }

  /** The skip decision: the input's base name has an entry whose output path
      still exists. */
  predicate AlreadyProcessed(entries: map<string, LedgerEntry>, name: string, paths: set<string>)
  {
    name in entries && entries[name].outputPath in paths
  }

  /** The ledger after a success: one entry inserted or overwritten, every
      other entry as it was. */
  function RecordSuccess(entries: map<string, LedgerEntry>, name: string, outputPath: string, now: string)
    : (r: map<string, LedgerEntry>)
    ensures r.Keys == entries.Keys + {name}
    ensures r[name] == LedgerEntry(outputPath, now)
    ensures forall k :: k in entries && k != name ==> r[k] == entries[k]
  {
    entries[name := LedgerEntry(outputPath, now)]
  }

  /** Once recorded, an input is skipped for as long as its output exists;
      the entry of any other input keeps its skip decision. */
  lemma RecordedIsSkipped(entries: map<string, LedgerEntry>, name: string, outputPath: string,
                          now: string, paths: set<string>, other: string)
    requires outputPath in paths
    requires other != name
    ensures AlreadyProcessed(RecordSuccess(entries, name, outputPath, now), name, paths)
    ensures AlreadyProcessed(RecordSuccess(entries, name, outputPath, now), other, paths)
        <==> AlreadyProcessed(entries, other, paths)
  {
  }

  /** An entry whose output has gone is stale: the input is processed again. */
  lemma StaleEntryIsReprocessed(entries: map<string, LedgerEntry>, name: string, paths: set<string>)
    requires name in entries && entries[name].outputPath !in paths
    ensures !AlreadyProcessed(entries, name, paths)
  {
  }

  /** The file system the processor touches. */
  class FileSystem {
    /** Paths for which `os.path.exists` holds. */
    var paths: set<string>
    /** JSON documents the processor has written, by path. */
    var documents: map<string, JsonObject>
    /** The contents of `.processed_files.json`. */
    var ledgerFile: LedgerFile

    ghost predicate Valid()
      reads this
    {
      documents.Keys <= paths
    }

    constructor (paths: set<string>, ledgerFile: LedgerFile)
      ensures Valid()
      ensures this.paths == paths && documents == map[] && this.ledgerFile == ledgerFile
    {
      this.paths := paths;
      documents := map[];
      this.ledgerFile := ledgerFile;
    }

    /** `os.makedirs(dir, exist_ok=True)` and a JSON dump of `doc` to `path`. */
    method WriteDocument(dir: string, path: string, doc: JsonObject)
      requires Valid()
      modifies this
      ensures Valid()
      ensures paths == old(paths) + {"processed", dir, path}
      ensures documents == old(documents)[path := doc]
      ensures ledgerFile == old(ledgerFile)
    {
      paths := paths + {"processed", dir, path};
      documents := documents[path := doc];
    }

    /** Rewrites the ledger file with `entries`. */
    method WriteLedger(entries: map<string, LedgerEntry>)
      requires Valid()
      modifies this
      ensures Valid()
      ensures ledgerFile == Ledger(entries)
      ensures paths == old(paths) && documents == old(documents)
    {
      ledgerFile := Ledger(entries);
    }
  }

  class Processor {
    const minLengths: MinLengths

    /** The processor's thresholds; the provider set-up is not modelled. */
    constructor ()
      ensures minLengths == DefaultMinLengths
    {
      minLengths := DefaultMinLengths;
    }

    /** `_sanitize_filename`: the replacement loop and `strip()` on a string;
        `str(title)` for anything else. */
    method SanitizeFilename(title: Json) returns (r: string)
      ensures r == Sanitized(title)
      ensures title.JString? ==> (forall c :: c in r ==> IsNameChar(c) && c != '_') && ':' !in r
      ensures title.JString? ==> r == [] || (!IsSpace(r[0]) && !IsSpace(r[|r| - 1]))
      ensures !title.JString? ==> r == Shown(title)
    {
      if !title.JString? {
        return Shown(title);
      }
      var sanitized := RunReplacements(title.s);
      r := Strip(sanitized);
    }

    /** The retry loop of `reformat_transcript`: attempt `i` (from 0) gets
        `outcomes[i]`. */
    method RequestReply(outcomes: seq<AiOutcome>) returns (reply: Option<string>, attempts: nat)
      requires MaxRetries <= |outcomes|
      ensures CallResult(reply, attempts) == RetryFrom(outcomes, 0)
    {
      attempts := 0;
      reply := None;
      while attempts < MaxRetries
        invariant attempts < MaxRetries
        invariant forall j :: 0 <= j < attempts ==> outcomes[j] == Timeout
        invariant RetryFrom(outcomes, attempts) == RetryFrom(outcomes, 0)
        decreases MaxRetries - attempts
      {
        var outcome := outcomes[attempts];
        attempts := attempts + 1;
        match outcome
        case Reply(text) =>
          reply := Some(text);
          return;
        case Failure =>
          return;
        case Timeout =>
          if attempts == MaxRetries {
            return;
          }
      }
    }

    /** `reformat_transcript`: on acceptance the decoded object is written to
        the output path and the result returned; otherwise nothing changes. */
    method ReformatTranscript(record: TranscriptRecord, outcomes: seq<AiOutcome>, decode: Decoder,
                              fs: FileSystem)
      returns (result: Option<Processed>)
      requires MaxRetries <= |outcomes|
      requires fs.Valid()
      modifies fs
      ensures fs.Valid()
      ensures var acc := Reformatted(outcomes, decode, record, minLengths);
              && (acc.None? ==> result.None? && unchanged(fs))
              && (acc.Some? ==> result == Some(acc.value.result)
                                && fs.documents == old(fs.documents)[acc.value.result.filepath := acc.value.written]
                                && "channel_name" in record.metadata
                                && fs.paths == old(fs.paths) + {"processed", OutputDir(record.metadata), acc.value.result.filepath}
                                && fs.ledgerFile == old(fs.ledgerFile))
    {
      // The joined transcript only feeds the prompt, which the outcomes abstract.
      var fullText := CombineTranscript(record.transcript);
      var reply, attempts := RequestReply(outcomes);
      if reply.None? {
        return None;
      }
      var accepted := AcceptReply(reply.value, decode, record.metadata, minLengths);
      if accepted.None? {
        return None;
      }
      var p := accepted.value.result;
      var channel := SanitizeFilename(record.metadata["channel_name"]);
      var dir := PathJoin("processed", channel);
      assert dir == OutputDir(record.metadata);
      fs.WriteDocument(dir, p.filepath, accepted.value.written);
      result := Some(p);
    }

    /** `process_file`: skip an input whose ledger entry still has its output;
        otherwise reformat it and, on success only, record its base name. */
    method ProcessFile(file: string, record: TranscriptRecord, outcomes: seq<AiOutcome>,
                       decode: Decoder, now: string, fs: FileSystem)
      returns (result: Option<Processed>)
      requires MaxRetries <= |outcomes|
      requires fs.Valid()
      modifies fs
      ensures fs.Valid()
      ensures var entries := LoadLedger(old(fs.ledgerFile));
              var name := Basename(file);
              if AlreadyProcessed(entries, name, old(fs.paths)) then
                result.None? && unchanged(fs)
              else
                var acc := Reformatted(outcomes, decode, record, minLengths);
                && (acc.None? ==> result.None? && unchanged(fs))
                && (acc.Some? ==> result == Some(acc.value.result)
                                  && fs.ledgerFile == Ledger(RecordSuccess(entries, name, acc.value.result.filepath, now))
                                  && fs.documents == old(fs.documents)[acc.value.result.filepath := acc.value.written]
                                  && "channel_name" in record.metadata
                                  && fs.paths == old(fs.paths) + {"processed", OutputDir(record.metadata), acc.value.result.filepath})
    {
      var entries := LoadLedger(fs.ledgerFile);
      var name := Basename(file);
      if name in entries && entries[name].outputPath in fs.paths {
        return None;
      }
      result := ReformatTranscript(record, outcomes, decode, fs);
      if result.Some? {
        entries := entries[name := LedgerEntry(result.value.filepath, now)];
        fs.WriteLedger(entries);
      }
    }
  }
}
