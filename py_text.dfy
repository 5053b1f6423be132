/** Python `str` behaviour that the transcript tools rely on, stated over
    Dafny strings (sequences of Unicode scalar values). */
module PyText {

  /** A value, or Python's `None`. */
  datatype Option<+T> = None | Some(value: T)

  /** `str.isspace()`: the characters Python's `str.strip()` removes and the
      regular-expression class `\s` matches on `str` patterns. */
  predicate IsSpace(c: char)
  {
    || c == ' ' || c == '\t' || c == '\n' || c == '\r' || c == '\U{000B}' || c == '\U{000C}'
    || ('\U{001C}' <= c <= '\U{001F}')
    || c == '\U{0085}' || c == '\U{00A0}' || c == '\U{1680}'
    || ('\U{2000}' <= c <= '\U{200A}')
    || c == '\U{2028}' || c == '\U{2029}' || c == '\U{202F}' || c == '\U{205F}' || c == '\U{3000}'
  }

  predicate IsAsciiDigit(c: char)
  {
    '0' <= c <= '9'
  }

  predicate IsAsciiLetter(c: char)
  {
    ('a' <= c <= 'z') || ('A' <= c <= 'Z')
  }

  /** The regular-expression class `\w`, restricted to ASCII: letters, digits
      and the underscore. */
  predicate IsWordChar(c: char)
  {
    IsAsciiLetter(c) || IsAsciiDigit(c) || c == '_'
  }

  lemma WordCharIsNotSpace(c: char)
    requires IsWordChar(c)
    ensures !IsSpace(c)
  {
  }

  predicate StartsWith(s: string, prefix: string)
  {
    |prefix| <= |s| && s[..|prefix|] == prefix
  }

  predicate EndsWith(s: string, suffix: string)
  {
    |suffix| <= |s| && s[|s| - |suffix|..] == suffix
  }

  // ---------------------------------------------------------------- strip

  /** Number of leading whitespace characters. */
  function LeadingSpaces(s: string): (k: nat)
    ensures k <= |s|
    ensures forall i :: 0 <= i < k ==> IsSpace(s[i])
    ensures k == |s| || !IsSpace(s[k])
  {
    if |s| > 0 && IsSpace(s[0]) then 1 + LeadingSpaces(s[1..]) else 0
  }

  /** Index just past the last non-whitespace character. */
  function TrailingStart(s: string): (k: nat)
    ensures k <= |s|
    ensures forall i :: k <= i < |s| ==> IsSpace(s[i])
    ensures k == 0 || !IsSpace(s[k - 1])
  {
    if |s| > 0 && IsSpace(s[|s| - 1]) then TrailingStart(s[..|s| - 1]) else |s|
  }

  /** `s.strip()`: drops leading and trailing whitespace and nothing else. */
  function Strip(s: string): (r: string)
    ensures r == [] || (!IsSpace(r[0]) && !IsSpace(r[|r| - 1]))
    ensures |r| <= |s|
    ensures LeadingSpaces(s) + |r| <= |s| && r == s[LeadingSpaces(s)..LeadingSpaces(s) + |r|]
    ensures r != [] ==> LeadingSpaces(s) + |r| == TrailingStart(s)
    ensures (forall i :: 0 <= i < |s| ==> IsSpace(s[i])) <==> r == []
    ensures forall c :: c in r ==> c in s
  {
    var a := LeadingSpaces(s);
    var b := TrailingStart(s);
    if a < b then
      s[a..b]
    else
      assert forall i :: 0 <= i < |s| ==> IsSpace(s[i]) by {
        forall i | 0 <= i < |s| ensures IsSpace(s[i]) {
          assert i < a || b <= i;
        }
      }
      assert s[0..0] == [];
      []
  }

  /** Stripping a string that has no whitespace at either end leaves it as is. */
  lemma StripTrimmed(s: string)
    requires s == [] || (!IsSpace(s[0]) && !IsSpace(s[|s| - 1]))
    ensures Strip(s) == s
  {
    if s != [] {
      assert LeadingSpaces(s) == 0;
      assert TrailingStart(s) == |s|;
    }
  }

  /** The leading whitespace of `x + y` is that of `x` when `x` holds another
      character or `y` starts with one. */
  lemma {:induction false} LeadingSpacesAppend(x: string, y: string)
    requires LeadingSpaces(x) < |x| || y == [] || !IsSpace(y[0])
    ensures LeadingSpaces(x + y) == LeadingSpaces(x)
  {
    if x == [] {
      assert x + y == y;
    } else if IsSpace(x[0]) {
      assert (x + y)[1..] == x[1..] + y;
      LeadingSpacesAppend(x[1..], y);
    }
  }

  /** The trailing whitespace of `x + y` is that of `y` when `y` holds another
      character. */
  lemma {:induction false} TrailingStartAppend(x: string, y: string)
    requires TrailingStart(y) > 0
    ensures TrailingStart(x + y) == |x| + TrailingStart(y)
  {
    if IsSpace(y[|y| - 1]) {
      assert (x + y)[..|x + y| - 1] == x + y[..|y| - 1];
      TrailingStartAppend(x, y[..|y| - 1]);
    }
  }

  /** A string holding another character than whitespace strips to the span
      between its leading and its trailing whitespace. */
  lemma StripSpan(s: string, j: int)
    requires 0 <= j < |s| && !IsSpace(s[j])
    ensures LeadingSpaces(s) < TrailingStart(s)
    ensures Strip(s) == s[LeadingSpaces(s)..TrailingStart(s)]
  {
  }

  /** Where the whitespace of `x + " " + y` ends and starts again. */
  lemma SpaceJoinedEnds(x: string, y: string)
    requires x != [] && !IsSpace(x[|x| - 1])
    requires y != [] && !IsSpace(y[0])
    ensures LeadingSpaces(x + " " + y) == LeadingSpaces(x) < |x| == TrailingStart(x)
    ensures TrailingStart(x + " " + y) == |x| + 1 + TrailingStart(y)
    ensures LeadingSpaces(y) == 0 < TrailingStart(y)
  {
    StripSpan(x, |x| - 1);
    StripSpan(y, 0);
    assert x + " " + y == x + (" " + y);
    LeadingSpacesAppend(x, " " + y);
    TrailingStartAppend(x + " ", y);
  }

  /** Stripping around one space that has another character on each side
      strips each side apart. */
  lemma StripAroundSpace(x: string, y: string)
    requires x != [] && !IsSpace(x[|x| - 1])
    requires y != [] && !IsSpace(y[0])
    ensures Strip(x + " " + y) == Strip(x) + " " + Strip(y)
  {
    StripJoined(x, y);
    StripEndsKept(x);
    StripStartsKept(y);
  }

  /** The strip of `x + " " + y` runs from the end of `x`'s leading
      whitespace to the start of `y`'s trailing whitespace. */
  lemma StripJoined(x: string, y: string)
    requires x != [] && !IsSpace(x[|x| - 1])
    requires y != [] && !IsSpace(y[0])
    ensures Strip(x + " " + y) == x[LeadingSpaces(x)..|x|] + " " + y[0..TrailingStart(y)]
  {
    var s := x + " " + y;
    assert s[|x| - 1] == x[|x| - 1];
    StripSpan(s, |x| - 1);
    SpaceJoinedEnds(x, y);
    SliceAcross(x, " ", y, LeadingSpaces(x), TrailingStart(y));
  }

  /** A string ending in another character than whitespace strips its
      leading whitespace only. */
  lemma StripEndsKept(x: string)
    requires x != [] && !IsSpace(x[|x| - 1])
    ensures Strip(x) == x[LeadingSpaces(x)..|x|]
  {
    assert TrailingStart(x) == |x|;
    StripSpan(x, |x| - 1);
  }

  /** A string starting with another character than whitespace strips its
      trailing whitespace only. */
  lemma StripStartsKept(y: string)
    requires y != [] && !IsSpace(y[0])
    ensures Strip(y) == y[0..TrailingStart(y)]
  {
    StripSpan(y, 0);
    assert LeadingSpaces(y) == 0;
  }

  /** Concatenation is associative; stated apart so that proofs about
      scans over strings do not have to rediscover it. */
  lemma ConcatAssoc(a: string, b: string, c: string)
    ensures a + (b + c) == (a + b) + c
  {
  }

  /** A slice of `x + m + y` that starts in `x` and ends in `y` is the end of
      `x`, all of `m`, and the start of `y`. */
  lemma SliceAcross(x: string, m: string, y: string, a: int, b: int)
    requires 0 <= a <= |x| && 0 <= b <= |y|
    ensures (x + m + y)[a..|x| + |m| + b] == x[a..|x|] + m + y[0..b]
  {
  }

  // ---------------------------------------------------------------- slices

  /** `s[:n]` with Python's slice semantics: a negative bound counts from the
      end, and a bound past the end is clipped. */
  function SliceTo(s: string, n: int): (r: string)
    ensures |r| <= |s|
    ensures 0 <= n ==> |r| <= n
    ensures 0 <= n ==> |r| == if n < |s| then n else |s|
    ensures n < 0 ==> |r| == if -n < |s| then |s| + n else 0
    ensures r == s[..|r|]
  {
    if n >= 0 then
      (if n < |s| then s[..n] else s)
    else
      (if -n < |s| then s[..|s| + n] else [])
  }

  // ---------------------------------------------------------------- digits

  function DigitChar(d: nat): (c: char)
    requires d < 10
    ensures IsAsciiDigit(c)
  {
    ['0', '1', '2', '3', '4', '5', '6', '7', '8', '9'][d]
  }

  function DigitValue(c: char): (d: nat)
    requires IsAsciiDigit(c)
    ensures d < 10
  {
    (c as int - '0' as int) as nat
  }

  lemma DigitRoundTrip(d: nat)
    requires d < 10
    ensures DigitValue(DigitChar(d)) == d
  {
  }

  predicate AllDigits(s: string)
  {
    forall i :: 0 <= i < |s| ==> IsAsciiDigit(s[i])
  }

  /** The decimal numeral of `n`, without leading zeros (`str(n)`). */
  function Digits(n: nat): (r: string)
    ensures |r| > 0 && AllDigits(r)
    ensures n >= 10 ==> r[0] != '0'
    ensures n < 10 <==> |r| == 1
    ensures n < 100 ==> |r| <= 2
  {
    if n < 10 then [DigitChar(n)] else Digits(n / 10) + [DigitChar(n % 10)]
  }

  /** `int(s)` on a string of ASCII digits (the empty string reads as 0). */
  function ParseNat(s: string): (n: nat)
    requires AllDigits(s)
  {
    if s == [] then 0 else 10 * ParseNat(s[..|s| - 1]) + DigitValue(s[|s| - 1])
  }

  lemma {:induction false} ParseDigits(n: nat)
    ensures ParseNat(Digits(n)) == n
  {
    var ds := Digits(n);
    if n < 10 {
      DigitRoundTrip(n);
    } else {
      assert ds[..|ds| - 1] == Digits(n / 10);
      ParseDigits(n / 10);
      DigitRoundTrip(n % 10);
    }
  }

  /** A leading zero does not change the value of a numeral. */
  lemma ParseLeadingZero(s: string)
    requires AllDigits(s)
    ensures AllDigits("0" + s) && ParseNat("0" + s) == ParseNat(s)
  {
    if s != [] {
      assert ("0" + s)[..|"0" + s| - 1] == "0" + s[..|s| - 1];
      ParseLeadingZero(s[..|s| - 1]);
    }
  }

  /** `f"{n:02}"`: at least two characters, zero-filled after the sign. */
  function Pad2(n: int): (r: string)
    ensures |r| >= 2
    ensures 0 <= n ==> AllDigits(r)
    ensures 0 <= n < 100 ==> |r| == 2
  {
    if n < 0 then "-" + Digits(-n)
    else if n < 10 then "0" + Digits(n)
    else Digits(n)
  }

  lemma {:induction false} ParsePad2(n: nat)
    ensures ParseNat(Pad2(n)) == n
  {
    ParseDigits(n);
    if n < 10 {
      ParseLeadingZero(Digits(n));
    }
  }

  // ---------------------------------------------------------------- join

  /** `sep.join(parts)`. */
  function Join(sep: string, parts: seq<string>): string
  {
    if parts == [] then ""
    else if |parts| == 1 then parts[0]
    else parts[0] + sep + Join(sep, parts[1..])
  }

  /** `s.split(c)` for a one-character separator: the pieces between the
      separators, in order; there is always at least one. */
  function Split(s: string, c: char): (r: seq<string>)
    ensures |r| >= 1
  {
    if s == [] then [[]]
    else
      var rest := Split(s[1..], c);
      if s[0] == c then [[]] + rest else [[s[0]] + rest[0]] + rest[1..]
  }

  /** A piece without the separator, then the separator, splits off first. */
  lemma {:induction false} SplitFirst(a: string, c: char, b: string)
    requires c !in a
    ensures Split(a + [c] + b, c) == [a] + Split(b, c)
  {
    if a == [] {
      assert a + [c] + b == [c] + b;
      assert ([c] + b)[1..] == b;
    } else {
      assert (a + [c] + b)[1..] == a[1..] + [c] + b;
      assert a[0] in a;
      assert forall x :: x in a[1..] ==> x in a;
      SplitFirst(a[1..], c, b);
      assert [a[0]] + a[1..] == a;
    }
  }

  /** A string without the separator is a single piece. */
  lemma {:induction false} SplitNone(a: string, c: char)
    requires c !in a
    ensures Split(a, c) == [a]
  {
    if a != [] {
      assert a[0] in a;
      assert forall x :: x in a[1..] ==> x in a;
      SplitNone(a[1..], c);
      assert [a[0]] + a[1..] == a;
    }
  }

  lemma DigitsHaveNoColon(s: string)
    requires AllDigits(s)
    ensures ':' !in s
  {
    forall c | c in s ensures c != ':' {
      var i :| 0 <= i < |s| && s[i] == c;
    }
  }

  /** Two digit strings joined by `:` split back into the two. */
  lemma SplitFields2(m: string, s: string)
    requires AllDigits(m) && AllDigits(s)
    ensures Split(m + ":" + s, ':') == [m, s]
  {
    DigitsHaveNoColon(m);
    DigitsHaveNoColon(s);
    SplitNone(s, ':');
    assert m + ":" + s == m + [':'] + s;
    SplitFirst(m, ':', s);
  }

  /** Three digit strings joined by `:` split back into the three. */
  lemma SplitFields3(h: string, m: string, s: string)
    requires AllDigits(h) && AllDigits(m) && AllDigits(s)
    ensures Split(h + ":" + m + ":" + s, ':') == [h, m, s]
  {
    DigitsHaveNoColon(h);
    SplitFields2(m, s);
    assert h + ":" + m + ":" + s == h + [':'] + (m + ":" + s);
    SplitFirst(h, ':', m + ":" + s);
  }

  // ---------------------------------------------------------------- paths

  /** Index just past the last `/` of `p`, 0 when there is none. */
  function AfterLastSlash(p: string): (k: nat)
    ensures k <= |p|
    ensures k > 0 ==> p[k - 1] == '/'
    ensures forall i :: k <= i < |p| ==> p[i] != '/'
  {
    if p == [] then 0
    else if p[|p| - 1] == '/' then |p|
    else AfterLastSlash(p[..|p| - 1])
  }

  /** `os.path.basename(p)` on POSIX: the part after the last `/`. */
  function Basename(p: string): (r: string)
    ensures '/' !in r
    ensures EndsWith(p, r)
    ensures |r| < |p| ==> p[|p| - |r| - 1] == '/'
  {
    var k := AfterLastSlash(p);
    assert forall i :: 0 <= i < |p[k..]| ==> p[k..][i] == p[k + i];
    p[k..]
  }

  /** `os.path.join(a, b)` on POSIX: an absolute `b` replaces `a`; otherwise a
      `/` is inserted unless `a` is empty or already ends with one. */
  function PathJoin(a: string, b: string): (r: string)
    ensures StartsWith(b, "/") ==> r == b
    ensures !StartsWith(b, "/") ==> EndsWith(r, b) && StartsWith(r, a)
  {
    if StartsWith(b, "/") then b
    else if a == [] || a[|a| - 1] == '/' then a + b
    else a + "/" + b
  }
}
