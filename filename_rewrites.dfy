/** The five regular-expression substitutions that both transcript tools apply,
    in order, when they turn a title into a file name:

      1. `[^\u0000-\u007F\u0080-\uFFFF]` -> ``  drop characters above U+FFFF
      2. `( *)_( *)`                    -> `\1 \2` each underscore becomes a space
      3. `( *)[:]( *)`                  -> ` - `   a colon and the spaces around it
      4. ` +`                           -> ` `     a run of spaces becomes one
      5. `[^\w\- ]`                     -> ``      drop all but word chars, `-`, space

    Each substitution is stated as the character-level function that
    `re.sub` computes with that pattern (leftmost, greedy, non-overlapping). */
module FilenameRewrites {
  import opened PyText

  datatype Rewrite = DropAstral | UnderscoreToSpace | ColonToDash | CollapseSpaces | DropInvalid

  /** The replacement list, in the order the loop applies it. */
  const Replacements: seq<Rewrite> :=
    [DropAstral, UnderscoreToSpace, ColonToDash, CollapseSpaces, DropInvalid]

  /** Inside the Basic Multilingual Plane (U+0000 to U+FFFF). */
  predicate IsBmp(c: char)
  {
    c as int <= 0xFFFF
  }

  /** What step 5 keeps: `\w`, `-` and the space. */
  predicate IsNameChar(c: char)
  {
    IsWordChar(c) || c == '-' || c == ' '
  }

  /** `re.sub(pattern, "", s)` for a one-character class: keeps exactly the
      characters `keep` accepts, in order. */
  function Filter(s: string, keep: char -> bool): (r: string)
    ensures |r| <= |s|
    ensures forall c :: c in r ==> c in s && keep(c)
    ensures forall c :: c in s && keep(c) ==> c in r
  {
    if s == [] then []
    else if keep(s[0]) then [s[0]] + Filter(s[1..], keep)
    else Filter(s[1..], keep)
  }

  /** Each accepted character is kept as many times as it occurs. */
  lemma {:induction false} FilterCount(s: string, keep: char -> bool, c: char)
    requires keep(c)
    ensures multiset(Filter(s, keep))[c] == multiset(s)[c]
  {
    if s != [] {
      assert s == [s[0]] + s[1..];
      FilterCount(s[1..], keep, c);
    }
  }

  /** Number of leading `' '` characters (the match of ` *`). */
  function SpaceRun(s: string): (k: nat)
    ensures k <= |s|
    ensures forall i :: 0 <= i < k ==> s[i] == ' '
    ensures k == |s| || s[k] != ' '
  {
    if |s| > 0 && s[0] == ' ' then 1 + SpaceRun(s[1..]) else 0
  }

  /** Step 2: every underscore becomes a space; the spaces the pattern
      captures around it are put back unchanged. */
  function UnderscoresToSpaces(s: string): (r: string)
    ensures |r| == |s|
    ensures '_' !in r
    ensures forall i :: 0 <= i < |s| && s[i] != '_' ==> r[i] == s[i]
    ensures forall i :: 0 <= i < |s| && s[i] == '_' ==> r[i] == ' '
  {
    seq(|s|, i requires 0 <= i < |s| => if s[i] == '_' then ' ' else s[i])
  }

  /** Step 3: scanning left to right, a colon together with the run of spaces
      before it and the run after it is replaced by ` - `. */
  function ColonsToDashes(s: string): string
    decreases |s|
  {
    if s == [] then []
    else
      var k := SpaceRun(s);
      if k < |s| && s[k] == ':' then
        var rest := s[k + 1..];
        " - " + ColonsToDashes(rest[SpaceRun(rest)..])
      else
        [s[0]] + ColonsToDashes(s[1..])
  }

  /** A suffix holds only characters of the whole. */
  lemma SuffixChars(s: string, j: nat)
    requires j <= |s|
    ensures forall c :: c in s[j..] ==> c in s
  {
    forall c | c in s[j..] ensures c in s {
      var i :| 0 <= i < |s[j..]| && s[j..][i] == c;
      assert s[j + i] == c;
    }
  }

  /** Step 3 at a colon: it and the spaces around it become ` - `. */
  lemma ColonsAtColon(s: string)
    requires SpaceRun(s) < |s| && s[SpaceRun(s)] == ':'
    ensures var rest := s[SpaceRun(s) + 1..];
            ColonsToDashes(s) == " - " + ColonsToDashes(rest[SpaceRun(rest)..])
  {
  }

  /** Step 3 anywhere else: the first character is kept. */
  lemma ColonsElsewhere(s: string)
    requires s != [] && !(SpaceRun(s) < |s| && s[SpaceRun(s)] == ':')
    ensures ColonsToDashes(s) == [s[0]] + ColonsToDashes(s[1..]) && s[0] != ':'
  {
  }

  /** The characters of ` - ` followed by a text. */
  lemma DashChars(r: string)
    ensures forall c :: c in " - " + r ==> c == ' ' || c == '-' || c in r
  {
  }

  /** The characters of a text with one character in front. */
  lemma ConsChars(c0: char, r: string)
    ensures forall c :: c in [c0] + r ==> c == c0 || c in r
  {
  }

  /** What step 3 makes of `s` has no colon and only characters of `s`,
      spaces and dashes. */
  predicate DashedFrom(r: string, s: string)
  {
    ':' !in r && forall c :: c in r ==> c in s || c == ' ' || c == '-'
  }

  lemma {:induction false} CharsAtColon(s: string)
    requires SpaceRun(s) < |s| && s[SpaceRun(s)] == ':'
    ensures DashedFrom(ColonsToDashes(s), s)
    decreases |s|, 0
  {
    var rest := s[SpaceRun(s) + 1..];
    var next := rest[SpaceRun(rest)..];
    ColonsToDashesChars(next);
    ColonsAtColon(s);
    SuffixChars(s, SpaceRun(s) + 1);
    SuffixChars(rest, SpaceRun(rest));
    DashChars(ColonsToDashes(next));
  }

  lemma {:induction false} CharsElsewhere(s: string)
    requires s != [] && !(SpaceRun(s) < |s| && s[SpaceRun(s)] == ':')
    ensures DashedFrom(ColonsToDashes(s), s)
    decreases |s|, 0
  {
    ColonsToDashesChars(s[1..]);
    ColonsElsewhere(s);
    SuffixChars(s, 1);
    ConsChars(s[0], ColonsToDashes(s[1..]));
    assert s[0] in s;
  }

  /** Step 3 leaves no colon, and adds only spaces and dashes. */
  lemma {:induction false} ColonsToDashesChars(s: string)
    ensures DashedFrom(ColonsToDashes(s), s)
    decreases |s|, 1
  {
    if s != [] {
      if SpaceRun(s) < |s| && s[SpaceRun(s)] == ':' {
        CharsAtColon(s);
      } else {
        CharsElsewhere(s);
      }
    }
  }

  predicate IsNotBlank(c: char)
  {
    c != ' '
  }

  /** Step 4: each maximal run of spaces becomes a single space. */
  function CollapseSpaceRuns(s: string): (r: string)
    ensures forall c :: c in r ==> c in s
    ensures |r| == 0 <==> |s| == 0
    ensures |r| > 0 ==> (r[0] == ' ' <==> s[0] == ' ')
    ensures forall i :: 0 <= i < |r| - 1 ==> !(r[i] == ' ' && r[i + 1] == ' ')
    decreases |s|
  {
    if s == [] then []
    else if s[0] == ' ' then " " + CollapseSpaceRuns(s[SpaceRun(s)..])
    else [s[0]] + CollapseSpaceRuns(s[1..])
  }

  /** Step 4 keeps every character other than a space, in order. */
  lemma {:induction false} CollapseSpaceRunsKeepsOthers(s: string)
    ensures Filter(CollapseSpaceRuns(s), IsNotBlank) == Filter(s, IsNotBlank)
    decreases |s|
  {
    if s != [] {
      if s[0] == ' ' {
        var k := SpaceRun(s);
        FilterDropsPrefix(s, k, IsNotBlank);
        CollapseSpaceRunsKeepsOthers(s[k..]);
        assert (" " + CollapseSpaceRuns(s[k..]))[1..] == CollapseSpaceRuns(s[k..]);
      } else {
        CollapseSpaceRunsKeepsOthers(s[1..]);
        assert ([s[0]] + CollapseSpaceRuns(s[1..]))[1..] == CollapseSpaceRuns(s[1..]);
      }
    }
  }

  /** Where the text is cut next to a character other than a space, step 4
      works on the two sides apart. */
  lemma {:induction false} CollapseSpaceRunsAppend(x: string, y: string)
    requires x == [] || y == [] || x[|x| - 1] != ' ' || y[0] != ' '
    ensures CollapseSpaceRuns(x + y) == CollapseSpaceRuns(x) + CollapseSpaceRuns(y)
    decreases |x|
  {
    if x == [] {
      assert x + y == y;
    } else if y == [] {
      assert x + y == x;
    } else if x[0] != ' ' {
      ConsSplit(x, y);
      CollapseSpaceRunsAppend(x[1..], y);
    } else {
      var k := SpaceRun(x);
      if k == |x| {
        assert x[|x| - 1] == ' ';
        SpaceRunAppend(x, y);
        assert (x + y)[k..] == y;
        assert x[k..] == [];
      } else {
        SpaceRunAppend(x, y);
        assert (x + y)[k..] == x[k..] + y;
        CollapseSpaceRunsAppend(x[k..], y);
      }
    }
  }

  /** The leading run of spaces ends inside `x` or where `y` starts with
      another character. */
  lemma {:induction false} SpaceRunAppend(x: string, y: string)
    requires SpaceRun(x) < |x| || y == [] || y[0] != ' '
    ensures SpaceRun(x + y) == SpaceRun(x)
  {
    if x == [] {
      assert x + y == y;
    } else if x[0] == ' ' {
      assert (x + y)[1..] == x[1..] + y;
      SpaceRunAppend(x[1..], y);
    }
  }

  lemma {:induction false} AllSpacesRun(w: string)
    requires forall c :: c in w ==> c == ' '
    ensures SpaceRun(w) == |w|
  {
    if w != [] {
      assert w[0] in w;
      assert forall c :: c in w[1..] ==> c in w;
      AllSpacesRun(w[1..]);
    }
  }

  /** A run of spaces between two other characters becomes one space. */
  lemma CollapseSpaceRunsRun(x: string, w: string, y: string)
    requires x == [] || x[|x| - 1] != ' '
    requires w != [] && forall c :: c in w ==> c == ' '
    requires y == [] || y[0] != ' '
    ensures CollapseSpaceRuns(x + w + y) == CollapseSpaceRuns(x) + " " + CollapseSpaceRuns(y)
  {
    CollapseSpaceRunsAppend(x, w + y);
    CollapseSpaceRunsAppend(w, y);
    AllSpacesRun(w);
    assert w[|w|..] == [];
    assert x + w + y == x + (w + y);
    ConcatAssoc(CollapseSpaceRuns(x), " ", CollapseSpaceRuns(y));
  }

  function Apply(rw: Rewrite, s: string): string
  {
    match rw
    case DropAstral => Filter(s, IsBmp)
    case UnderscoreToSpace => UnderscoresToSpaces(s)
    case ColonToDash => ColonsToDashes(s)
    case CollapseSpaces => CollapseSpaceRuns(s)
    case DropInvalid => Filter(s, IsNameChar)
  }

  /** The rewrites applied one after another, first to last. */
  function ApplyAll(rws: seq<Rewrite>, s: string): string
  {
    if rws == [] then s else Apply(rws[|rws| - 1], ApplyAll(rws[..|rws| - 1], s))
  }

  /** The whole replacement list, written out as one composition. */
  lemma ReplacementsUnfold(s: string)
    ensures ApplyAll(Replacements, s)
         == Filter(CollapseSpaceRuns(ColonsToDashes(UnderscoresToSpaces(
              Filter(s, IsBmp)))), IsNameChar)
  {
    var r := Replacements;
    assert r[..1][..0] == [];
    ApplyAllStep(r, 1, s);
    ApplyAllStep(r, 2, s);
    ApplyAllStep(r, 3, s);
    ApplyAllStep(r, 4, s);
    ApplyAllStep(r, 5, s);
    assert r[..5] == r;
  }

  /** Applying the first `k` rewrites is applying the `k`-th to the result
      of the first `k - 1`. */
  lemma ApplyAllStep(rws: seq<Rewrite>, k: nat, s: string)
    requires 0 < k <= |rws|
    ensures ApplyAll(rws[..k], s) == Apply(rws[k - 1], ApplyAll(rws[..k - 1], s))
  {
    assert rws[..k][..k - 1] == rws[..k - 1];
  }

  /** After the five rewrites only word characters, `-` and spaces remain; no
      underscore survives (step 2 removed them and no later step makes one),
      and no colon. */
  lemma {:induction false} RewrittenChars(s: string)
    ensures forall c :: c in ApplyAll(Replacements, s) ==> IsNameChar(c) && c != '_'
    ensures ':' !in ApplyAll(Replacements, s)
  {
    ReplacementsUnfold(s);
    var u := UnderscoresToSpaces(Filter(s, IsBmp));
    ColonsToDashesChars(u);
    var v := CollapseSpaceRuns(ColonsToDashes(u));
    assert '_' !in v;
  }

  /** Filtering distributes over concatenation. */
  lemma {:induction false} FilterAppend(x: string, y: string, keep: char -> bool)
    ensures Filter(x + y, keep) == Filter(x, keep) + Filter(y, keep)
  {
    if x == [] {
      assert x + y == y;
    } else {
      assert (x + y)[1..] == x[1..] + y;
      FilterAppend(x[1..], y, keep);
    }
  }

  /** A rejected last character leaves nothing behind. */
  lemma FilterDropsLast(x: string, c: char, keep: char -> bool)
    requires !keep(c)
    ensures Filter(x + [c], keep) == Filter(x, keep)
  {
    FilterAppend(x, [c], keep);
    assert [c][1..] == [];
    assert Filter(x, keep) + [] == Filter(x, keep);
  }

  /** Rejected leading characters leave nothing behind. */
  lemma {:induction false} FilterDropsPrefix(s: string, k: nat, keep: char -> bool)
    requires k <= |s|
    requires forall i :: 0 <= i < k ==> !keep(s[i])
    ensures Filter(s, keep) == Filter(s[k..], keep)
  {
    if k > 0 {
      assert s[1..][k - 1..] == s[k..];
      FilterDropsPrefix(s[1..], k - 1, keep);
    }
  }

  /** Filtering twice keeps what both filters accept. */
  lemma {:induction false} FilterFilter(s: string, p: char -> bool, q: char -> bool, pq: char -> bool)
    requires forall c :: pq(c) == (p(c) && q(c))
    ensures Filter(Filter(s, p), q) == Filter(s, pq)
  {
    if s != [] {
      FilterFilter(s[1..], p, q, pq);
      if p(s[0]) {
        assert ([s[0]] + Filter(s[1..], p))[1..] == Filter(s[1..], p);
      }
    }
  }

  /** A string whose characters all pass the filter is left as it is. */
  lemma {:induction false} FilterKeepsAll(s: string, keep: char -> bool)
    requires forall c :: c in s ==> keep(c)
    ensures Filter(s, keep) == s
  {
    if s != [] {
      assert s[0] in s;
      assert forall c :: c in s[1..] ==> c in s;
      FilterKeepsAll(s[1..], keep);
    }
  }

  lemma UnderscoreFree(s: string)
    requires '_' !in s
    ensures UnderscoresToSpaces(s) == s
  {
  }

  /** Without a colon, step 3 changes nothing. */
  lemma {:induction false} ColonFree(s: string)
    requires ':' !in s
    ensures ColonsToDashes(s) == s
  {
    if s != [] {
      var k := SpaceRun(s);
      if k < |s| {
        assert s[k] in s;
      }
      assert forall c :: c in s[1..] ==> c in s;
      ColonFree(s[1..]);
    }
  }

  /** A first character that is neither a space nor a colon is kept by
      step 3. */
  lemma ColonsKeepFirst(c: char, t: string)
    requires c != ' ' && c != ':'
    ensures ColonsToDashes([c] + t) == [c] + ColonsToDashes(t)
  {
    assert SpaceRun([c] + t) == 0;
    assert ([c] + t)[1..] == t;
  }

  /** Taking the first character off a concatenation. */
  lemma ConsSplit<A>(x: seq<A>, y: seq<A>)
    requires x != []
    ensures x + y == [x[0]] + (x[1..] + y)
    ensures [x[0]] + (x[1..] + y) == x + y
  {
    assert x == [x[0]] + x[1..];
  }

  /** A prefix with neither spaces nor colons passes through step 3. */
  lemma {:induction false} ColonsAfterPlain(x: string, y: string)
    requires ' ' !in x && ':' !in x
    ensures ColonsToDashes(x + y) == x + ColonsToDashes(y)
  {
    if x == [] {
      assert x + y == y;
    } else {
      assert x[0] in x;
      assert forall c :: c in x[1..] ==> c in x;
      ConsSplit(x, y);
      ColonsKeepFirst(x[0], x[1..] + y);
      ColonsAfterPlain(x[1..], y);
      ConsSplit(x, ColonsToDashes(y));
    }
  }

  /** One space before a text that does not start with one. */
  lemma SpaceThen(y: string)
    requires y == [] || y[0] != ' '
    ensures SpaceRun(" " + y) == 1 && (" " + y)[1..] == y
  {
    assert (" " + y)[1..] == y;
  }

  /** A text starting with a colon: the colon and the spaces after it
      become ` - `. */
  lemma ColonFirst(t: string)
    ensures ColonsToDashes([':'] + t) == " - " + ColonsToDashes(t[SpaceRun(t)..])
  {
    assert ([':'] + t)[1..] == t;
  }

  /** A colon with one space after it becomes ` - `. */
  lemma ColonAtFront(y: string)
    requires y == [] || y[0] != ' '
    ensures ColonsToDashes(": " + y) == " - " + ColonsToDashes(y)
  {
    ColonSpaceSplit(y);
    ColonFirst(" " + y);
    SpaceThen(y);
  }

  lemma ColonSpaceSplit(y: string)
    ensures ": " + y == [':'] + (" " + y)
  {
  }

  /** `x: y` becomes `x - y` when neither side has a colon, `x` has no space
      and `y` does not start with one. */
  lemma ColonBetween(x: string, y: string)
    requires ' ' !in x && ':' !in x && ':' !in y && (y == [] || y[0] != ' ')
    ensures ColonsToDashes(x + (": " + y)) == x + (" - " + y)
  {
    ColonsAfterPlain(x, ": " + y);
    ColonAtFront(y);
    ColonFree(y);
  }

  /** A prefix without spaces passes through step 4. */
  lemma {:induction false} CollapseAfterPlain(x: string, y: string)
    requires ' ' !in x
    ensures CollapseSpaceRuns(x + y) == x + CollapseSpaceRuns(y)
  {
    if x == [] {
      assert x + y == y;
    } else {
      assert x == [x[0]] + x[1..] && x[0] in x;
      assert (x + y)[1..] == x[1..] + y;
      assert forall c :: c in x[1..] ==> c in x;
      CollapseAfterPlain(x[1..], y);
    }
  }

  /** Without two adjacent spaces, step 4 changes nothing. */
  lemma {:induction false} CollapseWithoutRuns(s: string)
    requires forall i :: 0 <= i < |s| - 1 ==> !(s[i] == ' ' && s[i + 1] == ' ')
    ensures CollapseSpaceRuns(s) == s
  {
    if s != [] {
      if s[0] == ' ' {
        assert SpaceRun(s) == 1 by {
          if |s| > 1 { assert s[1] != ' '; }
        }
      }
      forall i | 0 <= i < |s[1..]| - 1
        ensures !(s[1..][i] == ' ' && s[1..][i + 1] == ' ')
      {
        assert s[1..][i] == s[i + 1] && s[1..][i + 1] == s[i + 2];
      }
      CollapseWithoutRuns(s[1..]);
    }
  }

  /** The loop of both `_sanitize_filename`s: `sanitized` is reassigned once
      per entry of the replacement list. */
  method RunReplacements(text: string) returns (sanitized: string)
    ensures sanitized == ApplyAll(Replacements, text)
    ensures forall c :: c in sanitized ==> IsNameChar(c) && c != '_'
  {
    sanitized := text;
    for i := 0 to |Replacements|
      invariant sanitized == ApplyAll(Replacements[..i], text)
    {
      assert Replacements[..i + 1][..i] == Replacements[..i];
      sanitized := Apply(Replacements[i], sanitized);
    }
    assert Replacements[..|Replacements|] == Replacements;
    RewrittenChars(text);
  }

  /** A string after the five rewrites and `strip()`: what both
      `_sanitize_filename`s compute for a string before any truncation. */
  function CleanName(s: string): (r: string)
    ensures forall c :: c in r ==> IsNameChar(c) && c != '_'
    ensures ':' !in r
    ensures r == [] || (!IsSpace(r[0]) && !IsSpace(r[|r| - 1]))
  {
    RewrittenChars(s);
    Strip(ApplyAll(Replacements, s))
  }

  /** On a string of BMP characters without underscores, the first two
      steps change nothing and the name is the last three steps, stripped. */
  lemma BmpPlainSteps(s: string)
    requires forall c :: c in s ==> IsBmp(c) && c != '_'
    ensures CleanName(s) == Strip(Filter(CollapseSpaceRuns(ColonsToDashes(s)), IsNameChar))
  {
    ReplacementsUnfold(s);
    FilterKeepsAll(s, IsBmp);
    UnderscoreFree(s);
  }
}
