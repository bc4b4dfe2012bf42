/**
 * The pure text functions of the ingest worker (Lambda_function.py):
 * `clean_text`, `chunk_text` and `extract_skills` with its fixed vocabulary.
 */
module TextPipeline {
  import opened Wrappers
  import opened Strings

  /**
   * Python's notion of whitespace: the characters for which `str.isspace()` holds,
   * which is also the class `\s` matches in a `str` regular expression and the set
   * `str.strip()` removes.
   */
  predicate IsSpace(c: char)
  {
    || ('\U{9}' <= c <= '\U{d}')
    || ('\U{1c}' <= c <= '\U{20}')
    || c == '\U{85}' || c == '\U{a0}' || c == '\U{1680}'
    || ('\U{2000}' <= c <= '\U{200a}')
    || c == '\U{2028}' || c == '\U{2029}' || c == '\U{202f}' || c == '\U{205f}' || c == '\U{3000}'
  }

  /**
   * Among the ASCII characters, the whitespace is the tab, line feed, vertical
   * tab, form feed and carriage return, the four separators 0x1c-0x1f and the
   * space; the other whitespace characters are non-ASCII.
   */
  lemma AsciiWhitespace(c: char)
    ensures IsSpace(c) && IsAscii(c) <==> c in "\t\n\U{b}\U{c}\r\U{1c}\U{1d}\U{1e}\U{1f} "
  {
  }

  /** The class `[\x00-\x7F]`. */
  predicate IsAscii(c: char)
  {
    c as int < 128
  }

  // ---------------------------------------------------------------------------
  // clean_text
  // ---------------------------------------------------------------------------

  /**
   * `re.sub(r'\s+', ' ', s)`: every maximal run of whitespace becomes one space.
   * `inRun` says that the character before `s` was whitespace, so its run's
   * space has already been written.
   */
  function CollapseFrom(s: string, inRun: bool): (r: string)
    ensures |r| <= |s|
    ensures forall i :: 0 <= i < |r| ==> IsSpace(r[i]) ==> r[i] == ' '
    ensures NoAdjacentSpaces(r)
    ensures inRun ==> r == [] || !IsSpace(r[0])
  {
    if s == [] then []
    else if IsSpace(s[0]) then
      (if inRun then [] else " ") + CollapseFrom(s[1..], true)
    else
      [s[0]] + CollapseFrom(s[1..], false)
  }

  /** No two whitespace characters stand next to each other. */
  predicate NoAdjacentSpaces(s: string)
  {
    forall i :: 0 <= i < |s| - 1 ==> !(IsSpace(s[i]) && IsSpace(s[i + 1]))
  }

  function CollapseWhitespace(s: string): string
  {
    CollapseFrom(s, false)
  }

  /**
   * `re.sub(r'[^\x00-\x7F]+', ' ', s)`: every maximal run of non-ASCII characters
   * becomes one space; `inRun` as for CollapseFrom.
   */
  function ReplaceNonAsciiFrom(s: string, inRun: bool): (r: string)
    ensures |r| <= |s|
    ensures forall i :: 0 <= i < |r| ==> IsAscii(r[i])
    ensures (forall i :: 0 <= i < |s| ==> IsSpace(s[i]) ==> s[i] == ' ') ==>
            (forall i :: 0 <= i < |r| ==> IsSpace(r[i]) ==> r[i] == ' ')
  {
    if s == [] then []
    else if !IsAscii(s[0]) then
      (if inRun then [] else " ") + ReplaceNonAsciiFrom(s[1..], true)
    else
      [s[0]] + ReplaceNonAsciiFrom(s[1..], false)
  }

  function ReplaceNonAscii(s: string): string
  {
    ReplaceNonAsciiFrom(s, false)
  }

  /** The class `[^\x00-\x7F]`. */
  predicate IsNonAscii(c: char)
  {
    !IsAscii(c)
  }

  /** `s` with its leading run of class-`P` characters removed. */
  function SkipRun(s: string, P: char -> bool): (r: string)
    ensures |r| <= |s|
    ensures r == [] || !P(r[0])
  {
    if s != [] && P(s[0]) then SkipRun(s[1..], P) else s
  }

  /**
   * `re.split(p, cur + s)` for the pattern `p` = one or more class-`P`
   * characters, where `cur` holds the characters of the current segment read
   * just before `s`: the segments between maximal runs, with the empty
   * segments at either end kept. It is the reference for the substitutions,
   * through the identity `re.sub(p, ' ', s) == ' '.join(re.split(p, s))`.
   */
  function SplitFrom(s: string, P: char -> bool, cur: string): (r: seq<string>)
    ensures |r| >= 1
    decreases |s|
  {
    if s == [] then [cur]
    else if P(s[0]) then [cur] + SplitFrom(SkipRun(s[1..], P), P, [])
    else SplitFrom(s[1..], P, cur + [s[0]])
  }

  /**
   * The segments hold no class-`P` character, and only the first and the last
   * can be empty: the runs between them are maximal.
   */
  lemma {:induction false} SplitFromSegments(s: string, P: char -> bool, cur: string)
    requires forall c :: c in cur ==> !P(c)
    ensures var r := SplitFrom(s, P, cur);
      && (forall i :: 0 <= i < |r| ==> forall c :: c in r[i] ==> !P(c))
      && (forall i :: 0 < i < |r| - 1 ==> r[i] != [])
      && (cur != [] || (s != [] && !P(s[0])) ==> r[0] != [])
    decreases |s|
  {
    if s == [] {
    } else if P(s[0]) {
      var t := SkipRun(s[1..], P);
      SplitFromSegments(t, P, []);
      var rest := SplitFrom(t, P, []);
      assert SplitFrom(s, P, cur) == [cur] + rest;
      assert t == [] ==> rest == [[]];
    } else {
      assert forall c :: c in cur + [s[0]] ==> !P(c);
      SplitFromSegments(s[1..], P, cur + [s[0]]);
    }
  }

  /**
   * `re.split(p, s)`, `p` as for SplitFrom: at least one segment, none holding
   * a class-`P` character, and only the first and the last possibly empty.
   */
  function SplitRuns(s: string, P: char -> bool): (r: seq<string>)
    ensures |r| >= 1
    ensures forall i :: 0 <= i < |r| ==> forall c :: c in r[i] ==> !P(c)
    ensures forall i :: 0 < i < |r| - 1 ==> r[i] != []
  {
    SplitFromSegments(s, P, []);
    SplitFrom(s, P, [])
  }

  /** `s` with every class-`P` character removed, order kept. */
  function Without(s: string, P: char -> bool): (r: string)
    ensures |r| <= |s|
  {
    if s == [] then [] else (if P(s[0]) then [] else [s[0]]) + Without(s[1..], P)
  }

  /**
   * The number of maximal runs of class-`P` characters in `s`, counted at their
   * first character: one that is in the class while its predecessor is not
   * (`prev` says whether the character before `s` was in the class).
   */
  function RunsFrom(s: string, P: char -> bool, prev: bool): nat
  {
    if s == [] then 0
    else (if P(s[0]) && !prev then 1 else 0) + RunsFrom(s[1..], P, P(s[0]))
  }

  /** Skipping a run removes only class characters and no run start. */
  lemma {:induction false} SkipRunKeepsText(s: string, P: char -> bool)
    ensures Without(SkipRun(s, P), P) == Without(s, P)
    ensures RunsFrom(SkipRun(s, P), P, false) == RunsFrom(s, P, true)
    decreases |s|
  {
    if s != [] && P(s[0]) {
      SkipRunKeepsText(s[1..], P);
    }
  }

  /** `SplitFrom` keeps every character outside the class and starts a segment per run. */
  lemma {:induction false} SplitFromText(s: string, P: char -> bool, cur: string)
    ensures Flatten(SplitFrom(s, P, cur)) == cur + Without(s, P)
    ensures |SplitFrom(s, P, cur)| == 1 + RunsFrom(s, P, false)
    decreases |s|
  {
    if s == [] {
      assert Flatten([cur]) == cur + Flatten([]);
    } else if P(s[0]) {
      var t := SkipRun(s[1..], P);
      var rest := SplitFrom(t, P, []);
      SplitFromText(t, P, []);
      SkipRunKeepsText(s[1..], P);
      assert SplitFrom(s, P, cur) == [cur] + rest;
      assert ([cur] + rest)[1..] == rest;
      assert Without(s, P) == Without(s[1..], P);
      assert [] + Without(t, P) == Without(t, P);
    } else {
      var w := Without(s[1..], P);
      SplitFromText(s[1..], P, cur + [s[0]]);
      assert Without(s, P) == [s[0]] + w;
      assert (cur + [s[0]]) + w == cur + ([s[0]] + w);
    }
  }

  /**
   * The segments of `re.split(p, s)` are the text between the runs: together
   * they are `s` without its class-`P` characters, and there is one more
   * segment than there are maximal runs.
   */
  lemma SplitRunsText(s: string, P: char -> bool)
    ensures Flatten(SplitRuns(s, P)) == Without(s, P)
    ensures |SplitRuns(s, P)| == RunsFrom(s, P, false) + 1
  {
    SplitFromText(s, P, []);
    assert [] + Without(s, P) == Without(s, P);
  }

  /** Inside a whitespace run, collapsing goes on from where the run ends. */
  lemma {:induction false} CollapseInRun(s: string)
    ensures CollapseFrom(s, true) == CollapseFrom(SkipRun(s, IsSpace), false)
    decreases |s|
  {
    if s != [] && IsSpace(s[0]) {
      CollapseInRun(s[1..]);
    }
  }

  /** At a run, the segment read so far ends and the next one starts after the run. */
  lemma SplitAtRun(s: string, P: char -> bool, cur: string)
    requires s != [] && P(s[0])
    ensures Join(" ", SplitFrom(s, P, cur)) == cur + " " + Join(" ", SplitFrom(SkipRun(s[1..], P), P, []))
  {
    var rest := SplitFrom(SkipRun(s[1..], P), P, []);
    assert SplitFrom(s, P, cur) == [cur] + rest;
    assert ([cur] + rest)[1..] == rest;
  }

  /** The string step shared by both substitutions at a run. */
  lemma ConcatAtRun(cur: string, a: string, x: string, y: string, j: string)
    requires a == " " + x && [] + x == y && j == cur + " " + y
    ensures cur + a == j
  {
    assert [] + x == x;
    assert cur + (" " + x) == cur + " " + x;
  }

  /** A character outside the class joins the segment being read. */
  lemma SplitPastChar(s: string, P: char -> bool, cur: string)
    requires s != [] && !P(s[0])
    ensures SplitFrom(s, P, cur) == SplitFrom(s[1..], P, cur + [s[0]])
  {
  }

  /** Collapsing after `cur` joins the `re.split` segments with one space each. */
  lemma {:induction false} CollapseJoinsSegments(s: string, cur: string)
    ensures cur + CollapseFrom(s, false) == Join(" ", SplitFrom(s, IsSpace, cur))
    decreases |s|, 1
  {
    if s != [] {
      if IsSpace(s[0]) { CollapseJoinsAtRun(s, cur); } else { CollapseJoinsPastChar(s, cur); }
    }
  }

  lemma {:induction false} CollapseJoinsAtRun(s: string, cur: string)
    requires s != [] && IsSpace(s[0])
    ensures cur + CollapseFrom(s, false) == Join(" ", SplitFrom(s, IsSpace, cur))
    decreases |s|, 0
  {
    var t := SkipRun(s[1..], IsSpace);
    CollapseStepAtRun(s);
    CollapseJoinsSegments(t, []);
    SplitAtRun(s, IsSpace, cur);
    ConcatAtRun(cur, CollapseFrom(s, false), CollapseFrom(t, false),
      Join(" ", SplitFrom(t, IsSpace, [])), Join(" ", SplitFrom(s, IsSpace, cur)));
  }

  lemma CollapseStepAtRun(s: string)
    requires s != [] && IsSpace(s[0])
    ensures CollapseFrom(s, false) == " " + CollapseFrom(SkipRun(s[1..], IsSpace), false)
  {
    CollapseInRun(s[1..]);
  }

  lemma {:induction false} CollapseJoinsPastChar(s: string, cur: string)
    requires s != [] && !IsSpace(s[0])
    ensures cur + CollapseFrom(s, false) == Join(" ", SplitFrom(s, IsSpace, cur))
    decreases |s|, 0
  {
    var r := CollapseFrom(s[1..], false);
    assert CollapseFrom(s, false) == [s[0]] + r;
    SplitPastChar(s, IsSpace, cur);
    CollapseJoinsSegments(s[1..], cur + [s[0]]);
    assert cur + ([s[0]] + r) == (cur + [s[0]]) + r;
  }

  /**
   * `re.sub(r'\s+', ' ', s)` is `' '.join(re.split(r'\s+', s))`: every maximal
   * whitespace run becomes exactly one space and nothing else changes.
   */
  lemma CollapseIsSplitJoin(s: string)
    ensures CollapseWhitespace(s) == Join(" ", SplitRuns(s, IsSpace))
  {
    CollapseJoinsSegments(s, []);
    assert [] + CollapseFrom(s, false) == CollapseFrom(s, false);
  }

  /** Inside a non-ASCII run, replacing goes on from where the run ends. */
  lemma {:induction false} ReplaceInRun(s: string)
    ensures ReplaceNonAsciiFrom(s, true) == ReplaceNonAsciiFrom(SkipRun(s, IsNonAscii), false)
    decreases |s|
  {
    if s != [] && IsNonAscii(s[0]) {
      ReplaceInRun(s[1..]);
    }
  }

  /** Replacing after `cur` joins the `re.split` segments with one space each. */
  lemma {:induction false} ReplaceJoinsSegments(s: string, cur: string)
    ensures cur + ReplaceNonAsciiFrom(s, false) == Join(" ", SplitFrom(s, IsNonAscii, cur))
    decreases |s|, 1
  {
    if s != [] {
      if IsNonAscii(s[0]) { ReplaceJoinsAtRun(s, cur); } else { ReplaceJoinsPastChar(s, cur); }
    }
  }

  lemma {:induction false} ReplaceJoinsAtRun(s: string, cur: string)
    requires s != [] && IsNonAscii(s[0])
    ensures cur + ReplaceNonAsciiFrom(s, false) == Join(" ", SplitFrom(s, IsNonAscii, cur))
    decreases |s|, 0
  {
    var t := SkipRun(s[1..], IsNonAscii);
    ReplaceStepAtRun(s);
    ReplaceJoinsSegments(t, []);
    SplitAtRun(s, IsNonAscii, cur);
    ConcatAtRun(cur, ReplaceNonAsciiFrom(s, false), ReplaceNonAsciiFrom(t, false),
      Join(" ", SplitFrom(t, IsNonAscii, [])), Join(" ", SplitFrom(s, IsNonAscii, cur)));
  }

  lemma ReplaceStepAtRun(s: string)
    requires s != [] && IsNonAscii(s[0])
    ensures ReplaceNonAsciiFrom(s, false) == " " + ReplaceNonAsciiFrom(SkipRun(s[1..], IsNonAscii), false)
  {
    ReplaceInRun(s[1..]);
  }

  lemma {:induction false} ReplaceJoinsPastChar(s: string, cur: string)
    requires s != [] && !IsNonAscii(s[0])
    ensures cur + ReplaceNonAsciiFrom(s, false) == Join(" ", SplitFrom(s, IsNonAscii, cur))
    decreases |s|, 0
  {
    var r := ReplaceNonAsciiFrom(s[1..], false);
    assert ReplaceNonAsciiFrom(s, false) == [s[0]] + r;
    SplitPastChar(s, IsNonAscii, cur);
    ReplaceJoinsSegments(s[1..], cur + [s[0]]);
    assert cur + ([s[0]] + r) == (cur + [s[0]]) + r;
  }

  /**
   * `re.sub(r'[^\x00-\x7F]+', ' ', s)` is `' '.join(re.split(r'[^\x00-\x7F]+', s))`:
   * every maximal non-ASCII run becomes exactly one space and nothing else changes.
   */
  lemma ReplaceNonAsciiIsSplitJoin(s: string)
    ensures ReplaceNonAscii(s) == Join(" ", SplitRuns(s, IsNonAscii))
  {
    ReplaceJoinsSegments(s, []);
    assert [] + ReplaceNonAsciiFrom(s, false) == ReplaceNonAsciiFrom(s, false);
  }

  /** Leading whitespace removed: a suffix of `s` that starts with a non-space. */
  function TrimStart(s: string): (r: string)
    ensures |r| <= |s| && r == s[|s| - |r|..]
    ensures forall i :: 0 <= i < |s| - |r| ==> IsSpace(s[i])
    ensures r == [] || !IsSpace(r[0])
  {
    if s != [] && IsSpace(s[0]) then
      var r := TrimStart(s[1..]);
      assert s[1..][|s| - 1 - |r|..] == s[|s| - |r|..];
      assert forall i :: 1 <= i < |s| ==> s[1..][i - 1] == s[i];
      r
    else s
  }

  /** Trailing whitespace removed: a prefix of `s` that ends with a non-space. */
  function TrimEnd(s: string): (r: string)
    ensures |r| <= |s| && r == s[..|r|]
    ensures forall i :: |r| <= i < |s| ==> IsSpace(s[i])
    ensures r == [] || !IsSpace(r[|r| - 1])
  {
    if s != [] && IsSpace(s[|s| - 1]) then
      var r := TrimEnd(s[..|s| - 1]);
      assert s[..|s| - 1][..|r|] == s[..|r|];
      assert forall i :: 0 <= i < |s| - 1 ==> s[..|s| - 1][i] == s[i];
      r
    else s
  }

  /**
   * `r` is the slice of `s` starting at `k`, and everything of `s` outside that
   * slice is whitespace.
   */
  ghost predicate StrippedAt(s: string, r: string, k: int)
  {
    && 0 <= k <= |s| - |r|
    && (forall j :: 0 <= j < |r| ==> r[j] == s[k + j])
    && (forall i :: 0 <= i < k ==> IsSpace(s[i]))
    && (forall i :: k + |r| <= i < |s| ==> IsSpace(s[i]))
  }

  /** `s.strip()`: the slice of `s` left once whitespace is removed at both ends. */
  function Strip(s: string): (r: string)
    ensures |r| <= |s| && exists k :: StrippedAt(s, r, k)
    ensures r == [] || (!IsSpace(r[0]) && !IsSpace(r[|r| - 1]))
  {
    var t := TrimStart(s);
    var r := TrimEnd(t);
    SliceOfSlice(s, t, r);
    r
  }

  /** Whitespace trimmed from the end of the suffix left by trimming the start. */
  lemma SliceOfSlice(s: string, t: string, r: string)
    requires |t| <= |s| && t == s[|s| - |t|..]
    requires forall i :: 0 <= i < |s| - |t| ==> IsSpace(s[i])
    requires |r| <= |t| && r == t[..|r|]
    requires forall i :: |r| <= i < |t| ==> IsSpace(t[i])
    ensures StrippedAt(s, r, |s| - |t|)
    ensures exists k :: StrippedAt(s, r, k)
  {
    var k := |s| - |t|;
    forall j | 0 <= j < |r| ensures r[j] == s[k + j] {
      assert r[j] == t[j];
    }
    forall i | k + |r| <= i < |s| ensures IsSpace(s[i]) {
      assert t[i - k] == s[i];
    }
    assert StrippedAt(s, r, k);
  }

  /** `clean_text`: collapse whitespace, then replace non-ASCII runs, then strip. */
  function CleanText(s: string): (r: string)
    ensures forall i :: 0 <= i < |r| ==> IsAscii(r[i])
    ensures forall i :: 0 <= i < |r| ==> IsSpace(r[i]) ==> r[i] == ' '
    ensures r == [] || (r[0] != ' ' && r[|r| - 1] != ' ')
    ensures |r| <= |s|
    ensures s == [] ==> r == []
  {
    CleanedChars(s);
    assert IsSpace(' ');
    Strip(ReplaceNonAscii(CollapseWhitespace(s)))
  }

  lemma CleanedChars(s: string)
    ensures var r := Strip(ReplaceNonAscii(CollapseWhitespace(s)));
      forall i :: 0 <= i < |r| ==> IsAscii(r[i]) && (IsSpace(r[i]) ==> r[i] == ' ')
  {
    var r := Strip(ReplaceNonAscii(CollapseWhitespace(s)));
    var k :| StrippedAt(ReplaceNonAscii(CollapseWhitespace(s)), r, k);
  }

  /** The characters that carry content: ASCII and not whitespace, in order. */
  function Content(s: string): string
  {
    if s == [] then []
    else (if IsAscii(s[0]) && !IsSpace(s[0]) then [s[0]] else []) + Content(s[1..])
  }

  lemma {:induction false} ContentAppend(a: string, b: string)
    ensures Content(a + b) == Content(a) + Content(b)
  {
    if a != [] {
      assert (a + b)[1..] == a[1..] + b;
      ContentAppend(a[1..], b);
    } else {
      assert a + b == b;
    }
  }

  lemma {:induction false} CollapseKeepsContent(s: string, inRun: bool)
    ensures Content(CollapseFrom(s, inRun)) == Content(s)
  {
    if s != [] {
      var head := if IsSpace(s[0]) then (if inRun then [] else " ") else [s[0]];
      CollapseKeepsContent(s[1..], IsSpace(s[0]));
      ContentAppend(head, CollapseFrom(s[1..], IsSpace(s[0])));
    }
  }

  lemma {:induction false} ReplaceNonAsciiKeepsContent(s: string, inRun: bool)
    ensures Content(ReplaceNonAsciiFrom(s, inRun)) == Content(s)
  {
    if s != [] {
      var head := if !IsAscii(s[0]) then (if inRun then [] else " ") else [s[0]];
      ReplaceNonAsciiKeepsContent(s[1..], !IsAscii(s[0]));
      ContentAppend(head, ReplaceNonAsciiFrom(s[1..], !IsAscii(s[0])));
    }
  }

  lemma {:induction false} TrimStartKeepsContent(s: string)
    ensures Content(TrimStart(s)) == Content(s)
  {
    if s != [] && IsSpace(s[0]) {
      TrimStartKeepsContent(s[1..]);
    }
  }

  lemma {:induction false} TrimEndKeepsContent(s: string)
    ensures Content(TrimEnd(s)) == Content(s)
  {
    if s != [] && IsSpace(s[|s| - 1]) {
      var init := s[..|s| - 1];
      TrimEndKeepsContent(init);
      assert s == init + [s[|s| - 1]];
      ContentAppend(init, [s[|s| - 1]]);
    }
  }

  /**
   * What `clean_text` keeps: exactly the ASCII non-whitespace characters of the
   * input, in their order; only spaces are inserted or removed.
   */
  lemma CleanTextKeepsContent(s: string)
    ensures Content(CleanText(s)) == Content(s)
  {
    CollapseKeepsContent(s, false);
    ReplaceNonAsciiKeepsContent(CollapseWhitespace(s), false);
    TrimStartKeepsContent(ReplaceNonAscii(CollapseWhitespace(s)));
    TrimEndKeepsContent(TrimStart(ReplaceNonAscii(CollapseWhitespace(s))));
  }

  // ---------------------------------------------------------------------------
  // Words: what `clean_text` keeps apart
  // ---------------------------------------------------------------------------

  /** A character a word is made of: ASCII and not whitespace. */
  predicate IsWordChar(c: char)
  {
    IsAscii(c) && !IsSpace(c)
  }

  /** The word read so far, if there is one. */
  function Flush(cur: string): seq<string>
  {
    if cur == [] then [] else [cur]
  }

  /**
   * The maximal runs of word characters of `cur + s`, where `cur` holds the
   * word characters read just before `s`. Any other character separates words.
   */
  function WordsFrom(s: string, cur: string): (r: seq<string>)
    ensures cur != [] ==> r != []
    ensures forall j :: 0 <= j < |r| ==> r[j] != []
  {
    if s == [] then Flush(cur)
    else if IsWordChar(s[0]) then WordsFrom(s[1..], cur + [s[0]])
    else Flush(cur) + WordsFrom(s[1..], [])
  }

  /** The words of `s`, in order. */
  function Words(s: string): seq<string>
  {
    WordsFrom(s, [])
  }

  lemma WordsPastWordChar(c: char, t: string, cur: string)
    requires IsWordChar(c)
    ensures WordsFrom([c] + t, cur) == WordsFrom(t, cur + [c])
  {
    assert ([c] + t)[1..] == t;
  }

  lemma WordsPastSeparator(c: char, t: string, cur: string)
    requires !IsWordChar(c)
    ensures WordsFrom([c] + t, cur) == Flush(cur) + WordsFrom(t, [])
  {
    assert ([c] + t)[1..] == t;
  }

  /** A separator at the very end ends the last word and adds nothing. */
  lemma {:induction false} WordsAppendSeparator(s: string, c: char, cur: string)
    requires !IsWordChar(c)
    ensures WordsFrom(s + [c], cur) == WordsFrom(s, cur)
    decreases |s|
  {
    if s == [] {
      WordsPastSeparator(c, [], cur);
    } else {
      assert s + [c] == [s[0]] + (s[1..] + [c]);
      if IsWordChar(s[0]) {
        WordsPastWordChar(s[0], s[1..] + [c], cur);
        WordsAppendSeparator(s[1..], c, cur + [s[0]]);
      } else {
        WordsPastSeparator(s[0], s[1..] + [c], cur);
        WordsAppendSeparator(s[1..], c, []);
      }
    }
  }

  /** Collapsing whitespace runs keeps the words: a run still separates, one space or many. */
  lemma {:induction false} CollapseKeepsWords(s: string, inRun: bool, cur: string)
    requires inRun ==> cur == []
    ensures WordsFrom(CollapseFrom(s, inRun), cur) == WordsFrom(s, cur)
  {
    if s != [] {
      var rest := CollapseFrom(s[1..], IsSpace(s[0]));
      assert s == [s[0]] + s[1..];
      if IsSpace(s[0]) {
        WordsPastSeparator(s[0], s[1..], cur);
        CollapseKeepsWords(s[1..], true, []);
        if inRun {
          assert CollapseFrom(s, inRun) == rest;
        } else {
          assert CollapseFrom(s, inRun) == [' '] + rest;
          WordsPastSeparator(' ', rest, cur);
        }
      } else if IsWordChar(s[0]) {
        CollapseKeepsWords(s[1..], false, cur + [s[0]]);
        assert CollapseFrom(s, inRun) == [s[0]] + rest;
        WordsPastWordChar(s[0], rest, cur);
        WordsPastWordChar(s[0], s[1..], cur);
      } else {
        CollapseKeepsWords(s[1..], false, []);
        assert CollapseFrom(s, inRun) == [s[0]] + rest;
        WordsPastSeparator(s[0], rest, cur);
        WordsPastSeparator(s[0], s[1..], cur);
      }
    }
  }

  /** Replacing non-ASCII runs by a space keeps the words: such a run already separated them. */
  lemma {:induction false} ReplaceNonAsciiKeepsWords(s: string, inRun: bool, cur: string)
    requires inRun ==> cur == []
    ensures WordsFrom(ReplaceNonAsciiFrom(s, inRun), cur) == WordsFrom(s, cur)
  {
    if s != [] {
      var rest := ReplaceNonAsciiFrom(s[1..], !IsAscii(s[0]));
      assert s == [s[0]] + s[1..];
      if !IsAscii(s[0]) {
        WordsPastSeparator(s[0], s[1..], cur);
        ReplaceNonAsciiKeepsWords(s[1..], true, []);
        if inRun {
          assert ReplaceNonAsciiFrom(s, inRun) == rest;
        } else {
          assert ReplaceNonAsciiFrom(s, inRun) == [' '] + rest;
          WordsPastSeparator(' ', rest, cur);
        }
      } else if IsWordChar(s[0]) {
        ReplaceNonAsciiKeepsWords(s[1..], false, cur + [s[0]]);
        assert ReplaceNonAsciiFrom(s, inRun) == [s[0]] + rest;
        WordsPastWordChar(s[0], rest, cur);
        WordsPastWordChar(s[0], s[1..], cur);
      } else {
        ReplaceNonAsciiKeepsWords(s[1..], false, []);
        assert ReplaceNonAsciiFrom(s, inRun) == [s[0]] + rest;
        WordsPastSeparator(s[0], rest, cur);
        WordsPastSeparator(s[0], s[1..], cur);
      }
    }
  }

  lemma {:induction false} TrimStartKeepsWords(s: string)
    ensures Words(TrimStart(s)) == Words(s)
  {
    if s != [] && IsSpace(s[0]) {
      TrimStartKeepsWords(s[1..]);
      assert s == [s[0]] + s[1..];
      WordsPastSeparator(s[0], s[1..], []);
    }
  }

  lemma {:induction false} TrimEndKeepsWords(s: string)
    ensures Words(TrimEnd(s)) == Words(s)
  {
    if s != [] && IsSpace(s[|s| - 1]) {
      var init := s[..|s| - 1];
      TrimEndKeepsWords(init);
      assert s == init + [s[|s| - 1]];
      WordsAppendSeparator(init, s[|s| - 1], []);
    }
  }

  /**
   * `clean_text` keeps the words and keeps them apart: the input and the output
   * have the same maximal runs of ASCII non-whitespace characters, in order.
   */
  lemma CleanTextKeepsWords(s: string)
    ensures Words(CleanText(s)) == Words(s)
  {
    CollapseKeepsWords(s, false, []);
    ReplaceNonAsciiKeepsWords(CollapseWhitespace(s), false, []);
    TrimStartKeepsWords(ReplaceNonAscii(CollapseWhitespace(s)));
    TrimEndKeepsWords(TrimStart(ReplaceNonAscii(CollapseWhitespace(s))));
  }

  /** Already clean text: ASCII, single spaces between non-blank runs, no spaces at the ends. */
  predicate Normalized(s: string)
  {
    && (forall i :: 0 <= i < |s| ==> IsAscii(s[i]) && (IsSpace(s[i]) ==> s[i] == ' '))
    && (forall i :: 0 <= i < |s| - 1 ==> !(s[i] == ' ' && s[i + 1] == ' '))
    && (s == [] || (s[0] != ' ' && s[|s| - 1] != ' '))
  }

  lemma {:induction false} CollapseFixesSingleSpaced(s: string, inRun: bool)
    requires forall i :: 0 <= i < |s| ==> IsSpace(s[i]) ==> s[i] == ' '
    requires forall i :: 0 <= i < |s| - 1 ==> !(s[i] == ' ' && s[i + 1] == ' ')
    requires inRun ==> s == [] || !IsSpace(s[0])
    ensures CollapseFrom(s, inRun) == s
  {
    if s != [] {
      CollapseFixesSingleSpaced(s[1..], IsSpace(s[0]));
    }
  }

  lemma {:induction false} ReplaceFixesAscii(s: string, inRun: bool)
    requires forall i :: 0 <= i < |s| ==> IsAscii(s[i])
    ensures ReplaceNonAsciiFrom(s, inRun) == s
  {
    if s != [] {
      ReplaceFixesAscii(s[1..], false);
    }
  }

  /** Text that is already normalized passes through `clean_text` unchanged. */
  lemma CleanTextFixesNormalized(s: string)
    requires Normalized(s)
    ensures CleanText(s) == s
  {
    CollapseFixesSingleSpaced(s, false);
    ReplaceFixesAscii(s, false);
    StripFixesTrimmed(s);
  }

  /** Text with no whitespace at either end is left alone by `strip()`. */
  lemma StripFixesTrimmed(s: string)
    requires s == [] || (!IsSpace(s[0]) && !IsSpace(s[|s| - 1]))
    ensures Strip(s) == s
  {
    assert TrimStart(s) == s;
    assert TrimEnd(s) == s;
  }

  /** CollapseFrom past a character that is not whitespace: it is kept. */
  lemma CollapseKeep(c: char, t: string, inRun: bool)
    requires !IsSpace(c)
    ensures CollapseFrom([c] + t, inRun) == [c] + CollapseFrom(t, false)
  {
    assert ([c] + t)[1..] == t;
  }

  /** CollapseFrom past a whitespace character: a space starts a run, nothing continues one. */
  lemma CollapseSpace(c: char, t: string, inRun: bool)
    requires IsSpace(c)
    ensures CollapseFrom([c] + t, inRun) == (if inRun then [] else " ") + CollapseFrom(t, true)
  {
    assert ([c] + t)[1..] == t;
  }

  /** ReplaceNonAsciiFrom past an ASCII character: it is kept. */
  lemma ReplaceKeep(c: char, t: string, inRun: bool)
    requires IsAscii(c)
    ensures ReplaceNonAsciiFrom([c] + t, inRun) == [c] + ReplaceNonAsciiFrom(t, false)
  {
    assert ([c] + t)[1..] == t;
  }

  /** ReplaceNonAsciiFrom past a non-ASCII character: a space starts a run, nothing continues one. */
  lemma ReplaceOther(c: char, t: string, inRun: bool)
    requires !IsAscii(c)
    ensures ReplaceNonAsciiFrom([c] + t, inRun) == (if inRun then [] else " ") + ReplaceNonAsciiFrom(t, true)
  {
    assert ([c] + t)[1..] == t;
  }

  /**
   * The first two steps of `clean_text` on `a`, space, `e`, space, `b`, where
   * `e` is a non-ASCII letter: three spaces are left between `a` and `b`.
   */
  lemma ReplaceAfterCollapse(a: char, e: char, b: char)
    requires IsAscii(a) && !IsSpace(a) && IsAscii(b) && !IsSpace(b)
    requires !IsAscii(e) && !IsSpace(e)
    ensures ReplaceNonAscii(CollapseWhitespace([a, ' ', e, ' ', b])) == [a, ' ', ' ', ' ', b]
  {
    CollapseSingleSpaced(a, e, b);
    var t1 := [b];
    var t2 := [' '] + t1;
    var t3 := [e] + t2;
    var t4 := [' '] + t3;
    assert [a, ' ', e, ' ', b] == [a] + t4;
    assert IsAscii(' ');
    ReplaceKeep(b, [], true);
    assert [b] + [] == t1;
    ReplaceKeep(' ', t1, true);
    ReplaceOther(e, t2, false);
    ReplaceKeep(' ', t3, false);
    ReplaceKeep(a, t4, false);
    assert ReplaceNonAsciiFrom(t4, false) == [' ', ' ', ' ', b];
  }

  /** Single spaces between non-space characters are left alone by the collapse. */
  lemma CollapseSingleSpaced(a: char, e: char, b: char)
    requires !IsSpace(a) && !IsSpace(e) && !IsSpace(b)
    ensures CollapseWhitespace([a, ' ', e, ' ', b]) == [a, ' ', e, ' ', b]
  {
    var t1 := [b];
    var t2 := [' '] + t1;
    var t3 := [e] + t2;
    var t4 := [' '] + t3;
    assert [a, ' ', e, ' ', b] == [a] + t4;
    assert IsSpace(' ');
    CollapseKeep(b, [], true);
    assert [b] + [] == t1;
    CollapseSpace(' ', t1, false);
    CollapseKeep(e, t2, true);
    CollapseSpace(' ', t3, false);
    CollapseKeep(a, t4, false);
  }

  /** A second pass collapses those three spaces into one. */
  lemma CleanTripleSpace(a: char, b: char)
    requires IsAscii(a) && !IsSpace(a) && IsAscii(b) && !IsSpace(b)
    ensures CleanText([a, ' ', ' ', ' ', b]) == [a, ' ', b]
  {
    CollapseTripleSpace(a, b);
    var t1 := [b];
    var t2 := [' '] + t1;
    assert [a, ' ', b] == [a] + t2;
    assert IsAscii(' ');
    ReplaceKeep(b, [], false);
    assert [b] + [] == t1;
    ReplaceKeep(' ', t1, false);
    ReplaceKeep(a, t2, false);
    assert ReplaceNonAscii([a, ' ', b]) == [a, ' ', b];
    assert TrimStart([a, ' ', b]) == [a, ' ', b];
    assert TrimEnd([a, ' ', b]) == [a, ' ', b];
  }

  /** Three spaces between non-space characters collapse into one. */
  lemma CollapseTripleSpace(a: char, b: char)
    requires !IsSpace(a) && !IsSpace(b)
    ensures CollapseWhitespace([a, ' ', ' ', ' ', b]) == [a, ' ', b]
  {
    var t1 := [b];
    var t2 := [' '] + t1;
    var t3 := [' '] + t2;
    var t4 := [' '] + t3;
    assert [a, ' ', ' ', ' ', b] == [a] + t4;
    assert IsSpace(' ');
    CollapseKeep(b, [], true);
    assert [b] + [] == t1;
    CollapseSpace(' ', t1, true);
    CollapseSpace(' ', t2, true);
    CollapseSpace(' ', t3, false);
    CollapseKeep(a, t4, false);
  }

  /**
   * `clean_text` does not always produce single-spaced text, and applying it twice
   * can change the result: a non-ASCII letter between two spaces becomes a space
   * only after whitespace has already been collapsed.
   */
  lemma CleanTextNotIdempotent(a: char, e: char, b: char)
    requires IsAscii(a) && !IsSpace(a) && IsAscii(b) && !IsSpace(b)
    requires !IsAscii(e) && !IsSpace(e)
    ensures CleanText([a, ' ', e, ' ', b]) == [a, ' ', ' ', ' ', b]
    ensures CleanText(CleanText([a, ' ', e, ' ', b])) == [a, ' ', b]
  {
    ReplaceAfterCollapse(a, e, b);
    assert TrimStart([a, ' ', ' ', ' ', b]) == [a, ' ', ' ', ' ', b];
    assert TrimEnd([a, ' ', ' ', ' ', b]) == [a, ' ', ' ', ' ', b];
    CleanTripleSpace(a, b);
  }

  /** For instance "a é b" cleans to "a   b", and cleaning that again gives "a b". */
  lemma CleanTextTwiceExample()
    ensures CleanText("a \U{e9} b") == "a   b"
    ensures CleanText(CleanText("a \U{e9} b")) == "a b"
  {
    CleanTextNotIdempotent('a', '\U{e9}', 'b');
  }

  // ---------------------------------------------------------------------------
  // chunk_text
  // ---------------------------------------------------------------------------

  /** The default `chunk_size`. */
  const ChunkSize: nat := 500

  /** `[text[i:i + size] for i in range(0, len(text), size)]` for a positive `size`. */
  function Chunks(text: string, size: nat): seq<string>
    requires size > 0
    decreases |text|
  {
    if text == [] then []
    else if |text| <= size then [text]
    else [text[..size]] + Chunks(text[size..], size)
  }

  function Flatten(pieces: seq<string>): string
  {
    if pieces == [] then [] else pieces[0] + Flatten(pieces[1..])
  }

  /** Concatenating the chunks in order gives back the text. */
  lemma {:induction false} ChunksRoundTrip(text: string, size: nat)
    requires size > 0
    ensures Flatten(Chunks(text, size)) == text
    decreases |text|
  {
    if |text| > size {
      ChunksRoundTrip(text[size..], size);
      assert text == text[..size] + text[size..];
    }
  }

  /**
   * Every chunk but the last is exactly `size` long, the last one is 1..`size` long,
   * and there are ceil(|text| / size) of them: the fewest pieces of `size` that
   * cover the text.
   */
  lemma {:induction false} ChunksShape(text: string, size: nat)
    requires size > 0
    ensures var r := Chunks(text, size);
      && |text| <= |r| * size < |text| + size
      && (forall i :: 0 <= i < |r| - 1 ==> |r[i]| == size)
      && (r != [] ==> 1 <= |r[|r| - 1]| <= size)
    decreases |text|
  {
    if |text| > size {
      var rest := Chunks(text[size..], size);
      ChunksShape(text[size..], size);
      ShiftByOneChunk(|rest| + 1, size);
    }
  }

  function Min(a: int, b: int): int
  {
    if a <= b then a else b
  }

  /**
   * The comprehension's own description of chunk `i`: the slice
   * `text[i * size:(i + 1) * size]`, clipped at the end of the text.
   */
  lemma ChunkAt(text: string, size: nat, i: nat)
    requires size > 0 && i < |Chunks(text, size)|
    ensures i * size < |text|
    ensures Chunks(text, size)[i] == text[i * size..Min(i * size + size, |text|)]
  {
    ChunkAtOffset(text, size, i, i * size);
  }

  /** ChunkAt with the chunk's offset `p` named, so that the induction stays linear. */
  lemma {:induction false} ChunkAtOffset(text: string, size: nat, i: nat, p: nat)
    requires size > 0 && i < |Chunks(text, size)| && p == i * size
    ensures p < |text|
    ensures Chunks(text, size)[i] == text[p..Min(p + size, |text|)]
    decreases |text|
  {
    if i > 0 {
      assert |text| > size;
      var rest := text[size..];
      assert Chunks(text, size)[i] == Chunks(rest, size)[i - 1];
      ShiftByOneChunk(i, size);
      ChunkAtOffset(rest, size, i - 1, p - size);
      SliceAfterFirstChunk(text, size, p - size);
    }
  }

  /** A slice of the text after the first chunk is the slice `size` further on in the whole text. */
  lemma SliceAfterFirstChunk(text: string, size: nat, p: nat)
    requires 0 < size < |text| && p < |text| - size
    ensures text[size..][p..Min(p + size, |text| - size)] == text[size + p..Min(size + p + size, |text|)]
  {
  }

  /** Moving one chunk along the text adds `size` to both ends of a slice. */
  lemma ShiftByOneChunk(i: nat, size: nat)
    requires i > 0
    ensures size + (i - 1) * size == i * size
    ensures size + i * size == (i + 1) * size
  {
  }

  /** No chunks exactly when there is no text. */
  lemma ChunksEmptyIff(text: string, size: nat)
    requires size > 0
    ensures Chunks(text, size) == [] <==> text == []
  {
  }

  /**
   * `chunk_text(text, size)` for any integer `size`: `range` raises `ValueError`
   * (None here) for a zero step and is empty for a negative one.
   */
  function ChunkText(text: string, size: int): (r: Option<seq<string>>)
    ensures r.None? <==> size == 0
    ensures size < 0 ==> r == Some([])
    ensures size > 0 ==> r.Some? && Flatten(r.value) == text
    ensures size > 0 ==> r == Some(Chunks(text, size))
  {
    if size == 0 then None
    else if size < 0 then Some([])
    else
      ChunksRoundTrip(text, size);
      Some(Chunks(text, size))
  }

  // ---------------------------------------------------------------------------
  // extract_skills
  // ---------------------------------------------------------------------------

  /** `SKILL_KEYWORDS`, in the source's order. */
  const SkillKeywords: seq<string> := [
    "python", "aws", "sql", "machine learning", "data analysis",
    "lambda", "s3", "docker", "kubernetes", "api",
    "devops", "nlp", "flask", "django", "power bi", "excel"
  ]

  lemma SkillKeywordsDistinct()
    ensures |SkillKeywords| == 16 && Distinct(SkillKeywords)
  {
  }

  /** The terms of `vocab` that occur in `lowered`, in vocabulary order. */
  function SkillsIn(vocab: seq<string>, lowered: string): seq<string>
  {
    if vocab == [] then []
    else (if Contains(lowered, vocab[0]) then [vocab[0]] else []) + SkillsIn(vocab[1..], lowered)
  }

  lemma {:induction false} SkillsInMembers(vocab: seq<string>, lowered: string)
    ensures forall w :: w in SkillsIn(vocab, lowered) <==> w in vocab && Contains(lowered, w)
  {
    if vocab != [] {
      SkillsInMembers(vocab[1..], lowered);
      assert vocab == [vocab[0]] + vocab[1..];
    }
  }

  lemma {:induction false} SkillsInSubsequence(vocab: seq<string>, lowered: string)
    requires Distinct(vocab)
    ensures IsSubsequence(SkillsIn(vocab, lowered), vocab)
  {
    if vocab != [] {
      var rest := SkillsIn(vocab[1..], lowered);
      SkillsInSubsequence(vocab[1..], lowered);
      if Contains(lowered, vocab[0]) {
        assert ([vocab[0]] + rest)[1..] == rest;
      } else if rest != [] {
        SkillsInMembers(vocab[1..], lowered);
        assert rest[0] in vocab[1..];
        assert vocab[0] !in vocab[1..];
        assert SkillsIn(vocab, lowered) == rest;
      }
    }
  }

  lemma {:induction false} SkillsInDistinct(vocab: seq<string>, lowered: string)
    requires Distinct(vocab)
    ensures Distinct(SkillsIn(vocab, lowered))
  {
    if vocab != [] {
      var rest := SkillsIn(vocab[1..], lowered);
      SkillsInDistinct(vocab[1..], lowered);
      if Contains(lowered, vocab[0]) {
        SkillsInMembers(vocab[1..], lowered);
        assert vocab[0] !in vocab[1..];
        var r := [vocab[0]] + rest;
        forall i, j | 0 <= i < j < |r| ensures r[i] != r[j] {
          assert r[j] == rest[j - 1];
          if i > 0 { assert r[i] == rest[i - 1]; }
        }
      }
    }
  }

  /**
   * `extract_skills`: exactly the vocabulary terms that occur as substrings of the
   * lower-cased text, in vocabulary order, each once.
   */
  function ExtractSkills(text: string): (r: seq<string>)
    ensures forall w :: w in r <==> w in SkillKeywords && Contains(Lower(text), w)
    ensures IsSubsequence(r, SkillKeywords)
    ensures Distinct(r) && |r| <= |SkillKeywords|
  {
    SkillKeywordsDistinct();
    SkillsInMembers(SkillKeywords, Lower(text));
    SkillsInSubsequence(SkillKeywords, Lower(text));
    SkillsInDistinct(SkillKeywords, Lower(text));
    SkillsInLength(SkillKeywords, Lower(text));
    SkillsIn(SkillKeywords, Lower(text))
  }

  lemma {:induction false} SkillsInLength(vocab: seq<string>, lowered: string)
    ensures |SkillsIn(vocab, lowered)| <= |vocab|
  {
    if vocab != [] {
      SkillsInLength(vocab[1..], lowered);
    }
  }
}
