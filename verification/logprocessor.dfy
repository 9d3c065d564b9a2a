/** `LogProcessor`: what the analyser sees of a pasted log. Every non-blank
    line becomes an entry with its timestamp, level and error flag, the whole
    text is cleaned of noise, and the first error lines are picked out. */
module LogProcessor {
  import opened Wrappers
  import opened Strings
  import opened Matching

  datatype LogLevel = ErrorLevel | WarningLevel | InfoLevel | DebugLevel

  /** One entry of `logLines`. */
  datatype LogLine = LogLine(
    lineNumber: int,
    content: string,
    timestamp: Option<string>,
    logLevel: Option<LogLevel>,
    isError: bool)

  datatype ProcessedLog = ProcessedLog(originalLog: string, cleanedLog: string, logLines: seq<LogLine>)

  // ---------------------------------------------------------------------
  // Timestamps

  /** `\d{4}-\d{2}-\d{2}T\d{2}:\d{2}:\d{2}.\d{3}Z`. The `.` is not escaped,
      so it takes any character of the line, not only a dot. */
  const IsoUtc: seq<Cell> :=
    Digits(4) + [Exactly('-')] + Digits(2) + [Exactly('-')] + Digits(2) + [Exactly('T')]
    + Digits(2) + [Exactly(':')] + Digits(2) + [Exactly(':')] + Digits(2) + [AnyInLine] + Digits(3)
    + [Exactly('Z')]

  /** `\d{2}:\d{2}:\d{2}.\d{3}` */
  const TimeOfDay: seq<Cell> :=
    Digits(2) + [Exactly(':')] + Digits(2) + [Exactly(':')] + Digits(2) + [AnyInLine] + Digits(3)

  /** `\d{4}-\d{2}-\d{2} \d{2}:\d{2}:\d{2}` */
  const SimpleDateTime: seq<Cell> :=
    Digits(4) + [Exactly('-')] + Digits(2) + [Exactly('-')] + Digits(2) + [Exactly(' ')]
    + Digits(2) + [Exactly(':')] + Digits(2) + [Exactly(':')] + Digits(2)

  /** `\[\d{2}:\d{2}:\d{2}.\d{3}\]` */
  const BracketedTime: seq<Cell> := [Exactly('[')] + TimeOfDay + [Exactly(']')]

  /** The patterns `extractTimestamp` tries, in its order. */
  const TimestampFormats: seq<seq<Cell>> := [IsoUtc, TimeOfDay, SimpleDateTime, BracketedTime]

  /** `formats[j]` fits nowhere in `line`. */
  ghost predicate FitsNowhere(formats: seq<seq<Cell>>, j: int, line: string)
    requires 0 <= j < |formats|
  {
    forall k: nat :: !FitsAt(formats[j], line, k)
  }

  /** `r` is what the first pattern of `formats` that fits anywhere in
      `line` matches leftmost, and None when no pattern fits. */
  ghost predicate FirstFixedMatchOf(formats: seq<seq<Cell>>, line: string, r: Option<string>) {
    && (r.None? <==> forall j | 0 <= j < |formats| :: FitsNowhere(formats, j, line))
    && (r.Some? ==> exists j: nat, k: nat :: FirstFitAt(formats, line, j, k, r.value))
  }

  /** `formats[j]` is the first pattern that fits anywhere in `line`, its
      leftmost fit starts at `k` and covers `text`. */
  ghost predicate FirstFitAt(formats: seq<seq<Cell>>, line: string, j: nat, k: nat, text: string) {
    && j < |formats|
    && (forall j' | 0 <= j' < j :: FitsNowhere(formats, j', line))
    && FitsAt(formats[j], line, k)
    && (forall k': nat | k' < k :: !FitsAt(formats[j], line, k'))
    && text == line[k..k + |formats[j]|]
  }

  /** Passing over a first pattern that fits nowhere. */
  lemma FirstFixedMatchSkips(formats: seq<seq<Cell>>, line: string, r: Option<string>)
    requires formats != [] && FitsNowhere(formats, 0, line)
    requires FirstFixedMatchOf(formats[1..], line, r)
    ensures FirstFixedMatchOf(formats, line, r)
  {
    forall j | 1 <= j < |formats|
      ensures FitsNowhere(formats, j, line) <==> FitsNowhere(formats[1..], j - 1, line)
    {
      assert formats[j] == formats[1..][j - 1];
    }
    if r.Some? {
      var j: nat, k: nat :| FirstFitAt(formats[1..], line, j, k, r.value);
      FirstFitShifts(formats, line, j, k, r.value);
      assert FirstFitAt(formats, line, j + 1, k, r.value);
      assert !FitsNowhere(formats, j + 1, line) by { assert FitsAt(formats[j + 1], line, k); }
    }
  }

  /** A first fit in the tail is a first fit one place later in the whole. */
  lemma FirstFitShifts(formats: seq<seq<Cell>>, line: string, j: nat, k: nat, text: string)
    requires formats != [] && FitsNowhere(formats, 0, line)
    requires FirstFitAt(formats[1..], line, j, k, text)
    ensures FirstFitAt(formats, line, j + 1, k, text)
  {
    assert formats[j + 1] == formats[1..][j];
    forall j' | 0 < j' < j + 1
      ensures FitsNowhere(formats, j', line)
    {
      assert formats[j'] == formats[1..][j' - 1];
      assert FitsNowhere(formats[1..], j' - 1, line);
    }
  }

  /** The text of the leftmost match of the first pattern that matches
      anywhere in `line`: a loop over `line.match(pattern)` that returns
      `match[0]` on the first success. */
  function FirstFixedMatch(formats: seq<seq<Cell>>, line: string): (r: Option<string>)
    decreases |formats|
    ensures FirstFixedMatchOf(formats, line, r)
  {
    if formats == [] then None
    else
      match FindFixed(formats[0], line, 0)
      case Some(k) =>
        assert !FitsNowhere(formats, 0, line) by { assert FitsAt(formats[0], line, k); }
        assert FirstFitAt(formats, line, 0, k, line[k..k + |formats[0]|]);
        Some(line[k..k + |formats[0]|])
      case None =>
        var rest := FirstFixedMatch(formats[1..], line);
        FirstFixedMatchSkips(formats, line, rest);
        rest
  }

  /** `extractTimestamp(line)`. */
  function ExtractTimestamp(line: string): (r: Option<string>)
    ensures r.None? <==> forall j | 0 <= j < |TimestampFormats| :: FitsNowhere(TimestampFormats, j, line)
    ensures FirstFixedMatchOf(TimestampFormats, line, r)
  {
    FirstFixedMatch(TimestampFormats, line)
  }

  /** The last pattern of `formats` fits only where an earlier one fits. */
  ghost predicate LastDominated(formats: seq<seq<Cell>>, line: string)
    requires |formats| >= 1
  {
    (forall j | 0 <= j < |formats| - 1 :: FitsNowhere(formats, j, line))
      ==> FitsNowhere(formats, |formats| - 1, line)
  }

  /** Past a first pattern that fits nowhere, the last one is still dominated. */
  lemma DominatedTail(formats: seq<seq<Cell>>, line: string)
    requires |formats| >= 2 && FitsNowhere(formats, 0, line) && LastDominated(formats, line)
    ensures LastDominated(formats[1..], line)
  {
    var n := |formats|;
    var tail := formats[1..];
    forall j | 0 <= j < n - 1
      ensures tail[j] == formats[j + 1]
    {
    }
    if forall j | 0 <= j < |tail| - 1 :: FitsNowhere(tail, j, line) {
      forall j | 0 <= j < n - 1
        ensures FitsNowhere(formats, j, line)
      {
        if j > 0 {
          assert FitsNowhere(tail, j - 1, line);
        }
      }
    }
  }

  /** Lists that start with the same pattern, where it fits, give the same match. */
  lemma FirstFixedMatchSameHead(a: seq<seq<Cell>>, b: seq<seq<Cell>>, line: string)
    requires a != [] && b != [] && a[0] == b[0] && FindFixed(a[0], line, 0).Some?
    ensures FirstFixedMatch(a, line) == FirstFixedMatch(b, line)
  {
  }

  /** A first pattern that fits nowhere is passed over. */
  lemma FirstFixedMatchSkipsHead(a: seq<seq<Cell>>, line: string)
    requires a != [] && FindFixed(a[0], line, 0).None?
    ensures FirstFixedMatch(a, line) == FirstFixedMatch(a[1..], line)
  {
  }

  /** A last pattern that can only fit where an earlier one also fits
      never decides the result. */
  lemma {:induction false} DropDominatedLast(formats: seq<seq<Cell>>, line: string)
    requires |formats| >= 1 && LastDominated(formats, line)
    ensures FirstFixedMatch(formats, line) == FirstFixedMatch(formats[..|formats| - 1], line)
    decreases |formats|
  {
    var n := |formats|;
    var init := formats[..n - 1];
    if n == 1 {
      assert FitsNowhere(formats, 0, line);
      assert FindFixed(formats[0], line, 0).None?;
      FirstFixedMatchSkipsHead(formats, line);
      assert formats[1..] == [] == init;
    } else if FindFixed(formats[0], line, 0).None? {
      FirstFixedMatchSkipsHead(formats, line);
      var tail := formats[1..];
      assert FitsNowhere(formats, 0, line);
      DominatedTail(formats, line);
      DropDominatedLast(tail, line);
      assert init[0] == formats[0] && init[1..] == tail[..|tail| - 1];
      FirstFixedMatchSkipsHead(init, line);
    } else {
      assert init[0] == formats[0];
      FirstFixedMatchSameHead(formats, init, line);
    }
  }

  /** Where the bracketed time fits, the time of day fits one position
      later. */
  lemma BracketHoldsTimeOfDay(line: string, k: nat)
    ensures FitsAt(BracketedTime, line, k) ==> FitsAt(TimeOfDay, line, k + 1)
  {
    if FitsAt(BracketedTime, line, k) {
      forall m | 0 <= m < |TimeOfDay|
        ensures CellAccepts(TimeOfDay[m], line[k + 1 + m])
      {
        assert BracketedTime[m + 1] == TimeOfDay[m];
      }
    }
  }

  /** The bracketed-time pattern never decides a timestamp: the time-of-day
      pattern before it fits wherever it fits, so `extractTimestamp` returns
      the same value without it. */
  lemma BracketNeverDecides(line: string)
    ensures ExtractTimestamp(line) == FirstFixedMatch([IsoUtc, TimeOfDay, SimpleDateTime], line)
  {
    var formats := TimestampFormats;
    assert formats[1] == TimeOfDay && formats[3] == BracketedTime;
    if FitsNowhere(formats, 1, line) {
      forall k: nat
        ensures !FitsAt(formats[3], line, k)
      {
        BracketHoldsTimeOfDay(line, k);
      }
    }
    DropDominatedLast(formats, line);
    assert formats[..3] == [IsoUtc, TimeOfDay, SimpleDateTime];
  }

  /** A character above the Basic Multilingual Plane in place of the
      time's fraction point gives no timestamp: the unescaped `.` takes its
      high surrogate and `\d` then fails on the low one. */
  lemma AstralPointIsNoTimestamp()
    ensures ExtractTimestamp("12:34:56" + ['\U{1F600}'] + "123") == None
  {
    var line := "12:34:56" + ['\U{1F600}'] + "123";
    assert |line| == 12 && line[8] == '\U{1F600}';
    forall j | 0 <= j < |TimestampFormats|
      ensures FitsNowhere(TimestampFormats, j, line)
    {
      forall k: nat ensures !FitsAt(TimestampFormats[j], line, k) {
        if j == 1 && k == 0 {
          assert TimeOfDay[8] == AnyInLine;
          assert !CellAccepts(TimeOfDay[8], line[8]);
        }
      }
    }
  }

  // ---------------------------------------------------------------------
  // Level and error flag

  const LevelErrorTerms: seq<string> := ["error", "exception", "fatal"]
  const LevelWarningTerms: seq<string> := ["warning", "warn"]
  const LevelInfoTerms: seq<string> := ["info"]
  const LevelDebugTerms: seq<string> := ["debug", "trace"]

  /** `detectLogLevel(line)`: substring tests on the lower-cased line, the
      error terms first. */
  function DetectLogLevel(line: string): (r: Option<LogLevel>)
    ensures r == Some(ErrorLevel) <==> MentionsAny(line, LevelErrorTerms)
    ensures r == Some(WarningLevel) <==>
              !MentionsAny(line, LevelErrorTerms) && MentionsAny(line, LevelWarningTerms)
    ensures r == Some(InfoLevel) <==>
              && !MentionsAny(line, LevelErrorTerms) && !MentionsAny(line, LevelWarningTerms)
              && MentionsAny(line, LevelInfoTerms)
    ensures r == Some(DebugLevel) <==>
              && !MentionsAny(line, LevelErrorTerms) && !MentionsAny(line, LevelWarningTerms)
              && !MentionsAny(line, LevelInfoTerms) && MentionsAny(line, LevelDebugTerms)
    ensures r.None? <==>
              && !MentionsAny(line, LevelErrorTerms) && !MentionsAny(line, LevelWarningTerms)
              && !MentionsAny(line, LevelInfoTerms) && !MentionsAny(line, LevelDebugTerms)
  {
    var lower := Lower(line);
    if ContainsAny(lower, LevelErrorTerms) then Some(ErrorLevel)
    else if ContainsAny(lower, LevelWarningTerms) then Some(WarningLevel)
    else if ContainsAny(lower, LevelInfoTerms) then Some(InfoLevel)
    else if ContainsAny(lower, LevelDebugTerms) then Some(DebugLevel)
    else None
  }

  /** The patterns of `isErrorLine` that carry the `i` flag. */
  const ErrorTerms: seq<string> :=
    ["error", "exception", "failed", "cannot", "undefined", "null is not an object", "typeerror",
     "referenceerror", "syntaxerror", "rangeerror", "uncaught", "unhandled", "cors", "network error",
     "connection failed", "timeout"]

  /** The status codes of `isErrorLine`, matched as written. */
  const StatusCodes: seq<string> := ["404", "500", "502", "503"]

  /** `isErrorLine(line)`: some pattern occurs in the line. */
  function IsErrorLine(line: string): (r: bool)
    ensures r <==> MentionsAny(line, ErrorTerms) || exists c | c in StatusCodes :: Occurs(line, c)
  {
    ContainsAny(Lower(line), ErrorTerms) || ContainsAny(line, StatusCodes)
  }

  /** A word inside an occurring word occurs too. */
  lemma OccursInside(s: string, w: string, v: string)
    requires Occurs(s, w) && Occurs(w, v)
    ensures Occurs(s, v)
  {
    var i :| OccursAt(s, w, i);
    var j :| OccursAt(w, v, j);
    forall t | 0 <= t < |v|
      ensures s[i + j + t] == v[t]
    {
      assert s[i..i + |w|][j + t] == s[i + j + t];
      assert w[j..j + |v|][t] == w[j + t];
    }
    assert s[i + j..i + j + |v|] == v;
    assert OccursAt(s, v, i + j);
  }

  /** Mentioning a word of a sub-list is mentioning a word of the list. */
  lemma MentionsSubList(s: string, ws: seq<string>, core: seq<string>)
    requires forall v | v in core :: v in ws
    ensures MentionsAny(s, core) ==> MentionsAny(s, ws)
  {
  }

  /** Where every word of `ws` contains a word of `core`, mentioning a word
      of `ws` is mentioning a word of `core`. */
  lemma MentionsContainedWord(s: string, ws: seq<string>, core: seq<string>)
    requires forall w | w in ws :: exists v | v in core :: Occurs(w, v)
    ensures MentionsAny(s, ws) ==> MentionsAny(s, core)
  {
    if MentionsAny(s, ws) {
      var w :| w in ws && Occurs(Lower(s), w);
      var v :| v in core && Occurs(w, v);
      OccursInside(Lower(s), w, v);
    }
  }

  /** The error terms that no other error term contains. */
  const CoreErrorTerms: seq<string> :=
    ["error", "exception", "failed", "cannot", "undefined", "null is not an object", "uncaught",
     "unhandled", "cors", "timeout"]

  lemma ErrorTermContainsCore(k: nat)
    requires k < |ErrorTerms|
    ensures exists v | v in CoreErrorTerms :: Occurs(ErrorTerms[k], v)
  {
    var w := ErrorTerms[k];
    if k == 6 { assert OccursAt(w, "error", 4); assert "error" in CoreErrorTerms; }
    else if k == 7 { assert OccursAt(w, "error", 9); assert "error" in CoreErrorTerms; }
    else if k == 8 { assert OccursAt(w, "error", 6); assert "error" in CoreErrorTerms; }
    else if k == 9 { assert OccursAt(w, "error", 5); assert "error" in CoreErrorTerms; }
    else if k == 13 { assert OccursAt(w, "error", 8); assert "error" in CoreErrorTerms; }
    else if k == 14 { assert OccursAt(w, "failed", 11); assert "failed" in CoreErrorTerms; }
    else {
      assert w in CoreErrorTerms;
      assert OccursAt(w, w, 0);
    }
  }

  lemma CoreErrorTermsAreErrorTerms()
    ensures forall v | v in CoreErrorTerms :: v in ErrorTerms
  {
    forall k | 0 <= k < |CoreErrorTerms|
      ensures CoreErrorTerms[k] in ErrorTerms
    {
    }
  }

  lemma ErrorTermsContainCore()
    ensures forall w | w in ErrorTerms :: exists v | v in CoreErrorTerms :: Occurs(w, v)
  {
    forall w | w in ErrorTerms
      ensures exists v | v in CoreErrorTerms :: Occurs(w, v)
    {
      var k :| 0 <= k < |ErrorTerms| && ErrorTerms[k] == w;
      ErrorTermContainsCore(k);
    }
  }

  /** `typeerror`, `referenceerror`, `syntaxerror`, `rangeerror` and
      `network error` all contain `error`, and `connection failed` contains
      `failed`: those six patterns never change the answer. */
  lemma ErrorTermsReduce(line: string)
    ensures IsErrorLine(line) <==>
              MentionsAny(line, CoreErrorTerms) || exists c | c in StatusCodes :: Occurs(line, c)
  {
    assert MentionsAny(line, CoreErrorTerms) ==> MentionsAny(line, ErrorTerms) by {
      CoreErrorTermsAreErrorTerms();
      MentionsSubList(line, ErrorTerms, CoreErrorTerms);
    }
    assert MentionsAny(line, ErrorTerms) ==> MentionsAny(line, CoreErrorTerms) by {
      ErrorTermsContainCore();
      MentionsContainedWord(line, ErrorTerms, CoreErrorTerms);
    }
  }

  /** A line that mentions `error` in any case is both at error level and
      an error line. */
  lemma ErrorWordMarksBoth(line: string)
    ensures Occurs(Lower(line), "error") ==>
              DetectLogLevel(line) == Some(ErrorLevel) && IsErrorLine(line)
  {
    assert "error" in LevelErrorTerms && "error" in ErrorTerms;
  }

  // ---------------------------------------------------------------------
  // Noise removal

  /** The marker an anonymous frame carries. */
  const AnonymousMarker: string := "(<anonymous>:"

  /** `^\s*at\s+.*\(<anonymous>:.*\)$` with the `g` and `m` flags: a frame
      line of an anonymous function, from the start of the line to its end.
      The line it ends on is the one holding the first character after
      `at` and its whitespace; that line must hold the marker after that
      character and end with `)` after the marker. */
  function AnonymousFrameAt(s: string, i: nat): (r: Option<nat>)
    ensures r.Some? ==> i + r.value <= |s|
    ensures r.Some? ==> LineStart(s, i) && 0 < r.value && s[i + r.value - 1] == ')'
    ensures r.Some? ==> i + r.value == |s| || IsLineTerminator(s[i + r.value])
  {
    if i > |s| || !LineStart(s, i) then None
    else
      var w := SkipWhitespace(s, i);
      if !OccursAt(s, "at", w) then None
      else
        var v := SkipWhitespace(s, w + 2);
        var e := SpanWhile(s, v, InLine);
        var marker := IndexOf(s, AnonymousMarker, v);
        if v == w + 2 || e == 0 || s[e - 1] != ')' then None
        else if marker.Some? && marker.value + |AnonymousMarker| < e then Some(e - i)
        else None
  }

  predicate NotClosingOnLine(c: char) { c != ']' && InLine(c) }

  /** `^\s*\[.*?\]\s*` with the `g` and `m` flags: a bracketed prefix at the
      start of a line, up to the first `]` of the line, with the whitespace
      that follows it (which may run over line ends). */
  function BracketPrefixAt(s: string, i: nat): (r: Option<nat>)
    ensures r.Some? ==> i + r.value <= |s|
    ensures r.Some? ==> LineStart(s, i) && (i + r.value == |s| || !IsWhitespace(s[i + r.value]))
  {
    if i > |s| || !LineStart(s, i) then None
    else
      var w := SkipWhitespace(s, i);
      if w < |s| && s[w] == '[' then
        var c := SpanWhile(s, w + 1, NotClosingOnLine);
        if c < |s| && s[c] == ']' then Some(SkipWhitespace(s, c + 1) - i) else None
      else None
  }

  /** `webpack:\/\/\/` */
  function WebpackAt(s: string, i: nat): Option<nat> {
    if OccursAt(s, "webpack:///", i) then Some(11) else None
  }

  /** `node_modules\/` */
  function NodeModulesAt(s: string, i: nat): Option<nat> {
    if OccursAt(s, "node_modules/", i) then Some(13) else None
  }

  /** `\s{2,}`: a whitespace run of two or more, as long as it goes. */
  function SpaceRunAt(s: string, i: nat): (r: Option<nat>)
    ensures r.Some? ==> 2 <= r.value && i + r.value <= |s|
    ensures r.Some? <==> i + 1 < |s| && IsWhitespace(s[i]) && IsWhitespace(s[i + 1])
    ensures r.Some? ==> forall k | i <= k < i + r.value :: IsWhitespace(s[k])
    ensures r.Some? ==> i + r.value == |s| || !IsWhitespace(s[i + r.value])
  {
    if i > |s| then None
    else
      var e := SkipWhitespace(s, i);
      if e - i >= 2 then Some(e - i) else None
  }

  predicate IsNewline(c: char) { c == '\n' }

  /** `\n{3,}` */
  function NewlineRunAt(s: string, i: nat): (r: Option<nat>)
    ensures r.Some? ==> 3 <= r.value && i + r.value <= |s|
    ensures r.Some? <==> i + 2 < |s| && s[i] == '\n' && s[i + 1] == '\n' && s[i + 2] == '\n'
    ensures r.Some? ==> forall k | i <= k < i + r.value :: s[k] == '\n'
    ensures r.Some? ==> i + r.value == |s| || s[i + r.value] != '\n'
  {
    if i > |s| then None
    else
      var e := SpanWhile(s, i, IsNewline);
      if e - i >= 3 then Some(e - i) else None
  }

  /** An indented `at ...` line that holds the anonymous marker and ends
      with `)` after it is one anonymous frame from start to end. */
  lemma AnonymousFrameLineMatches(line: string, w: nat, p: nat)
    requires forall k | 0 <= k < |line| :: InLine(line[k])
    requires w + 2 < |line| && OccursAt(line, "at", w) && IsWhitespace(line[w + 2])
    requires forall k | 0 <= k < w :: IsWhitespace(line[k])
    requires w + 2 < p && OccursAt(line, AnonymousMarker, p) && p + |AnonymousMarker| < |line|
    requires line[|line| - 1] == ')'
    ensures MatchAt(AnonymousFrameAt, line, 0) == Some(|line|)
  {
    assert line[w] == line[w..w + 2][0];
    assert line[p] == line[p..p + |AnonymousMarker|][0];
    SkipWhitespaceStops(line, 0, w);
    var v := SkipWhitespace(line, w + 2);
    assert v <= p;
    SpanWhileStops(line, v, |line|, InLine);
  }

  /** An anonymous frame holds the marker, after the `at` and before the
      closing `)` of its line. */
  lemma AnonymousFrameHoldsMarker(s: string, i: nat)
    requires AnonymousFrameAt(s, i).Some?
    ensures exists p | i + 3 <= p && p + |AnonymousMarker| < i + AnonymousFrameAt(s, i).value ::
              OccursAt(s, AnonymousMarker, p)
  {
    var w := SkipWhitespace(s, i);
    var v := SkipWhitespace(s, w + 2);
    var p := IndexOf(s, AnonymousMarker, v).value;
    assert i + 3 <= p && p + |AnonymousMarker| < i + AnonymousFrameAt(s, i).value;
  }

  /** The shape `^\s*\[.*?\]\s*` describes: whitespace from `i` to `w`, a
      `[` at `w`, no `]` and no line end before the `]` at `c`, and the
      whitespace run after it up to `i + n`. */
  ghost predicate BracketPrefix(s: string, i: nat, w: nat, c: nat, n: nat) {
    && i <= w < c < |s| && c < i + n <= |s|
    && (forall k | i <= k < w :: IsWhitespace(s[k]))
    && s[w] == '[' && s[c] == ']'
    && (forall k | w < k < c :: NotClosingOnLine(s[k]))
    && (forall k | c < k < i + n :: IsWhitespace(s[k]))
    && (i + n == |s| || !IsWhitespace(s[i + n]))
  }

  /** A bracketed prefix at the start of a line is matched whole. */
  lemma BracketPrefixMatches(s: string, i: nat, w: nat, c: nat, n: nat)
    requires LineStart(s, i) && BracketPrefix(s, i, w, c, n)
    ensures BracketPrefixAt(s, i) == Some(n)
  {
    SkipWhitespaceStops(s, i, w);
    SpanWhileStops(s, w + 1, c, NotClosingOnLine);
    SkipWhitespaceStops(s, c + 1, i + n);
  }

  /** Every match of the bracket pass has that shape. */
  lemma BracketPrefixShape(s: string, i: nat)
    requires BracketPrefixAt(s, i).Some?
    ensures exists w, c :: BracketPrefix(s, i, w, c, BracketPrefixAt(s, i).value)
  {
    var w := SkipWhitespace(s, i);
    var c := SpanWhile(s, w + 1, NotClosingOnLine);
    assert BracketPrefix(s, i, w, c, BracketPrefixAt(s, i).value);
  }

  /** No two neighbouring characters are both whitespace. */
  ghost predicate NoAdjacentWhitespace(s: string) {
    forall k | 0 < k < |s| :: !IsWhitespace(s[k - 1]) || !IsWhitespace(s[k])
  }

  /** Neither the first nor the last character is whitespace. */
  ghost predicate Trimmed(s: string) {
    s == [] || (!IsWhitespace(s[0]) && !IsWhitespace(s[|s| - 1]))
  }

  /** The six `replace` calls of `removeNoiseFromLog`, before the `trim`:
      each pass replaces a match by something no longer, and after the
      whitespace pass no two whitespace characters are adjacent, so the
      newline pass finds nothing to replace. */
  function StripNoise(log: string): (r: string)
    ensures |r| <= |log|
    ensures NoAdjacentWhitespace(r)
  {
    var a := ReplaceAll(AnonymousFrameAt, log, "");
    var b := ReplaceAll(BracketPrefixAt, a, "");
    var c := ReplaceAll(WebpackAt, b, "");
    var d := ReplaceAll(NodeModulesAt, c, "");
    var e := ReplaceAll(SpaceRunAt, d, " ");
    ReplaceShrinks(AnonymousFrameAt, log, "", 0);
    ReplaceShrinks(BracketPrefixAt, a, "", 0);
    ReplaceShrinks(WebpackAt, b, "", 0);
    ReplaceShrinks(NodeModulesAt, c, "", 0);
    ReplaceShrinks(SpaceRunAt, d, " ", 0);
    ReplaceShrinks(NewlineRunAt, e, "\n\n", 0);
    SpaceRunsCollapse(d, 0);
    NewlineStepIsIdle(e);
    ReplaceAll(NewlineRunAt, e, "\n\n")
  }

  /** `removeNoiseFromLog(log)`: the cleaned text is no longer than the log,
      starts and ends with a visible character, and never has two
      whitespace characters side by side. */
  function RemoveNoise(log: string): (r: string)
    ensures |r| <= |log|
    ensures Trimmed(r)
    ensures NoAdjacentWhitespace(r)
  {
    var stripped := StripNoise(log);
    TrimKeepsSeparation(stripped);
    Trim(stripped)
  }

  /** The whitespace step leaves no two adjacent whitespace characters, and
      what it produces from `from` on starts with whitespace only where the
      input does. */
  lemma {:induction false} SpaceRunsCollapse(s: string, from: nat)
    requires from <= |s|
    ensures var r := ReplaceFrom(SpaceRunAt, s, " ", from);
      && NoAdjacentWhitespace(r)
      && (r != [] && IsWhitespace(r[0]) ==> from < |s| && IsWhitespace(s[from]))
    decreases |s| - from
  {
    if from < |s| {
      var r := ReplaceFrom(SpaceRunAt, s, " ", from);
      match MatchAt(SpaceRunAt, s, from)
      case Some(n) =>
        SpaceRunsCollapse(s, from + n);
        var rest := ReplaceFrom(SpaceRunAt, s, " ", from + n);
        assert r == [' '] + rest;
        assert from + n == SkipWhitespace(s, from);
        ConsKeepsSeparation(' ', rest);
      case None =>
        SpaceRunsCollapse(s, from + 1);
        var rest := ReplaceFrom(SpaceRunAt, s, " ", from + 1);
        assert r == [s[from]] + rest;
        assert IsWhitespace(s[from]) ==> from + 1 == |s| || !IsWhitespace(s[from + 1]);
        ConsKeepsSeparation(s[from], rest);
    }
  }

  /** Putting a character in front keeps the separation when the two
      characters that meet are not both whitespace. */
  lemma ConsKeepsSeparation(x: char, rest: string)
    requires NoAdjacentWhitespace(rest)
    requires rest != [] && IsWhitespace(rest[0]) ==> !IsWhitespace(x)
    ensures NoAdjacentWhitespace([x] + rest)
  {
    var r := [x] + rest;
    assert forall k | 0 < k < |r| :: r[k] == rest[k - 1];
  }

  /** Without two adjacent whitespace characters there is no run of three
      newlines, and `replace(/\n{3,}/g, ...)` returns its input. */
  lemma NewlineStepIsIdle(s: string)
    requires NoAdjacentWhitespace(s)
    ensures ReplaceAll(NewlineRunAt, s, "\n\n") == s
  {
    forall i | 0 <= i < |s|
      ensures MatchAt(NewlineRunAt, s, i).None?
    {
      if i + 1 < |s| {
        assert !IsWhitespace(s[i]) || !IsWhitespace(s[i + 1]);
      }
    }
    ReplaceWithoutMatch(NewlineRunAt, s, "\n\n", 0);
  }

  /** Trimming keeps the separation of whitespace. */
  lemma TrimKeepsSeparation(s: string)
    requires NoAdjacentWhitespace(s)
    ensures NoAdjacentWhitespace(Trim(s))
  {
    var r := Trim(s);
    var a := SkipWhitespace(s, 0);
    assert forall k | 0 <= k < |r| :: r[k] == s[a + k];
  }

  /** On a single line the line-anchored patterns can only match at 0. */
  lemma AnchoredOnlyAtStart(s: string, i: nat)
    requires forall k | 0 <= k < |s| :: !IsLineTerminator(s[k])
    requires 0 < i
    ensures MatchAt(AnonymousFrameAt, s, i).None? && MatchAt(BracketPrefixAt, s, i).None?
  {
  }

  /** On a single line, removing a leading bracketed prefix is all the
      bracket step does. */
  lemma BracketStepOnOneLine(s: string, n: nat)
    requires forall k | 0 <= k < |s| :: !IsLineTerminator(s[k])
    requires MatchAt(BracketPrefixAt, s, 0) == Some(n)
    ensures ReplaceAll(BracketPrefixAt, s, "") == s[n..]
  {
    forall i | n <= i < |s|
      ensures MatchAt(BracketPrefixAt, s, i).None?
    {
      AnchoredOnlyAtStart(s, i);
    }
    ReplaceWithoutMatch(BracketPrefixAt, s, "", n);
  }

  /** A short line without adjacent whitespace goes through the last four
      replacements unchanged. */
  lemma QuietStepsIdle(s: string)
    requires |s| < 11 && NoAdjacentWhitespace(s)
    ensures ReplaceAll(WebpackAt, s, "") == s
    ensures ReplaceAll(NodeModulesAt, s, "") == s
    ensures ReplaceAll(SpaceRunAt, s, " ") == s
    ensures ReplaceAll(NewlineRunAt, s, "\n\n") == s
  {
    ReplaceWithoutMatch(WebpackAt, s, "", 0);
    ReplaceWithoutMatch(NodeModulesAt, s, "", 0);
    forall i | 0 <= i < |s|
      ensures MatchAt(SpaceRunAt, s, i).None?
    {
      if i + 1 < |s| {
        assert !IsWhitespace(s[i]) || !IsWhitespace(s[i + 1]);
      }
    }
    ReplaceWithoutMatch(SpaceRunAt, s, " ", 0);
    NewlineStepIsIdle(s);
  }

  /** Cleaning a one-line log with a leading bracketed prefix and no other
      noise drops the prefix. */
  lemma CleanLeadingBracket(s: string, n: nat)
    requires forall k | 0 <= k < |s| :: !IsLineTerminator(s[k])
    requires MatchAt(AnonymousFrameAt, s, 0).None?
    requires MatchAt(BracketPrefixAt, s, 0) == Some(n)
    requires |s| - n < 11 && NoAdjacentWhitespace(s[n..]) && Trimmed(s[n..])
    ensures RemoveNoise(s) == s[n..]
  {
    forall i | 0 <= i < |s|
      ensures MatchAt(AnonymousFrameAt, s, i).None?
    {
      if i > 0 {
        AnchoredOnlyAtStart(s, i);
      }
    }
    ReplaceWithoutMatch(AnonymousFrameAt, s, "", 0);
    assert s[0..] == s;
    BracketStepOnOneLine(s, n);
    QuietStepsIdle(s[n..]);
    var t := s[n..];
    assert StripNoise(s) == t;
    assert SkipWhitespace(t, 0) == 0;
  }

  /** The first pass drops only the first of two line-start brackets. */
  lemma FirstPassDropsOneBracket()
    ensures RemoveNoise("[a] [b] x") == "[b] x"
  {
    var s := "[a] [b] x";
    BracketLineCleans(s, 4);
    assert s[4..] == "[b] x";
  }

  lemma SecondPassDropsTheOther()
    ensures RemoveNoise("[b] x") == "x"
  {
    var s := "[b] x";
    BracketLineCleans(s, 4);
    assert s[4..] == "x";
  }

  /** A one-line log made of a one-letter bracket, a space and a short
      clean rest loses the bracket and the space. */
  lemma BracketLineCleans(s: string, n: nat)
    requires n == 4 && |s| >= 5 && s[0] == '[' && s[2] == ']' && s[3] == ' '
    requires s[1] != ']' && InLine(s[1]) && !IsWhitespace(s[4])
    requires |s| - n < 11 && NoAdjacentWhitespace(s[n..]) && Trimmed(s[n..])
    requires forall k | 0 <= k < |s| :: !IsLineTerminator(s[k])
    ensures RemoveNoise(s) == s[n..]
  {
    assert SkipWhitespace(s, 0) == 0;
    assert SpanWhile(s, 1, NotClosingOnLine) == 2;
    assert SkipWhitespace(s, 3) == 4;
    CleanLeadingBracket(s, 4);
  }

  /** Cleaning is not idempotent: a line-start bracket that the first pass
      uncovers is removed by a second pass. */
  lemma CleaningIsNotIdempotent()
    ensures RemoveNoise(RemoveNoise("[a] [b] x")) != RemoveNoise("[a] [b] x")
  {
    FirstPassDropsOneBracket();
    SecondPassDropsTheOther();
  }

  // ---------------------------------------------------------------------
  // Processing

  /** The entry a non-blank trimmed line gets. */
  function Describe(content: string, number: int): (l: LogLine)
    ensures l.lineNumber == number && l.content == content
    ensures l.timestamp.None? <==>
              forall j | 0 <= j < |TimestampFormats| :: FitsNowhere(TimestampFormats, j, content)
    ensures l.timestamp == ExtractTimestamp(content) && l.logLevel == DetectLogLevel(content)
    ensures l.logLevel == Some(ErrorLevel) <==> MentionsAny(content, LevelErrorTerms)
    ensures l.isError <==>
              MentionsAny(content, ErrorTerms) || exists c | c in StatusCodes :: Occurs(content, c)
  {
    LogLine(number, content, ExtractTimestamp(content), DetectLogLevel(content), IsErrorLine(content))
  }

  /** The entries for the first `k` lines of `parts`: each line is cut down
      by `trim`, and each that does not trim to nothing gets the entry
      `describe` makes of it and its number, counted from 1, in line order.
      Trimming and describing are parameters so that the proofs about the
      shape of the result do not depend on how they work; the processor
      passes `Trim` and `Describe`. */
  ghost function DescribeAll(
    trim: string -> string, describe: (string, int) -> LogLine, parts: seq<string>, k: nat): seq<LogLine>
    requires k <= |parts|
  {
    if k == 0 then []
    else
      var line := trim(parts[k - 1]);
      DescribeAll(trim, describe, parts, k - 1) + (if line != [] then [describe(line, k)] else [])
  }

  /** `LogProcessor.process`: split on `\n`, describe each non-blank trimmed
      line, and clean the whole text. */
  method Process(rawLog: string) returns (r: ProcessedLog)
    ensures r.originalLog == rawLog
    ensures r.cleanedLog == RemoveNoise(rawLog)
    ensures r.logLines == DescribeAll(Trim, Describe, Split(rawLog, '\n'), |Split(rawLog, '\n')|)
  {
    var parts := Split(rawLog, '\n');
    var entries := DescribeLines(parts);
    r := ProcessedLog(rawLog, RemoveNoise(rawLog), entries);
  }

  /** The loop of `process`: one entry per line that does not trim to
      nothing, in line order. */
  method DescribeLines(parts: seq<string>) returns (entries: seq<LogLine>)
    ensures entries == DescribeAll(Trim, Describe, parts, |parts|)
  {
    var trim, describe := Trim, Describe;
    entries := [];
    var i := 0;
    assert entries == DescribeAll(trim, describe, parts, i);
    while i < |parts|
      invariant 0 <= i <= |parts|
      invariant entries == DescribeAll(trim, describe, parts, i)
    {
      DescribeAllStep(trim, describe, parts, i);
      var line := trim(parts[i]);
      if line != [] {
        var entry := describe(line, i + 1);
        assert DescribeAll(trim, describe, parts, i + 1) == entries + [entry];
        entries := entries + [entry];
      } else {
        assert DescribeAll(trim, describe, parts, i + 1) == entries;
      }
      assert entries == DescribeAll(trim, describe, parts, i + 1);
      i := i + 1;
    }
  }

  /** One more line adds its entry, if it gets one, at the end. */
  lemma DescribeAllStep(
    trim: string -> string, describe: (string, int) -> LogLine, parts: seq<string>, i: nat)
    requires i < |parts|
    ensures DescribeAll(trim, describe, parts, i + 1) ==
              DescribeAll(trim, describe, parts, i)
              + (if trim(parts[i]) != [] then [describe(trim(parts[i]), i + 1)] else [])
  {
  }

  /** What processing `rawLog` yields. */
  ghost function Processed(rawLog: string): ProcessedLog {
    var parts := Split(rawLog, '\n');
    ProcessedLog(rawLog, RemoveNoise(rawLog), DescribeAll(Trim, Describe, parts, |parts|))
  }

  /** `entry` is what `describe` makes of line `entry.lineNumber` (counted
      from 1) of `parts`, and that line does not trim to nothing. */
  ghost predicate DescribesLine(
    trim: string -> string, describe: (string, int) -> LogLine, parts: seq<string>, entry: LogLine)
  {
    && 1 <= entry.lineNumber <= |parts|
    && trim(parts[entry.lineNumber - 1]) != []
    && entry == describe(trim(parts[entry.lineNumber - 1]), entry.lineNumber)
  }

  /** Some entry is for line `j + 1`. */
  ghost predicate HasEntryFor(entries: seq<LogLine>, j: nat) {
    exists m | 0 <= m < |entries| :: entries[m].lineNumber == j + 1
  }

  /** Every entry of the first `k` lines describes one of those lines, and
      there are at most `k` entries. */
  lemma {:induction false} EntriesDescribeLines(
    trim: string -> string, describe: (string, int) -> LogLine, parts: seq<string>, k: nat)
    requires k <= |parts|
    requires forall c, n :: describe(c, n).lineNumber == n
    ensures |DescribeAll(trim, describe, parts, k)| <= k
    ensures forall m | 0 <= m < |DescribeAll(trim, describe, parts, k)| ::
              && DescribesLine(trim, describe, parts, DescribeAll(trim, describe, parts, k)[m])
              && DescribeAll(trim, describe, parts, k)[m].lineNumber <= k
  {
    if k > 0 {
      EntriesDescribeLines(trim, describe, parts, k - 1);
      var before := DescribeAll(trim, describe, parts, k - 1);
      var all := DescribeAll(trim, describe, parts, k);
      var line := trim(parts[k - 1]);
      assert all == before + (if line != [] then [describe(line, k)] else []);
      assert |all| <= |before| + 1;
      forall m | 0 <= m < |all|
        ensures DescribesLine(trim, describe, parts, all[m]) && all[m].lineNumber <= k
      {
        if m < |before| {
          assert all[m] == before[m];
        } else {
          assert all[m] == describe(line, k);
        }
      }
    }
  }

  /** The entries are in strictly ascending line order. */
  lemma {:induction false} EntriesAscend(
    trim: string -> string, describe: (string, int) -> LogLine, parts: seq<string>, k: nat)
    requires k <= |parts|
    requires forall c, n :: describe(c, n).lineNumber == n
    ensures forall m, n | 0 <= m < n < |DescribeAll(trim, describe, parts, k)| ::
              DescribeAll(trim, describe, parts, k)[m].lineNumber
                < DescribeAll(trim, describe, parts, k)[n].lineNumber
  {
    if k > 0 {
      EntriesAscend(trim, describe, parts, k - 1);
      EntriesDescribeLines(trim, describe, parts, k - 1);
      var before := DescribeAll(trim, describe, parts, k - 1);
      var all := DescribeAll(trim, describe, parts, k);
      var line := trim(parts[k - 1]);
      assert all == before + (if line != [] then [describe(line, k)] else []);
      forall m, n | 0 <= m < n < |all|
        ensures all[m].lineNumber < all[n].lineNumber
      {
        assert all[m] == before[m];
        if n == |before| {
          assert all[n] == describe(line, k);
        } else {
          assert all[n] == before[n];
        }
      }
    }
  }

  /** Every line that does not trim to nothing has an entry. */
  lemma {:induction false} EntriesCoverLines(
    trim: string -> string, describe: (string, int) -> LogLine, parts: seq<string>, k: nat)
    requires k <= |parts|
    requires forall c, n :: describe(c, n).lineNumber == n
    ensures forall j {:trigger HasEntryFor(DescribeAll(trim, describe, parts, k), j)} | 0 <= j < k && trim(parts[j]) != [] ::
              HasEntryFor(DescribeAll(trim, describe, parts, k), j)
  {
    if k > 0 {
      EntriesCoverLines(trim, describe, parts, k - 1);
      var before := DescribeAll(trim, describe, parts, k - 1);
      var all := DescribeAll(trim, describe, parts, k);
      var line := trim(parts[k - 1]);
      assert all == before + (if line != [] then [describe(line, k)] else []);
      forall j | 0 <= j < k && trim(parts[j]) != []
        ensures HasEntryFor(all, j)
      {
        if j < k - 1 {
          assert HasEntryFor(before, j);
          var m :| 0 <= m < |before| && before[m].lineNumber == j + 1;
          assert all[m] == before[m];
        } else {
          assert all[|all| - 1].lineNumber == k;
        }
      }
    }
  }

  // ---------------------------------------------------------------------
  // Critical lines

  /** An entry that is an error line or at error level. */
  predicate IsCritical(l: LogLine) {
    l.isError || l.logLevel == Some(ErrorLevel)
  }

  /** The line numbers of the critical entries, in order. */
  function CriticalNumbers(lines: seq<LogLine>): (r: seq<int>)
    ensures |r| <= |lines|
    ensures forall n :: n in r <==>
              exists m | 0 <= m < |lines| :: IsCritical(lines[m]) && lines[m].lineNumber == n
  {
    if lines == [] then []
    else
      var rest := CriticalNumbers(lines[1..]);
      assert forall m | 0 < m < |lines| :: lines[m] == lines[1..][m - 1];
      assert forall m | 0 <= m < |lines| - 1 :: lines[1..][m] == lines[m + 1];
      (if IsCritical(lines[0]) then [lines[0].lineNumber] else []) + rest
  }

  /** `LogProcessor.identifyCriticalLines`: the first five critical lines. */
  function IdentifyCriticalLines(p: ProcessedLog): (r: seq<int>)
    ensures |r| <= 5
    ensures forall n | n in r ::
              exists m | 0 <= m < |p.logLines| :: IsCritical(p.logLines[m]) && p.logLines[m].lineNumber == n
    ensures |r| < 5 ==>
              forall m | 0 <= m < |p.logLines| && IsCritical(p.logLines[m]) :: p.logLines[m].lineNumber in r
  {
    var all := CriticalNumbers(p.logLines);
    if |all| <= 5 then all
    else
      assert forall n | n in all[..5] :: n in all;
      all[..5]
  }

  /** Numbers taken from entries in line order stay in line order. */
  lemma {:induction false} CriticalNumbersAscend(lines: seq<LogLine>)
    requires forall m, n | 0 <= m < n < |lines| :: lines[m].lineNumber < lines[n].lineNumber
    ensures forall a, b | 0 <= a < b < |CriticalNumbers(lines)| ::
              CriticalNumbers(lines)[a] < CriticalNumbers(lines)[b]
  {
    if lines != [] {
      var rest := CriticalNumbers(lines[1..]);
      CriticalNumbersAscend(lines[1..]);
      forall n | n in rest
        ensures lines[0].lineNumber < n
      {
        var m :| 0 <= m < |lines[1..]| && IsCritical(lines[1..][m]) && lines[1..][m].lineNumber == n;
        assert lines[m + 1] == lines[1..][m];
      }
      var all := CriticalNumbers(lines);
      if IsCritical(lines[0]) {
        assert all == [lines[0].lineNumber] + rest;
        forall a, b | 0 <= a < b < |all|
          ensures all[a] < all[b]
        {
          assert all[b] == rest[b - 1];
          if a > 0 {
            assert all[a] == rest[a - 1];
          } else {
            assert all[b] in rest;
          }
        }
      } else {
        assert all == rest;
      }
    }
  }

  /** What an error-level or error entry says about its text: it is an
      error line, or it mentions `fatal`, which only the level test knows. */
  lemma CriticalMeans(content: string, number: int)
    ensures IsCritical(Describe(content, number)) <==>
              IsErrorLine(content) || Occurs(Lower(content), "fatal")
  {
    var lower := Lower(content);
    assert MentionsAny(content, LevelErrorTerms) <==>
             Occurs(lower, "error") || Occurs(lower, "exception") || Occurs(lower, "fatal");
    assert "error" in ErrorTerms && "exception" in ErrorTerms;
  }

  /** Line `n` (1-based) of `parts` exists, and its trimmed text is an
      error line or mentions `fatal`. */
  ghost predicate CriticalPart(parts: seq<string>, n: int) {
    && 1 <= n <= |parts|
    && (IsErrorLine(Trim(parts[n - 1])) || Occurs(Lower(Trim(parts[n - 1])), "fatal"))
  }

  /** Line `n` (1-based) of `parts` exists, and the entry `describe` makes
      of its `trim`med text is critical. */
  ghost predicate CriticalLine(
    trim: string -> string, describe: (string, int) -> LogLine, parts: seq<string>, n: int)
  {
    1 <= n <= |parts| && IsCritical(describe(trim(parts[n - 1]), n))
  }

  /** A critical line number among entries that describe lines names a
      line whose entry is critical. */
  lemma {:induction false} CriticalNumberMeans(
    trim: string -> string, describe: (string, int) -> LogLine, parts: seq<string>, lines: seq<LogLine>, n: int)
    requires forall m | 0 <= m < |lines| :: DescribesLine(trim, describe, parts, lines[m])
    ensures n in CriticalNumbers(lines) ==> CriticalLine(trim, describe, parts, n)
  {
    if lines != [] {
      assert DescribesLine(trim, describe, parts, lines[0]);
      assert forall m | 0 <= m < |lines| - 1 :: lines[1..][m] == lines[m + 1];
      CriticalNumberMeans(trim, describe, parts, lines[1..], n);
    }
  }

  /** A line of a processed log whose entry is critical is an error line or
      mentions `fatal`. */
  lemma CriticalLineMeans(parts: seq<string>, n: int)
    ensures CriticalLine(Trim, Describe, parts, n) ==> CriticalPart(parts, n)
  {
    if 1 <= n <= |parts| {
      CriticalMeans(Trim(parts[n - 1]), n);
    }
  }

  /** When the entries are in line order, the critical lines come out in
      ascending order, and they are the first ones: every critical line
      left out comes after all that were kept. */
  lemma CriticalLinesAreFirst(p: ProcessedLog)
    requires forall m, n | 0 <= m < n < |p.logLines| :: p.logLines[m].lineNumber < p.logLines[n].lineNumber
    ensures forall a, b | 0 <= a < b < |IdentifyCriticalLines(p)| ::
              IdentifyCriticalLines(p)[a] < IdentifyCriticalLines(p)[b]
    ensures forall m, a | 0 <= m < |p.logLines| && 0 <= a < |IdentifyCriticalLines(p)| ::
              IsCritical(p.logLines[m]) && p.logLines[m].lineNumber !in IdentifyCriticalLines(p) ==>
                IdentifyCriticalLines(p)[a] < p.logLines[m].lineNumber
  {
    var all := CriticalNumbers(p.logLines);
    var r := IdentifyCriticalLines(p);
    CriticalNumbersAscend(p.logLines);
    forall m, a | 0 <= m < |p.logLines| && 0 <= a < |r| && IsCritical(p.logLines[m]) && p.logLines[m].lineNumber !in r
      ensures r[a] < p.logLines[m].lineNumber
    {
      var n := p.logLines[m].lineNumber;
      assert n in all;
      var i :| 0 <= i < |all| && all[i] == n;
      assert forall j | 0 <= j < |r| :: r[j] == all[j];
    }
  }

  /** The critical lines of a processed log, whose entries were made from
      the raw log's lines `parts` (as `Process` makes them from
      `Split(rawLog, '\n')`), are in ascending order. */
  lemma CriticalLinesAscend(parts: seq<string>, r: ProcessedLog)
    requires r.logLines == DescribeAll(Trim, Describe, parts, |parts|)
    ensures forall a, b | 0 <= a < b < |IdentifyCriticalLines(r)| ::
              IdentifyCriticalLines(r)[a] < IdentifyCriticalLines(r)[b]
  {
    EntriesAscend(Trim, Describe, parts, |parts|);
    CriticalLinesAreFirst(r);
  }

  /** Each critical line of entries made from `parts` by `trim` and
      `describe` names a line whose entry is critical. */
  lemma CriticalLinesAreCriticalEntries(
    trim: string -> string, describe: (string, int) -> LogLine, parts: seq<string>, r: ProcessedLog)
    requires forall c, n :: describe(c, n).lineNumber == n
    requires r.logLines == DescribeAll(trim, describe, parts, |parts|)
    ensures forall n | n in IdentifyCriticalLines(r) :: CriticalLine(trim, describe, parts, n)
  {
    EntriesDescribeLines(trim, describe, parts, |parts|);
    var all := CriticalNumbers(r.logLines);
    assert forall n | n in IdentifyCriticalLines(r) :: n in all by {
      assert IdentifyCriticalLines(r) == all || IdentifyCriticalLines(r) == all[..5];
    }
    forall n | n in IdentifyCriticalLines(r)
      ensures CriticalLine(trim, describe, parts, n)
    {
      CriticalNumberMeans(trim, describe, parts, r.logLines, n);
    }
  }

  /** Each critical line of such a processed log names a line of `parts`
      whose trimmed text is an error line or mentions `fatal`. */
  lemma CriticalLinesNameParts(parts: seq<string>, r: ProcessedLog)
    requires r.logLines == DescribeAll(Trim, Describe, parts, |parts|)
    ensures forall n | n in IdentifyCriticalLines(r) :: CriticalPart(parts, n)
  {
    CriticalLinesAreCriticalEntries(Trim, Describe, parts, r);
    forall n | CriticalLine(Trim, Describe, parts, n)
      ensures CriticalPart(parts, n)
    {
      CriticalLineMeans(parts, n);
    }
  }

  /** `fatal` puts a line at error level without making it an error line,
      so the level test adds critical lines of its own. */
  lemma FatalIsErrorLevel()
    ensures DetectLogLevel("fatal") == Some(ErrorLevel)
  {
    var s := "fatal";
    assert Lower(s) == s;
    assert OccursAt(Lower(s), "fatal", 0);
    assert "fatal" in LevelErrorTerms;
  }

  lemma FatalIsNotAnErrorLine()
    ensures !IsErrorLine("fatal")
  {
    var s := "fatal";
    assert Lower(s) == s;
    forall w | w in ErrorTerms
      ensures !Occurs(s, w)
    {
      if |w| <= |s| {
        assert w == "error" || w == "cors";
        forall k | 0 <= k
          ensures !OccursAt(s, w, k)
        {
          if k + |w| <= |s| {
            assert s[k..k + |w|][0] == s[k] != w[0];
          }
        }
      }
    }
    forall c | c in StatusCodes
      ensures !Occurs(s, c)
    {
      forall k | 0 <= k
        ensures !OccursAt(s, c, k)
      {
        if k + |c| <= |s| {
          assert s[k..k + |c|][0] == s[k] != c[0];
        }
      }
    }
  }

  lemma FatalLineIsCritical()
    ensures IsCritical(Describe("fatal", 1)) && !IsErrorLine("fatal")
  {
    FatalIsErrorLevel();
    FatalIsNotAnErrorLine();
  }
}
