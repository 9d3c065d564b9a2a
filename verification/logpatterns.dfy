/** The pattern table `LOG_PATTERNS` of the highlighter, each regular
    expression written out as a matcher, and what the fixed family order
    implies for real log lines. */
module LogPatterns {
  import opened Wrappers
  import opened Strings
  import opened Matching
  import opened Highlighter

  // ---------------------------------------------------------------------
  // Timestamps

  /** `\d{4}-\d{2}-\d{2}[T ]\d{2}:\d{2}:\d{2}` */
  const IsoDateTime: seq<Cell> :=
    Digits(4) + [Exactly('-')] + Digits(2) + [Exactly('-')] + Digits(2) + [Either('T', ' ')]
    + Digits(2) + [Exactly(':')] + Digits(2) + [Exactly(':')] + Digits(2)

  /** `\.\d{3}` */
  const IsoFraction: seq<Cell> := [Exactly('.')] + Digits(3)

  /** `[+-]\d{2}:\d{2}` */
  const IsoOffset: seq<Cell> := [Either('+', '-')] + Digits(2) + [Exactly(':')] + Digits(2)

  /** `\d{2}\/\d{2}\/\d{4} \d{2}:\d{2}:\d{2}` */
  const UsDateTime: seq<Cell> :=
    Digits(2) + [Exactly('/')] + Digits(2) + [Exactly('/')] + Digits(4) + [Exactly(' ')]
    + Digits(2) + [Exactly(':')] + Digits(2) + [Exactly(':')] + Digits(2)

  /** `\d{2}-\d{2}-\d{4} \d{2}:\d{2}:\d{2}` */
  const EuDateTime: seq<Cell> :=
    Digits(2) + [Exactly('-')] + Digits(2) + [Exactly('-')] + Digits(4) + [Exactly(' ')]
    + Digits(2) + [Exactly(':')] + Digits(2) + [Exactly(':')] + Digits(2)

  /** `\[\d{2}:\d{2}:\d{2}\]` */
  const BracketTime: seq<Cell> :=
    [Exactly('[')] + Digits(2) + [Exactly(':')] + Digits(2) + [Exactly(':')] + Digits(2) + [Exactly(']')]

  /** A fixed-width pattern as a matcher. */
  function FixedAt(t: seq<Cell>, s: string, i: nat): (r: Option<nat>)
    ensures r.Some? <==> FitsAt(t, s, i)
    ensures r.Some? ==> r.value == |t|
  {
    if FitsAt(t, s, i) then Some(|t|) else None
  }

  /** The ISO pattern: date and time, then the optional milliseconds and the
      optional zone, each taken whenever it is there (nothing follows them
      that could make the engine give them back). */
  function IsoTimestampAt(s: string, i: nat): (r: Option<nat>)
    ensures r.Some? <==> FitsAt(IsoDateTime, s, i)
    ensures r.Some? ==> 19 <= r.value <= 29 && i + r.value <= |s|
  {
    if !FitsAt(IsoDateTime, s, i) then None
    else
      var n := if FitsAt(IsoFraction, s, i + 19) then 23 else 19;
      var z := if i + n < |s| && s[i + n] == 'Z' then 1
               else if FitsAt(IsoOffset, s, i + n) then 6
               else 0;
      Some(n + z)
  }

  /** The ISO pattern can match `n` characters at `i` taking the
      milliseconds when `frac` and a zone of `zone` characters: none, `Z`,
      or an offset such as `+02:00`. */
  ghost predicate IsoFits(s: string, i: nat, frac: bool, zone: nat, n: nat) {
    var m := i + 19 + (if frac then 4 else 0);
    && FitsAt(IsoDateTime, s, i)
    && (frac ==> FitsAt(IsoFraction, s, i + 19))
    && (|| zone == 0
        || (zone == 1 && m < |s| && s[m] == 'Z')
        || (zone == 6 && FitsAt(IsoOffset, s, m)))
    && n == m + zone - i
  }

  /** Every way the ISO pattern can match at `i` is matched, and the match
      is at least as long: the milliseconds and the zone are taken
      whenever they are there. */
  lemma IsoTimestampIsLongest(s: string, i: nat, frac: bool, zone: nat, n: nat)
    requires IsoFits(s, i, frac, zone, n)
    ensures IsoTimestampAt(s, i).Some? && n <= IsoTimestampAt(s, i).value
  {
  }

  /** The ISO match is one of the ways the pattern can match. */
  lemma IsoTimestampFits(s: string, i: nat)
    requires IsoTimestampAt(s, i).Some?
    ensures exists frac: bool, zone: nat :: IsoFits(s, i, frac, zone, IsoTimestampAt(s, i).value)
  {
    var frac := FitsAt(IsoFraction, s, i + 19);
    var m := i + 19 + (if frac then 4 else 0);
    var zone := if m < |s| && s[m] == 'Z' then 1 else if FitsAt(IsoOffset, s, m) then 6 else 0;
    assert IsoFits(s, i, frac, zone, IsoTimestampAt(s, i).value);
  }

  function UsTimestampAt(s: string, i: nat): Option<nat> { FixedAt(UsDateTime, s, i) }
  function EuTimestampAt(s: string, i: nat): Option<nat> { FixedAt(EuDateTime, s, i) }
  function BracketTimeAt(s: string, i: nat): Option<nat> { FixedAt(BracketTime, s, i) }

  // ---------------------------------------------------------------------
  // Keywords

  /** The alternatives of the `level` pattern, in source order. */
  const LevelWords: seq<string> := ["ERROR", "WARN", "WARNING", "INFO", "DEBUG", "TRACE", "FATAL", "SEVERE"]

  /** The alternatives of the `error` pattern, in source order. */
  const ErrorWords: seq<string> :=
    ["error", "exception", "failed", "failure", "undefined", "null", "cannot", "invalid",
     "missing", "not found", "denied", "forbidden", "timeout", "refused"]

  /** The alternatives of the `warning` pattern, in source order. */
  const WarningWords: seq<string> := ["warn", "warning", "deprecated", "obsolete", "slow", "performance", "memory"]

  function LevelAt(s: string, i: nat): Option<nat> { KeywordAt(LevelWords, s, i) }
  function ErrorWordAt(s: string, i: nat): Option<nat> { KeywordAt(ErrorWords, s, i) }
  function WarningWordAt(s: string, i: nat): Option<nat> { KeywordAt(WarningWords, s, i) }

  // ---------------------------------------------------------------------
  // URLs, paths, stack frames, strings, numbers

  predicate NotWhitespace(c: char) { !IsWhitespace(c) }

  /** `https?:\/\/[^\s]+`: the scheme, then at least one non-whitespace
      character, as many as there are. (When `https://` is present, the
      shorter alternative `http://` cannot match at the same place.) */
  function UrlAt(s: string, i: nat): (r: Option<nat>)
    ensures r.Some? ==> i + r.value <= |s|
    ensures r.Some? <==>
              || (OccursAt(s, "https://", i) && i + 8 < |s| && !IsWhitespace(s[i + 8]))
              || (OccursAt(s, "http://", i) && i + 7 < |s| && !IsWhitespace(s[i + 7]))
    ensures r.Some? ==> r.value > (if OccursAt(s, "https://", i) then 8 else 7)
    ensures r.Some? ==> forall k | i + 7 <= k < i + r.value :: !IsWhitespace(s[k])
    ensures r.Some? ==> i + r.value == |s| || IsWhitespace(s[i + r.value])
  {
    SchemesExclude(s, i);
    var p := if OccursAt(s, "https://", i) then i + 8
             else if OccursAt(s, "http://", i) then i + 7
             else i;
    if p == i then None
    else
      var e := SpanWhile(s, p, NotWhitespace);
      if p < e then Some(e - i) else None
  }

  /** `https://` and `http://` never both start at one place. */
  lemma SchemesExclude(s: string, i: nat)
    ensures !(OccursAt(s, "https://", i) && OccursAt(s, "http://", i))
  {
    if OccursAt(s, "https://", i) {
      assert s[i + 4] == "https://"[4];
    }
  }

  /** The extensions of the `file` pattern, in the order of its alternation. */
  const FileExtensions: seq<string> :=
    ["js", "ts", "jsx", "tsx", "py", "java", "cpp", "c", "h", "go", "rs", "php", "rb", "css",
     "html", "json", "xml", "log"]

  /** The first extension, in alternation order, written at `j`. Nothing
      follows the alternation, so the first one that fits is the one taken,
      even when a longer one would fit too. */
  function ExtensionAt(s: string, j: nat, exts: seq<string>): (r: Option<nat>)
    decreases |exts|
    ensures r.Some? ==> j + r.value <= |s|
  {
    if exts == [] then None
    else if OccursAt(s, exts[0], j) then Some(|exts[0]|)
    else ExtensionAt(s, j, exts[1..])
  }

  /** The alternation takes the first extension in list order that is
      written at `j`, and none when no extension is. */
  lemma {:induction false} ExtensionAtFirst(s: string, j: nat, exts: seq<string>)
    ensures ExtensionAt(s, j, exts).None? <==> forall k | 0 <= k < |exts| :: !OccursAt(s, exts[k], j)
    ensures ExtensionAt(s, j, exts).Some? ==>
              exists k | 0 <= k < |exts| ::
                && OccursAt(s, exts[k], j) && |exts[k]| == ExtensionAt(s, j, exts).value
                && forall k' | 0 <= k' < k :: !OccursAt(s, exts[k'], j)
    decreases |exts|
  {
    if exts != [] && !OccursAt(s, exts[0], j) {
      ExtensionAtFirst(s, j, exts[1..]);
      if ExtensionAt(s, j, exts).Some? {
        var k :| 0 <= k < |exts[1..]| && OccursAt(s, exts[1..][k], j)
                 && |exts[1..][k]| == ExtensionAt(s, j, exts).value
                 && forall k' | 0 <= k' < k :: !OccursAt(s, exts[1..][k'], j);
        assert exts[k + 1] == exts[1..][k];
        forall k' | 0 <= k' < k + 1
          ensures !OccursAt(s, exts[k'], j)
        {
          if k' > 0 {
            assert exts[k'] == exts[1..][k' - 1];
          }
        }
      }
      forall k | 1 <= k < |exts|
        ensures exts[k] == exts[1..][k - 1]
      {
      }
    }
  }

  /** Extensions that are not written at `j` are passed over. */
  lemma {:induction false} ExtensionAtSkips(s: string, j: nat, exts: seq<string>, n: nat)
    requires n <= |exts|
    requires forall k | 0 <= k < n :: !OccursAt(s, exts[k], j)
    ensures ExtensionAt(s, j, exts) == ExtensionAt(s, j, exts[n..])
    decreases n
  {
    if n > 0 {
      assert !OccursAt(s, exts[0], j);
      assert exts[1..][n - 1..] == exts[n..];
      ExtensionAtSkips(s, j, exts[1..], n - 1);
    }
  }

  /** The alternation takes the extension at index `k` when it is written at
      `j` and none before it is. */
  lemma ExtensionAtFirstFit(s: string, j: nat, exts: seq<string>, k: nat)
    requires k < |exts| && OccursAt(s, exts[k], j)
    requires forall k' | 0 <= k' < k :: !OccursAt(s, exts[k'], j)
    ensures ExtensionAt(s, j, exts) == Some(|exts[k]|)
  {
    ExtensionAtSkips(s, j, exts, k);
    assert exts[k..][0] == exts[k];
  }

  /** A character of `[^\s:]`. */
  predicate PathChar(c: char) { !IsWhitespace(c) && c != ':' }

  /** A `.` at `d` with one of `exts` right after it. */
  predicate ExtensionDot(exts: seq<string>, s: string, d: nat) {
    d < |s| && s[d] == '.' && ExtensionAt(s, d + 1, exts).Some?
  }

  /** The right-most `.` in `[lo, k)` that is followed by an extension: where
      the greedy `[^\s:]+` ends once the engine has backed off far enough for
      `\.(ext)` to match. */
  function LastExtensionDot(exts: seq<string>, s: string, lo: nat, k: nat): (r: Option<nat>)
    requires k <= |s|
    decreases k
    ensures r.Some? ==> lo <= r.value < k && ExtensionDot(exts, s, r.value)
    ensures forall d | lo <= d < k && (r.None? || r.value < d) :: !ExtensionDot(exts, s, d)
  {
    if k <= lo then None
    else if ExtensionDot(exts, s, k - 1) then Some(k - 1)
    else LastExtensionDot(exts, s, lo, k - 1)
  }

  /** `(?:[a-zA-Z]:)?(?:\/|\\)[^\s:]+\.(?:ext1|ext2|...)`. A drive prefix is
      taken when present; without it the match would have to start with a
      slash where the letter is, so dropping it never helps. */
  function PathWithExtensionAt(exts: seq<string>, s: string, i: nat): (r: Option<nat>)
    ensures r.Some? ==> i + r.value <= |s|
    ensures r.Some? ==> i < |s|
  {
    var p := if i + 1 < |s| && IsAsciiLetter(s[i]) && s[i + 1] == ':' then i + 2 else i;
    if p < |s| && (s[p] == '/' || s[p] == '\\') then
      var e := SpanWhile(s, p + 1, PathChar);
      match LastExtensionDot(exts, s, p + 2, e)
      case Some(d) => Some(d + 1 + ExtensionAt(s, d + 1, exts).value - i)
      case None => None
    else None
  }

  /** A file path starts at a slash or backslash, or at a drive letter, a
      colon and a slash or backslash. */
  lemma PathStartsAtSeparatorOrDrive(exts: seq<string>, s: string, i: nat)
    requires PathWithExtensionAt(exts, s, i).Some?
    ensures i < |s|
    ensures || s[i] == '/' || s[i] == '\\'
            || (IsAsciiLetter(s[i]) && i + 2 < |s| && s[i + 1] == ':' && (s[i + 2] == '/' || s[i + 2] == '\\'))
  {
  }

  /** A slash at `i` followed by a `[^\s:]` run that ends at `e`. */
  ghost predicate SlashRun(s: string, i: nat, e: nat) {
    && i < |s| && s[i] == '/'
    && e <= |s| && (forall k | i + 1 <= k < e :: PathChar(s[k]))
    && (e == |s| || !PathChar(s[e]))
  }

  /** A path that starts with a slash ends after the extension that follows
      the last suitable dot of its `[^\s:]` run. */
  lemma SlashPathMatch(exts: seq<string>, s: string, i: nat, e: nat, d: nat, n: nat)
    requires SlashRun(s, i, e)
    requires LastExtensionDot(exts, s, i + 2, e) == Some(d)
    requires ExtensionAt(s, d + 1, exts) == Some(n)
    ensures PathWithExtensionAt(exts, s, i) == Some(d + 1 + n - i)
  {
    SpanWhileStops(s, i + 1, e, PathChar);
  }

  /** A slash path made only of `[^\s:]` characters, whose last dot comes
      right before `j`, ends after the extension the alternation picks at `j`. */
  lemma LastDotPathMatch(exts: seq<string>, s: string, j: nat, n: nat)
    requires 3 <= j <= |s| && s[0] == '/' && s[j - 1] == '.'
    requires forall k | 1 <= k < |s| :: PathChar(s[k])
    requires forall k | j <= k < |s| :: s[k] != '.'
    requires ExtensionAt(s, j, exts) == Some(n)
    ensures PathWithExtensionAt(exts, s, 0) == Some(j + n)
  {
    assert SlashRun(s, 0, |s|);
    assert ExtensionDot(exts, s, j - 1);
    assert LastExtensionDot(exts, s, 2, |s|) == Some(j - 1);
    SlashPathMatch(exts, s, 0, |s|, j - 1, n);
  }

  /** The `file` pattern. */
  function FilePathAt(s: string, i: nat): Option<nat> { PathWithExtensionAt(FileExtensions, s, i) }

  /** `^\s*at\s+.*$` with the `m` flag: leading whitespace, `at`, at least one
      whitespace character, then the rest of the line. `\s` also matches line
      terminators, so the leading and the separating whitespace may run over
      line ends. */
  function StackFrameAt(s: string, i: nat): (r: Option<nat>)
    ensures r.Some? ==> i + r.value <= |s|
    ensures r.Some? ==> LineStart(s, i) && (i + r.value == |s| || IsLineTerminator(s[i + r.value]))
  {
    if !LineStart(s, i) || i > |s| then None
    else
      var w := SkipWhitespace(s, i);
      if !OccursAt(s, "at", w) then None
      else
        var v := SkipWhitespace(s, w + 2);
        if v == w + 2 then None
        else Some(SpanWhile(s, v, InLine) - i)
  }

  predicate IsQuote(c: char) { c == '"' || c == '\'' || c == '`' }

  /** `"[^"]*"|'[^']*'|`[^`]*``: a quote, then everything up to the next
      quote of the same kind. */
  function QuotedAt(s: string, i: nat): (r: Option<nat>)
    ensures r.Some? ==> i + r.value <= |s|
    ensures r.Some? <==> i < |s| && IsQuote(s[i]) && exists j | i < j < |s| :: s[j] == s[i]
    ensures r.Some? ==> r.value >= 2 && s[i + r.value - 1] == s[i]
    ensures r.Some? ==> forall k | i < k < i + r.value - 1 :: s[k] != s[i]
  {
    if i < |s| && IsQuote(s[i]) then
      var j := IndexOfChar(s, s[i], i + 1);
      if j < |s| then Some(j + 1 - i) else None
    else None
  }

  /** `\b\d+(?:\.\d+)?\b`. The fraction is taken when it is there and a word
      boundary follows it; otherwise the engine falls back to the integer
      part, which needs a word boundary of its own. */
  function NumberAt(s: string, i: nat): (r: Option<nat>)
    ensures r.Some? ==> i + r.value <= |s|
    ensures r.Some? <==>
              i < |s| && IsDigit(s[i]) && WordBoundary(s, i) && WordBoundary(s, SpanWhile(s, i, IsDigit))
    ensures r.Some? ==> WordBoundary(s, i) && WordBoundary(s, i + r.value) && IsNumeral(s[i..i + r.value])
  {
    if !(i < |s| && IsDigit(s[i]) && WordBoundary(s, i)) then None
    else
      var e := SpanWhile(s, i, IsDigit);
      if e + 1 < |s| && s[e] == '.' && IsDigit(s[e + 1]) && WordBoundary(s, SpanWhile(s, e + 1, IsDigit)) then
        var f := SpanWhile(s, e + 1, IsDigit);
        FractionIsNumeral(s, i, e, f);
        Some(f - i)
      else if WordBoundary(s, e) then
        assert AllDigits(s[i..e]);
        Some(e - i)
      else None
  }

  predicate AllDigits(t: string) {
    forall k | 0 <= k < |t| :: IsDigit(t[k])
  }

  /** What `\d+(?:\.\d+)?` matches: digits, optionally followed by a point
      and more digits. */
  ghost predicate IsNumeral(t: string) {
    || (t != [] && AllDigits(t))
    || exists d | 0 < d < |t| - 1 :: t[d] == '.' && AllDigits(t[..d]) && AllDigits(t[d + 1..])
  }

  lemma FractionIsNumeral(s: string, i: nat, e: nat, f: nat)
    requires i < e < e + 1 < f <= |s| && s[e] == '.'
    requires forall k | i <= k < e :: IsDigit(s[k])
    requires forall k | e + 1 <= k < f :: IsDigit(s[k])
    ensures IsNumeral(s[i..f])
  {
    var t := s[i..f];
    var d := e - i;
    assert t[d] == '.';
    assert t[..d] == s[i..e];
    assert t[d + 1..] == s[e + 1..f];
  }

  /** `NumberAt` finds the match the regular expression finds: whenever some
      numeral starting at `i` lies between two word boundaries, there is a
      match at `i`, and it is at least as long. */
  lemma NumberAtIsLongest(s: string, i: nat, n: nat)
    requires i + n <= |s|
    requires WordBoundary(s, i) && IsNumeral(s[i..i + n]) && WordBoundary(s, i + n)
    ensures NumberAt(s, i).Some? && n <= NumberAt(s, i).value
  {
    var t := s[i..i + n];
    NumeralStartsWithDigit(t);
    assert t[0] == s[i];
    var e := SpanWhile(s, i, IsDigit);
    if t != [] && AllDigits(t) {
      DigitRunEnds(s, i, n);
      assert i + n == e;
    } else {
      var d :| 0 < d < |t| - 1 && t[d] == '.' && AllDigits(t[..d]) && AllDigits(t[d + 1..]);
      assert t[..d] == s[i..i + d] && t[d + 1..] == s[i + d + 1..i + n];
      NumeralSplit(s, i, n, d, e);
    }
  }

  /** A numeral starts with a digit. */
  lemma NumeralStartsWithDigit(t: string)
    requires IsNumeral(t)
    ensures t != [] && IsDigit(t[0])
  {
    if !(t != [] && AllDigits(t)) {
      var d :| 0 < d < |t| - 1 && t[d] == '.' && AllDigits(t[..d]) && AllDigits(t[d + 1..]);
      assert t[..d][0] == t[0];
    }
  }

  /** A digit run that ends at a word boundary is the whole `\d+` run. */
  lemma DigitRunEnds(s: string, i: nat, n: nat)
    requires 0 < n && i + n <= |s| && AllDigits(s[i..i + n]) && WordBoundary(s, i + n)
    ensures SpanWhile(s, i, IsDigit) == i + n
  {
    forall k | i <= k < i + n ensures IsDigit(s[k]) {
      assert s[i..i + n][k - i] == s[k];
    }
    assert IsDigit(s[i + n - 1]);
    SpanWhileStops(s, i, i + n, IsDigit);
  }

  /** A numeral with a fraction starting at `i`: its point is the first
      non-digit, and the match takes its fraction. */
  lemma NumeralSplit(s: string, i: nat, n: nat, d: nat, e: nat)
    requires i + n <= |s| && 0 < d < n - 1
    requires s[i + d] == '.' && AllDigits(s[i..i + d]) && AllDigits(s[i + d + 1..i + n])
    requires WordBoundary(s, i) && WordBoundary(s, i + n)
    requires e == SpanWhile(s, i, IsDigit)
    ensures NumberAt(s, i).Some? && n <= NumberAt(s, i).value
  {
    assert IsDigit(s[i]) by { assert s[i..i + d][0] == s[i]; }
    assert e == i + d by {
      forall k | i <= k < i + d ensures IsDigit(s[k]) {
        assert s[i..i + d][k - i] == s[k];
      }
      SpanWhileStops(s, i, i + d, IsDigit);
    }
    assert IsDigit(s[e + 1]) by { assert s[i + d + 1..i + n][0] == s[e + 1]; }
    var f := SpanWhile(s, e + 1, IsDigit);
    forall k | e + 1 <= k < i + n ensures IsDigit(s[k]) {
      assert s[i + d + 1..i + n][k - (e + 1)] == s[k];
    }
    assert f == i + n;
  }

  // ---------------------------------------------------------------------
  // The table

  /** The nine `applyPattern` calls of `highlightLine`, in their order. The
      `prefix` entry of the table is never applied and is not listed. */
  const Catalog: seq<PatternFamily> := [
    PatternFamily(TimestampToken, [IsoTimestampAt, UsTimestampAt, EuTimestampAt, BracketTimeAt]),
    PatternFamily(LevelToken, [LevelAt]),
    PatternFamily(UrlToken, [UrlAt]),
    PatternFamily(FileToken, [FilePathAt]),
    PatternFamily(StacktraceToken, [StackFrameAt]),
    PatternFamily(StringToken, [QuotedAt]),
    PatternFamily(NumberToken, [NumberAt]),
    PatternFamily(ErrorToken, [ErrorWordAt]),
    PatternFamily(WarningToken, [WarningWordAt])
  ]

  /** `highlightLine(content, lineNumber)`. */
  function HighlightLine(content: string, lineNumber: int): (r: HighlightedLine)
    ensures r.originalContent == content && r.lineNumber == lineNumber
    ensures r.level == DetermineLineLevel(content)
    ensures forall t | t in r.tokens :: ValidToken(content, t)
    ensures StrictlyOrdered(r.tokens)
    ensures forall p | 0 <= p < |content| && !IsWhitespace(content[p]) :: CoveredBy(r.tokens, p)
    ensures r.tokens == [] <==> AllWhitespace(content)
  {
    CatalogIsVisible();
    WhitespaceLineHasNoTokens(Catalog, content);
    Highlight(Catalog, content, lineNumber)
  }

  /** Each line of `lines` passed through `f` with its 1-based position. */
  function NumberLines(lines: seq<string>, f: (string, int) -> HighlightedLine): (r: seq<HighlightedLine>)
    requires forall c, n :: f(c, n).originalContent == c && f(c, n).lineNumber == n
    ensures |r| == |lines|
    ensures forall k | 0 <= k < |r| :: r[k].lineNumber == k + 1 && r[k].originalContent == lines[k]
    ensures forall k | 0 <= k < |r| :: r[k] == f(lines[k], k + 1)
  {
    seq(|lines|, k requires 0 <= k < |lines| => f(lines[k], k + 1))
  }

  /** The lines the log view renders: `logContent.split('\n')`, each line
      highlighted with its 1-based position as line number. */
  function HighlightLog(log: string): (r: seq<HighlightedLine>)
    ensures |r| == |Split(log, '\n')|
    ensures forall k | 0 <= k < |r| ::
              r[k].lineNumber == k + 1 && r[k].originalContent == Split(log, '\n')[k]
    ensures forall k | 0 <= k < |r| :: r[k] == HighlightLine(Split(log, '\n')[k], k + 1)
    ensures Join(seq(|r|, k requires 0 <= k < |r| => r[k].originalContent), '\n') == log
  {
    var lines := Split(log, '\n');
    var r := NumberLines(lines, HighlightLine);
    assert seq(|r|, k requires 0 <= k < |r| => r[k].originalContent) == lines;
    SplitJoin(log, '\n');
    r
  }

  // ---------------------------------------------------------------------
  // Facts about the table

  /** Every family of the table has a kind of its own, and none is `text`. */
  lemma CatalogKinds()
    ensures KindsOf(Catalog[..2]) == {TimestampToken, LevelToken}
    ensures KindsOf(Catalog[..4]) == {TimestampToken, LevelToken, UrlToken, FileToken}
    ensures TextToken !in KindsOf(Catalog)
  {
    var c2 := Catalog[..2];
    var c4 := Catalog[..4];
    assert c2[0].kind == TimestampToken && c2[1].kind == LevelToken;
    assert c4[2].kind == UrlToken && c4[3].kind == FileToken;
    assert forall k | 0 <= k < |Catalog| :: Catalog[k].kind != TextToken;
  }

  /** The file family, fourth in priority order, holds the path pattern; no
      family up to it makes stack-frame tokens and none makes text tokens. */
  lemma FileFamilyHoldsPath()
    ensures 3 < |Catalog| && FilePathAt in Catalog[3].patterns
    ensures TextToken !in KindsOf(Catalog) && StacktraceToken !in KindsOf(Catalog[..4])
  {
    CatalogKinds();
  }

  /** A word made of ASCII letters only. */
  ghost predicate AllLetters(w: string) {
    forall k | 0 <= k < |w| :: IsAsciiLetter(w[k])
  }

  /** Every word of `words` is a non-empty word of letters. */
  ghost predicate Lettered(words: seq<string>) {
    forall w | w in words :: |w| > 0 && AllLetters(w)
  }

  lemma LevelWordsAreLetters()
    ensures Lettered(LevelWords)
  {
  }

  /** Every word of `words` starts with a letter. */
  ghost predicate LetterInitials(words: seq<string>) {
    forall k | 0 <= k < |words| :: |words[k]| > 0 && IsAsciiLetter(words[k][0])
  }

  lemma KeywordsStartWithLetters()
    ensures LetterInitials(LevelWords) && LetterInitials(ErrorWords) && LetterInitials(WarningWords)
  {
    assert LetterInitials(LevelWords);
    assert LetterInitials(WarningWords);
    assert LetterInitials(ErrorWords[..7]);
    assert LetterInitials(ErrorWords[7..]);
    assert forall k | 7 <= k < |ErrorWords| :: ErrorWords[k] == ErrorWords[7..][k - 7];
  }

  /** Where a word of letters matches ignoring case, the subject holds
      letters too. */
  lemma LettersIgnoringCase(s: string, w: string, i: nat)
    requires StartsWithIgnoringCase(s, w, i)
    ensures forall k | 0 <= k < |w| :: IsAsciiLetter(w[k]) ==> IsAsciiLetter(s[i + k])
  {
    forall k | 0 <= k < |w|
      ensures IsAsciiLetter(w[k]) ==> IsAsciiLetter(s[i + k])
    {
      assert Lower(s[i..i + |w|])[k] == LowerChar(s[i + k]);
      assert Lower(w)[k] == LowerChar(w[k]);
    }
  }

  /** A keyword match begins with the keyword's first letter, whatever its
      case. */
  lemma KeywordMatchVisible(words: seq<string>, s: string, i: nat)
    requires LetterInitials(words)
    ensures KeywordAt(words, s, i).Some? ==> i < |s| && IsAsciiLetter(s[i])
  {
    if KeywordAt(words, s, i).Some? {
      var w :| w in words && |w| == KeywordAt(words, s, i).value
               && StartsWithIgnoringCase(s, w, i) && WordBoundary(s, i + |w|);
      var k :| 0 <= k < |words| && words[k] == w;
      LettersIgnoringCase(s, w, i);
    }
  }

  lemma KeywordVisible(words: seq<string>)
    requires LetterInitials(words)
    ensures forall s: string, i: nat | KeywordAt(words, s, i).Some? ::
              Visible(s, i, i + KeywordAt(words, s, i).value)
  {
    forall s: string, i: nat | KeywordAt(words, s, i).Some?
      ensures Visible(s, i, i + KeywordAt(words, s, i).value)
    {
      KeywordMatchVisible(words, s, i);
    }
  }

  lemma KeywordBoundaries(words: seq<string>, s: string, i: nat)
    ensures KeywordAt(words, s, i).Some? ==>
              WordBoundary(s, i) && WordBoundary(s, i + KeywordAt(words, s, i).value)
  {
  }

  lemma KeywordMatcherBoundaries(words: seq<string>, m: Matcher, s: string, i: nat)
    requires m(s, i) == KeywordAt(words, s, i)
    ensures MatchAt(m, s, i).Some? ==>
              WordBoundary(s, i) && WordBoundary(s, i + MatchAt(m, s, i).value)
  {
    KeywordBoundaries(words, s, i);
  }

  // ---------------------------------------------------------------------
  // No pattern matches whitespace alone

  lemma IsoVisible()
    ensures VisibleMatcher(IsoTimestampAt)
  {
    forall s: string, i: nat | MatchAt(IsoTimestampAt, s, i).Some?
      ensures Visible(s, i, i + MatchAt(IsoTimestampAt, s, i).value)
    {
      assert IsoDateTime[0] == Digit;
      assert IsDigit(s[i]);
    }
  }

  lemma FixedVisible(t: seq<Cell>)
    requires |t| > 0 && (t[0] == Digit || t[0] == Exactly('['))
    ensures forall s: string, i: nat | FixedAt(t, s, i).Some? :: Visible(s, i, i + |t|)
  {
    forall s: string, i: nat | FixedAt(t, s, i).Some?
      ensures Visible(s, i, i + |t|)
    {
      assert CellAccepts(t[0], s[i]);
    }
  }

  lemma TimestampsVisible()
    ensures VisibleMatcher(UsTimestampAt) && VisibleMatcher(EuTimestampAt) && VisibleMatcher(BracketTimeAt)
  {
    assert UsDateTime[0] == Digit && EuDateTime[0] == Digit && BracketTime[0] == Exactly('[');
    FixedVisible(UsDateTime);
    FixedVisible(EuDateTime);
    FixedVisible(BracketTime);
  }

  lemma KeywordsVisible()
    ensures VisibleMatcher(LevelAt) && VisibleMatcher(ErrorWordAt) && VisibleMatcher(WarningWordAt)
  {
    KeywordsStartWithLetters();
    KeywordVisible(LevelWords);
    KeywordVisible(ErrorWords);
    KeywordVisible(WarningWords);
  }

  lemma UrlVisible()
    ensures VisibleMatcher(UrlAt)
  {
    forall s: string, i: nat | MatchAt(UrlAt, s, i).Some?
      ensures Visible(s, i, i + MatchAt(UrlAt, s, i).value)
    {
      if OccursAt(s, "https://", i) {
        assert s[i] == s[i..i + 8][0];
      } else {
        assert s[i] == s[i..i + 7][0];
      }
    }
  }

  lemma FileVisible()
    ensures VisibleMatcher(FilePathAt)
  {
    forall s: string, i: nat | MatchAt(FilePathAt, s, i).Some?
      ensures Visible(s, i, i + MatchAt(FilePathAt, s, i).value)
    {
      assert !IsWhitespace(s[i]);
    }
  }

  lemma StackFrameVisible()
    ensures VisibleMatcher(StackFrameAt)
  {
    forall s: string, i: nat | MatchAt(StackFrameAt, s, i).Some?
      ensures Visible(s, i, i + MatchAt(StackFrameAt, s, i).value)
    {
      var w := SkipWhitespace(s, i);
      assert s[w] == s[w..w + 2][0];
    }
  }

  lemma QuotedAndNumberVisible()
    ensures VisibleMatcher(QuotedAt) && VisibleMatcher(NumberAt)
  {
  }

  /** No pattern of the table matches whitespace alone. */
  lemma CatalogIsVisible()
    ensures VisibleCatalog(Catalog)
  {
    IsoVisible();
    TimestampsVisible();
    KeywordsVisible();
    UrlVisible();
    FileVisible();
    StackFrameVisible();
    QuotedAndNumberVisible();
  }

  // ---------------------------------------------------------------------
  // Where a token comes from

  /** A token of `highlightLine` that is not `text` was claimed, and a
      claimed token is a match of a pattern of its own family. */
  lemma TokenOrigin(line: string, t: LogToken)
    requires t in Tokenize(Catalog, line)
    ensures ValidToken(line, t)
    ensures t.kind != TextToken ==> t in ClaimAll(Catalog, line).tokens
    ensures t.kind == StacktraceToken ==> MatchAt(StackFrameAt, line, t.start) == Some(t.end - t.start)
    ensures t.kind == StringToken ==> MatchAt(QuotedAt, line, t.start) == Some(t.end - t.start)
    ensures t.kind == ErrorToken ==> MatchAt(ErrorWordAt, line, t.start) == Some(t.end - t.start)
    ensures t.kind == WarningToken ==> MatchAt(WarningWordAt, line, t.start) == Some(t.end - t.start)
  {
    TokenizeWellFormed(Catalog, line);
    CatalogKinds();
    TextTokensAreTextRuns(Catalog, line);
    if t.kind != TextToken {
      ClaimedOrigin(line, t);
    }
  }

  /** A claimed token is a match of the pattern of its family. */
  lemma ClaimedOrigin(line: string, t: LogToken)
    requires t in ClaimAll(Catalog, line).tokens
    ensures t.kind == StacktraceToken ==> MatchAt(StackFrameAt, line, t.start) == Some(t.end - t.start)
    ensures t.kind == StringToken ==> MatchAt(QuotedAt, line, t.start) == Some(t.end - t.start)
    ensures t.kind == ErrorToken ==> MatchAt(ErrorWordAt, line, t.start) == Some(t.end - t.start)
    ensures t.kind == WarningToken ==> MatchAt(WarningWordAt, line, t.start) == Some(t.end - t.start)
  {
    var f, m := ClaimedMatch(Catalog, line, t);
    FamilyPattern(f, m);
  }

  /** The single pattern of each one-pattern family the table lists. */
  lemma FamilyPattern(f: nat, m: Matcher)
    requires f < |Catalog| && m in Catalog[f].patterns
    ensures Catalog[f].kind == StacktraceToken ==> m == StackFrameAt
    ensures Catalog[f].kind == StringToken ==> m == QuotedAt
    ensures Catalog[f].kind == ErrorToken ==> m == ErrorWordAt
    ensures Catalog[f].kind == WarningToken ==> m == WarningWordAt
  {
    if f == 4 {
      assert Catalog[f].patterns == [StackFrameAt];
    } else if f == 5 {
      assert Catalog[f].patterns == [QuotedAt];
    } else if f == 7 {
      assert Catalog[f].patterns == [ErrorWordAt];
    } else if f == 8 {
      assert Catalog[f].patterns == [WarningWordAt];
    }
  }

  // ---------------------------------------------------------------------
  // Level keywords outrank the later families

  /** `[a, b)` is a whole word: word characters only, with a `\b` on each
      side. */
  ghost predicate WordSpan(s: string, a: int, b: int) {
    && 0 <= a < b <= |s|
    && (forall k | a <= k < b :: WordCharAt(s, k))
    && WordBoundary(s, a) && WordBoundary(s, b)
  }

  /** Two whole words that overlap are the same word. */
  lemma WordSpansOverlapEqual(s: string, a: int, b: int, c: int, d: int)
    requires WordSpan(s, a, b) && WordSpan(s, c, d)
    requires a < d && c < b
    ensures a == c && b == d
  {
  }

  /** A keyword made of letters that matches with `\b` on both sides is a
      whole word. */
  lemma KeywordMatchIsWordSpan(words: seq<string>, m: Matcher, s: string, i: nat)
    requires Lettered(words)
    requires m(s, i) == KeywordAt(words, s, i)
    requires MatchAt(m, s, i).Some?
    ensures WordSpan(s, i, i + MatchAt(m, s, i).value)
  {
    var w :| w in words && |w| == KeywordAt(words, s, i).value
             && StartsWithIgnoringCase(s, w, i) && WordBoundary(s, i + |w|);
    LettersIgnoringCase(s, w, i);
    forall k | i <= k < i + |w|
      ensures WordCharAt(s, k)
    {
      assert IsAsciiLetter(w[k - i]);
    }
  }

  lemma LevelMatchIsWordSpan(s: string, i: nat)
    requires MatchAt(LevelAt, s, i).Some?
    ensures WordSpan(s, i, i + MatchAt(LevelAt, s, i).value)
  {
    LevelWordsAreLetters();
    KeywordMatchIsWordSpan(LevelWords, LevelAt, s, i);
  }

  /** Every match of `m` is a whole word. */
  ghost predicate WordMatcher(m: Matcher) {
    forall s: string, i: nat | MatchAt(m, s, i).Some? :: WordSpan(s, i, i + MatchAt(m, s, i).value)
  }

  lemma LevelAtMatchesWords()
    ensures WordMatcher(LevelAt)
  {
    forall s: string, i: nat | MatchAt(LevelAt, s, i).Some?
      ensures WordSpan(s, i, i + MatchAt(LevelAt, s, i).value)
    {
      LevelMatchIsWordSpan(s, i);
    }
  }

  /** A pattern that only matches whole words is never jumped over: the
      `exec` loop reports each of its matches exactly. */
  lemma WordMatchIsScanned(m: Matcher, line: string, a: nat)
    requires WordMatcher(m)
    requires MatchAt(m, line, a).Some?
    ensures Span(a, a + MatchAt(m, line, a).value) in Scan(m, line, 0)
  {
    var b := a + MatchAt(m, line, a).value;
    var sp := ScanFindsEveryMatch(m, line, 0, a);
    assert MatchAt(m, line, sp.start) == Some(sp.end - sp.start);
    WordMatchIsWordSpan(m, line, a);
    WordMatchIsWordSpan(m, line, sp.start);
    WordSpansOverlapEqual(line, a, b, sp.start, sp.end);
  }

  lemma WordMatchIsWordSpan(m: Matcher, s: string, i: nat)
    requires WordMatcher(m) && MatchAt(m, s, i).Some?
    ensures WordSpan(s, i, i + MatchAt(m, s, i).value)
  {
  }

  /** A whole-word match of a family's pattern lies in no token of a later
      family and in no `text` token. */
  lemma WordMatchOutranksLaterTokens(catalog: seq<PatternFamily>, g: nat, m: Matcher, line: string,
                                     t: LogToken, a: nat)
    requires g < |catalog| && m in catalog[g].patterns && WordMatcher(m)
    requires TextToken !in KindsOf(catalog)
    requires t in Tokenize(catalog, line)
    ensures MatchAt(m, line, a).Some? && t.start <= a && a + MatchAt(m, line, a).value <= t.end
            ==> t.kind in KindsOf(catalog[..g + 1])
  {
    if MatchAt(m, line, a).Some? {
      WordMatchIsScanned(m, line, a);
      ScannedMatchOutranksLaterTokens(catalog, line, g, m, t, Span(a, a + MatchAt(m, line, a).value));
    }
  }

  /** The level family claims before the families after it, so no token of
      those families (and no `text` token) contains a level keyword: a
      keyword such as `ERROR`, `Warn` or `warning` at a word boundary can
      only end up in a `level` token, or in a timestamp. */
  lemma LevelKeywordOutranksLaterFamilies(line: string, t: LogToken, a: nat)
    requires t in Tokenize(Catalog, line)
    ensures MatchAt(LevelAt, line, a).Some? && t.start <= a && a + MatchAt(LevelAt, line, a).value <= t.end
            ==> t.kind == TimestampToken || t.kind == LevelToken
  {
    assert WordMatcher(LevelAt) by { LevelAtMatchesWords(); }
    assert LevelAt in Catalog[1].patterns && TextToken !in KindsOf(Catalog) by { CatalogKinds(); }
    WordMatchOutranksLaterTokens(Catalog, 1, LevelAt, line, t, a);
    assert t.kind in KindsOf(Catalog[..2]) ==> t.kind == TimestampToken || t.kind == LevelToken by {
      CatalogKinds();
    }
  }

  /** A whole word that equals one of a list of lettered keywords, ignoring
      case, is matched by that list's keyword pattern, with the word's
      length. */
  lemma KeywordWordMatches(words: seq<string>, m: Matcher, line: string, a: nat, b: nat, w: string)
    requires Lettered(words) && w in words
    requires m(line, a) == KeywordAt(words, line, a)
    ensures && a < b <= |line| && b - a == |w| && Lower(line[a..b]) == Lower(w)
            && WordBoundary(line, a) && WordBoundary(line, b)
            ==> MatchAt(m, line, a) == Some(|w|)
  {
    if && a < b <= |line| && b - a == |w| && Lower(line[a..b]) == Lower(w)
       && WordBoundary(line, a) && WordBoundary(line, b) {
      assert StartsWithIgnoringCase(line, w, a);
      LettersIgnoringCase(line, w, a);
      forall k | a <= k < b
        ensures WordCharAt(line, k)
      {
        assert IsAsciiLetter(w[k - a]);
      }
      assert WordSpan(line, a, b);
      assert MatchAt(m, line, a).Some?;
      KeywordMatchIsWordSpan(words, m, line, a);
      WordSpansOverlapEqual(line, a, b, a, a + MatchAt(m, line, a).value);
    }
  }

  /** A whole word that equals a level keyword ignoring case is a level
      match. */
  lemma LevelWordMatches(line: string, a: nat, b: nat, w: string)
    requires w in LevelWords
    ensures && a < b <= |line| && b - a == |w| && Lower(line[a..b]) == Lower(w)
            && WordBoundary(line, a) && WordBoundary(line, b)
            ==> MatchAt(LevelAt, line, a) == Some(|w|)
  {
    LevelWordsAreLetters();
    KeywordWordMatches(LevelWords, LevelAt, line, a, b, w);
  }

  /** A token that is exactly a keyword match is a whole word. */
  lemma KeywordTokenIsWord(words: seq<string>, m: Matcher, line: string, t: LogToken)
    requires m(line, t.start) == KeywordAt(words, line, t.start)
    requires MatchAt(m, line, t.start) == Some(t.end - t.start)
    ensures t.start < t.end <= |line| && WordBoundary(line, t.start) && WordBoundary(line, t.end)
  {
    KeywordMatcherBoundaries(words, m, line, t.start);
  }

  /** `error` and `warning` tokens are whole words. */
  lemma ErrorAndWarningTokensAreWords(line: string, t: LogToken)
    requires t in Tokenize(Catalog, line)
    ensures t.kind == ErrorToken || t.kind == WarningToken ==>
              t.start < t.end <= |line| && WordBoundary(line, t.start) && WordBoundary(line, t.end)
  {
    TokenOrigin(line, t);
    if t.kind == ErrorToken {
      KeywordTokenIsWord(ErrorWords, ErrorWordAt, line, t);
    } else if t.kind == WarningToken {
      KeywordTokenIsWord(WarningWords, WarningWordAt, line, t);
    }
  }

  /** One level keyword is never the content of an `error` or `warning`
      token. */
  lemma NotThisLevelWord(line: string, t: LogToken, w: string)
    requires t in Tokenize(Catalog, line)
    requires w in LevelWords
    ensures t.kind == ErrorToken || t.kind == WarningToken ==> Lower(t.content) != Lower(w)
  {
    assert ValidToken(line, t) by { TokenOrigin(line, t); }
    ErrorAndWarningTokensAreWords(line, t);
    LevelWordMatches(line, t.start, t.end, w);
    LevelKeywordOutranksLaterFamilies(line, t, t.start);
  }

  /** `ERROR`, `WARN` and `WARNING`, in any case, never become `error` or
      `warning` tokens, although the `error` and `warning` families list
      `error`, `warn` and `warning`: the level family has claimed them. */
  lemma ErrorAndWarningTokensAreNeverLevelWords(line: string, t: LogToken)
    requires t in Tokenize(Catalog, line)
    ensures t.kind == ErrorToken || t.kind == WarningToken ==>
              forall w | w in LevelWords :: Lower(t.content) != Lower(w)
  {
    forall w | w in LevelWords
      ensures t.kind == ErrorToken || t.kind == WarningToken ==> Lower(t.content) != Lower(w)
    {
      NotThisLevelWord(line, t, w);
    }
  }

  // ---------------------------------------------------------------------
  // Stack frames that name a file

  /** A line of the log as `highlightLine` receives it: no line terminator. */
  ghost predicate SingleLine(line: string) {
    forall k | 0 <= k < |line| :: !IsLineTerminator(line[k])
  }

  /** Two pieces without a line terminator join into one line. */
  lemma SingleLineJoin(a: string, b: string)
    requires SingleLine(a) && SingleLine(b)
    ensures SingleLine(a + b)
  {
    forall k | 0 <= k < |a + b|
      ensures !IsLineTerminator((a + b)[k])
    {
      if k >= |a| {
        assert (a + b)[k] == b[k - |a|];
      }
    }
  }

  /** On a single line a stack frame can only match from the start to the
      end of the line. */
  lemma StackFrameMatchSpansLine(line: string, i: nat)
    ensures SingleLine(line) && MatchAt(StackFrameAt, line, i).Some? ==>
              i == 0 && MatchAt(StackFrameAt, line, i).value == |line|
  {
  }

  /** An indented `at ...` line is one stack frame from start to end. */
  lemma IndentedAtLineIsStackFrame(line: string, w: nat)
    requires SingleLine(line)
    requires w + 2 < |line| && OccursAt(line, "at", w) && IsWhitespace(line[w + 2])
    requires forall k | 0 <= k < w :: IsWhitespace(line[k])
    ensures MatchAt(StackFrameAt, line, 0) == Some(|line|)
  {
    assert line[w] == line[w..w + 2][0];
    SkipWhitespaceStops(line, 0, w);
    var v := SkipWhitespace(line, w + 2);
    SpanWhileStops(line, v, |line|, InLine);
  }

  /** A `stacktrace` token is the whole line. */
  lemma StackFrameTokenSpansLine(line: string, t: LogToken)
    requires t in Tokenize(Catalog, line)
    ensures SingleLine(line) && t.kind == StacktraceToken ==> t.start == 0 && t.end == |line|
  {
    TokenOrigin(line, t);
    StackFrameMatchSpansLine(line, t.start);
  }

  /** A token that covers the whole line belongs to a family no later than
      any family with a match on the line. */
  lemma WholeLineTokenOutranked(catalog: seq<PatternFamily>, g: nat, m: Matcher, line: string,
                                t: LogToken, q: nat)
    requires g < |catalog| && m in catalog[g].patterns
    requires TextToken !in KindsOf(catalog)
    requires t in Tokenize(catalog, line)
    ensures MatchAt(m, line, q).Some? && t.start == 0 && t.end == |line| ==> t.kind in KindsOf(catalog[..g + 1])
  {
    if MatchAt(m, line, q).Some? {
      var sp := ScanFindsEveryMatch(m, line, 0, q);
      ScannedMatchOutranksLaterTokens(catalog, line, g, m, t, sp);
    }
  }

  /** The file family claims before the stack-trace family, so a frame line
      that names a source file, such as `at f (/src/a.ts:1:2)`, never gets a
      `stacktrace` token: its path has been claimed first and the frame
      overlaps it. */
  lemma PathInLineBlocksStackFrame(line: string, q: nat, t: LogToken)
    requires t in Tokenize(Catalog, line)
    ensures SingleLine(line) && MatchAt(FilePathAt, line, q).Some? ==> t.kind != StacktraceToken
  {
    FileFamilyHoldsPath();
    WholeLineTokenOutranked(Catalog, 3, FilePathAt, line, t, q);
    StackFrameTokenSpansLine(line, t);
  }
}
