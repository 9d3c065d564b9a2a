/** `LogSyntaxHighlighter.highlightLine`: an interval-claiming tokenizer.
    Pattern families are applied in priority order; a match becomes a token
    only if none of its characters is claimed yet, and then claims all of
    them. The unclaimed runs that hold something besides whitespace become
    `text` tokens, and the tokens are finally sorted by position.

    Everything here is stated for an arbitrary catalog of families; the
    catalog of the source is in module LogPatterns. */
module Highlighter {
  import opened Wrappers
  import opened Strings
  import opened Matching

  datatype TokenType =
    | TimestampToken | LevelToken | ErrorToken | WarningToken | InfoToken
    | UrlToken | FileToken | NumberToken | StringToken | StacktraceToken | TextToken

  /** `LogToken`: `kind` is the source's `type` field. */
  datatype LogToken = LogToken(kind: TokenType, content: string, start: nat, end: nat)

  /** The line-level severity of `determineLineLevel`. */
  datatype LineLevel = Error | Warning | Info | Debug | Normal

  datatype HighlightedLine = HighlightedLine(
    tokens: seq<LogToken>,
    originalContent: string,
    lineNumber: int,
    level: LineLevel)

  /** One entry of the pattern table: a token kind and its patterns, which are
      scanned one after the other. */
  datatype PatternFamily = PatternFamily(kind: TokenType, patterns: seq<Matcher>)

  /** The working state of `highlightLine`: the tokens pushed so far and the
      `used` array, one flag per character. */
  datatype Claims = Claims(tokens: seq<LogToken>, used: seq<bool>)

  // ---------------------------------------------------------------------
  // Vocabulary

  /** A token is a non-empty slice of the line and carries that slice. */
  predicate ValidToken(line: string, t: LogToken) {
    t.start < t.end <= |line| && t.content == line[t.start..t.end]
  }

  predicate Covers(t: LogToken, p: int) {
    t.start <= p < t.end
  }

  ghost predicate CoveredBy(ts: seq<LogToken>, p: int) {
    exists t | t in ts :: Covers(t, p)
  }

  predicate Apart(a: LogToken, b: LogToken) {
    a.end <= b.start || b.end <= a.start
  }

  ghost predicate PairwiseApart(ts: seq<LogToken>) {
    forall i, j | 0 <= i < |ts| && 0 <= j < |ts| && i != j :: Apart(ts[i], ts[j])
  }

  /** Left to right and without overlap; with non-empty tokens this makes the
      starts strictly ascending. */
  ghost predicate StrictlyOrdered(ts: seq<LogToken>) {
    forall i, j | 0 <= i < j < |ts| :: ts[i].end <= ts[j].start
  }

  /** The invariant of the claiming phase: tokens are valid slices that do not
      overlap, and a character is marked `used` exactly when a token covers it. */
  ghost predicate Consistent(line: string, st: Claims) {
    && |st.used| == |line|
    && (forall t | t in st.tokens :: ValidToken(line, t))
    && PairwiseApart(st.tokens)
    && (forall p | 0 <= p < |line| :: st.used[p] <==> CoveredBy(st.tokens, p))
  }

  /** `[a, b)` is a run of unclaimed characters that cannot be extended on
      either side and holds at least one non-whitespace character. */
  ghost predicate IsTextRun(line: string, used: seq<bool>, a: int, b: int) {
    && 0 <= a < b <= |line| == |used|
    && (forall p | a <= p < b :: !used[p])
    && (a == 0 || used[a - 1])
    && (b == |line| || used[b])
    && !AllWhitespace(line[a..b])
  }

  /** The kinds a catalog can give to a claimed token. */
  ghost function KindsOf(catalog: seq<PatternFamily>): set<TokenType> {
    set k | 0 <= k < |catalog| :: catalog[k].kind
  }

  // ---------------------------------------------------------------------
  // Claiming

  /** `isRegionUsed(used, start, end)`. */
  function RegionUsed(used: seq<bool>, start: nat, end: nat): (r: bool)
    requires start <= end <= |used|
    decreases end - start
    ensures r <==> exists p :: start <= p < end && used[p]
  {
    if start == end then false else used[start] || RegionUsed(used, start + 1, end)
  }

  /** The `used[i] = true` loop over `[start, end)`. */
  function Claim(used: seq<bool>, start: nat, end: nat): (r: seq<bool>)
    requires start <= end <= |used|
    ensures |r| == |used|
    ensures forall p | 0 <= p < |r| :: r[p] == (used[p] || start <= p < end)
  {
    seq(|used|, p requires 0 <= p < |used| => used[p] || start <= p < end)
  }

  function NothingClaimed(line: string): (st: Claims)
    ensures Consistent(line, st)
  {
    Claims([], seq(|line|, _ => false))
  }

  /** The body of the `exec` loop of `applyPattern` over the matches of one
      pattern: a match on a claimed region is skipped, any other becomes a
      token and claims its region. */
  function ApplySpans(line: string, kind: TokenType, spans: seq<Span>, st: Claims): (r: Claims)
    requires |st.used| == |line|
    requires InBounds(line, spans)
    decreases |spans|
    ensures |r.used| == |line|
  {
    if spans == [] then st
    else
      var sp := spans[0];
      if RegionUsed(st.used, sp.start, sp.end) then
        ApplySpans(line, kind, spans[1..], st)
      else
        var t := LogToken(kind, line[sp.start..sp.end], sp.start, sp.end);
        ApplySpans(line, kind, spans[1..], Claims(st.tokens + [t], Claim(st.used, sp.start, sp.end)))
  }

  /** `applyPattern`: the patterns of one family are scanned over the whole
      line one after the other, each seeing the claims of those before it. */
  function ApplyPatterns(line: string, kind: TokenType, patterns: seq<Matcher>, st: Claims): (r: Claims)
    requires |st.used| == |line|
    decreases |patterns|
    ensures |r.used| == |line|
  {
    if patterns == [] then st
    else ApplyPatterns(line, kind, patterns[1..], ApplySpans(line, kind, Scan(patterns[0], line, 0), st))
  }

  /** The `applyPattern` calls of `highlightLine`, in catalog order. */
  function ApplyCatalog(line: string, catalog: seq<PatternFamily>, st: Claims): (r: Claims)
    requires |st.used| == |line|
    decreases |catalog|
    ensures |r.used| == |line|
  {
    if catalog == [] then st
    else ApplyCatalog(line, catalog[1..], ApplyPatterns(line, catalog[0].kind, catalog[0].patterns, st))
  }

  function ClaimAll(catalog: seq<PatternFamily>, line: string): (st: Claims)
    ensures |st.used| == |line|
    ensures Consistent(line, st)
    ensures forall t | t in st.tokens :: t.kind in KindsOf(catalog)
  {
    ApplyCatalogKeepsConsistent(line, catalog, NothingClaimed(line));
    ApplyCatalog(line, catalog, NothingClaimed(line))
  }

  // ---------------------------------------------------------------------
  // Filling

  /** The first claimed position at or after `i`, or `|used|`. */
  function RunEnd(used: seq<bool>, i: nat): (j: nat)
    requires i <= |used|
    decreases |used| - i
    ensures i <= j <= |used|
    ensures forall p | i <= p < j :: !used[p]
    ensures j == |used| || used[j]
  {
    if i == |used| || used[i] then i else RunEnd(used, i + 1)
  }

  /** The token `fillRemainingText` makes of the run `[i, j)`: none when the
      run trims to the empty string, that is, when it is all whitespace. */
  function RunToken(line: string, i: nat, j: nat): (r: seq<LogToken>)
    requires i <= j <= |line|
    ensures r == [] || r == [LogToken(TextToken, line[i..j], i, j)]
    ensures r != [] <==> !AllWhitespace(line[i..j])
  {
    if Trim(line[i..j]) != [] then [LogToken(TextToken, line[i..j], i, j)] else []
  }

  /** `fillRemainingText` from position `i` on: each maximal unclaimed run
      becomes a `text` token, unless it is all whitespace. */
  function FillFrom(line: string, used: seq<bool>, i: nat): (r: seq<LogToken>)
    requires |used| == |line| && i <= |line|
    decreases |line| - i
    ensures forall t | t in r ::
              && t.kind == TextToken && ValidToken(line, t) && i <= t.start
              && (forall p | t.start <= p < t.end :: !used[p])
  {
    if i == |line| then []
    else if used[i] then FillFrom(line, used, i + 1)
    else
      var j := RunEnd(used, i);
      RunToken(line, i, j) + FillFrom(line, used, j)
  }

  // ---------------------------------------------------------------------
  // Sorting

  function InsertByStart(t: LogToken, s: seq<LogToken>): (r: seq<LogToken>)
    decreases |s|
    ensures multiset(r) == multiset(s) + multiset{t}
  {
    if s == [] then [t]
    else if t.start <= s[0].start then [t] + s
    else
      assert s == [s[0]] + s[1..];
      [s[0]] + InsertByStart(t, s[1..])
  }

  /** `tokens.sort((a, b) => a.start - b.start)`; the starts of the tokens
      it is applied to are distinct, so the order it yields is the only one. */
  function SortByStart(ts: seq<LogToken>): (r: seq<LogToken>)
    decreases |ts|
    ensures multiset(r) == multiset(ts)
  {
    if ts == [] then []
    else
      assert ts == [ts[0]] + ts[1..];
      InsertByStart(ts[0], SortByStart(ts[1..]))
  }

  // ---------------------------------------------------------------------
  // The tokenizer

  /** The tokens of `highlightLine(line, _)` for a given catalog. */
  function Tokenize(catalog: seq<PatternFamily>, line: string): (r: seq<LogToken>)
    ensures forall t | t in r :: ValidToken(line, t) && (t.kind == TextToken || t.kind in KindsOf(catalog))
  {
    var claimed := ClaimAll(catalog, line);
    var fill := FillFrom(line, claimed.used, 0);
    SortKeepsMembers(claimed.tokens + fill);
    SortByStart(claimed.tokens + fill)
  }

  // ---------------------------------------------------------------------
  // Line level

  const LineErrorWords: seq<string> := ["error", "exception", "failed", "failure", "fatal", "severe", "critical"]
  const LineWarningWords: seq<string> := ["warn", "warning", "deprecated"]
  const LineInfoWords: seq<string> := ["info", "log"]
  const LineDebugWords: seq<string> := ["debug", "trace"]

  /** `determineLineLevel`: substring tests that ignore case, in the fixed
      precedence error > warning > info > debug > normal. */
  function DetermineLineLevel(content: string): (r: LineLevel)
    ensures r == Error <==> MentionsAny(content, LineErrorWords)
    ensures r == Warning <==>
              !MentionsAny(content, LineErrorWords) && MentionsAny(content, LineWarningWords)
    ensures r == Info <==>
              && !MentionsAny(content, LineErrorWords) && !MentionsAny(content, LineWarningWords)
              && MentionsAny(content, LineInfoWords)
    ensures r == Debug <==>
              && !MentionsAny(content, LineErrorWords) && !MentionsAny(content, LineWarningWords)
              && !MentionsAny(content, LineInfoWords) && MentionsAny(content, LineDebugWords)
  {
    var lower := Lower(content);
    if ContainsAny(lower, LineErrorWords) then Error
    else if ContainsAny(lower, LineWarningWords) then Warning
    else if ContainsAny(lower, LineInfoWords) then Info
    else if ContainsAny(lower, LineDebugWords) then Debug
    else Normal
  }

  /** `highlightLine(content, lineNumber)` for a given catalog. */
  function Highlight(catalog: seq<PatternFamily>, content: string, lineNumber: int): (r: HighlightedLine)
    ensures r.originalContent == content && r.lineNumber == lineNumber
    ensures r.level == DetermineLineLevel(content)
    ensures forall t | t in r.tokens :: ValidToken(content, t)
    ensures StrictlyOrdered(r.tokens)
    ensures forall p | 0 <= p < |content| && !IsWhitespace(content[p]) :: CoveredBy(r.tokens, p)
    ensures forall p | 0 <= p < |content| && !CoveredBy(r.tokens, p) :: IsWhitespace(content[p])
  {
    TokenizeWellFormed(catalog, content);
    HighlightedLine(Tokenize(catalog, content), content, lineNumber, DetermineLineLevel(content))
  }

  // ---------------------------------------------------------------------
  // Proofs: claiming

  /** A token whose characters are all claimed and one whose characters are
      all free cannot overlap. */
  lemma ClaimedAndFreeApart(used: seq<bool>, c: LogToken, f: LogToken)
    requires c.start < c.end <= |used| && f.start < f.end <= |used|
    requires forall p | c.start <= p < c.end :: used[p]
    requires forall p | f.start <= p < f.end :: !used[p]
    ensures Apart(c, f)
  {
    assert used[c.start];
    assert !used[f.start];
  }

  lemma CoveredByAppend(ts: seq<LogToken>, t: LogToken, p: int)
    ensures CoveredBy(ts + [t], p) <==> CoveredBy(ts, p) || Covers(t, p)
  {
    if CoveredBy(ts + [t], p) {
      var u :| u in ts + [t] && Covers(u, p);
      if u != t {
        assert u in ts;
      }
    }
    if CoveredBy(ts, p) {
      var u :| u in ts && Covers(u, p);
      assert u in ts + [t];
    }
    if Covers(t, p) {
      assert t in ts + [t];
    }
  }

  /** Accepting a token on a free region keeps the claiming invariant. */
  lemma AcceptKeepsConsistent(line: string, st: Claims, t: LogToken)
    requires Consistent(line, st)
    requires ValidToken(line, t)
    requires forall p | t.start <= p < t.end :: !st.used[p]
    ensures Consistent(line, Claims(st.tokens + [t], Claim(st.used, t.start, t.end)))
  {
    var ts := st.tokens + [t];
    var used := Claim(st.used, t.start, t.end);
    forall i | 0 <= i < |st.tokens|
      ensures Apart(st.tokens[i], t)
    {
      var u := st.tokens[i];
      assert u in st.tokens;
      forall p | u.start <= p < u.end
        ensures st.used[p]
      {
        assert Covers(u, p);
      }
      ClaimedAndFreeApart(st.used, u, t);
    }
    forall i, j | 0 <= i < |ts| && 0 <= j < |ts| && i != j
      ensures Apart(ts[i], ts[j])
    {
      if i < |st.tokens| && j < |st.tokens| {
        assert ts[i] == st.tokens[i] && ts[j] == st.tokens[j];
      }
    }
    forall p | 0 <= p < |line|
      ensures used[p] <==> CoveredBy(ts, p)
    {
      CoveredByAppend(st.tokens, t, p);
    }
    forall u | u in ts
      ensures ValidToken(line, u)
    {
      if u != t {
        assert u in st.tokens;
      }
    }
  }

  /** Scanning one pattern keeps the claiming invariant, only appends tokens,
      gives them the family's kind, takes them from the pattern's matches,
      and never releases a claim. */
  lemma {:induction false} ApplySpansKeepsConsistent(line: string, kind: TokenType, spans: seq<Span>, st: Claims)
    requires Consistent(line, st)
    requires InBounds(line, spans)
    ensures var r := ApplySpans(line, kind, spans, st);
      && Consistent(line, r)
      && |st.tokens| <= |r.tokens| && r.tokens[..|st.tokens|] == st.tokens
      && (forall k | |st.tokens| <= k < |r.tokens| ::
            r.tokens[k].kind == kind && Span(r.tokens[k].start, r.tokens[k].end) in spans)
      && (forall p | 0 <= p < |line| && st.used[p] :: r.used[p])
    decreases |spans|
  {
    if spans != [] {
      var sp := spans[0];
      assert sp in spans;
      if RegionUsed(st.used, sp.start, sp.end) {
        ApplySpansKeepsConsistent(line, kind, spans[1..], st);
      } else {
        var t := LogToken(kind, line[sp.start..sp.end], sp.start, sp.end);
        var st' := Claims(st.tokens + [t], Claim(st.used, sp.start, sp.end));
        AcceptKeepsConsistent(line, st, t);
        ApplySpansKeepsConsistent(line, kind, spans[1..], st');
        var r := ApplySpans(line, kind, spans, st);
        assert r == ApplySpans(line, kind, spans[1..], st');
        assert r.tokens[..|st'.tokens|] == st'.tokens;
        assert r.tokens[..|st.tokens|] == st'.tokens[..|st.tokens|];
        forall k | |st.tokens| <= k < |r.tokens|
          ensures r.tokens[k].kind == kind && Span(r.tokens[k].start, r.tokens[k].end) in spans
        {
          if k == |st.tokens| {
            assert r.tokens[k] == st'.tokens[k] == t;
          } else {
            assert Span(r.tokens[k].start, r.tokens[k].end) in spans[1..];
          }
        }
      }
    }
  }

  /** The matches whose region is entirely free in `used`, in scan order. */
  function Unclaimed(spans: seq<Span>, used: seq<bool>): (r: seq<Span>)
    requires forall sp | sp in spans :: sp.start <= sp.end <= |used|
    decreases |spans|
    ensures forall sp | sp in r :: sp in spans
  {
    if spans == [] then []
    else
      assert spans[0] in spans;
      (if RegionUsed(used, spans[0].start, spans[0].end) then [] else [spans[0]])
        + Unclaimed(spans[1..], used)
  }

  /** The tokens of kind `kind` that spans stand for. */
  function AsTokens(line: string, kind: TokenType, spans: seq<Span>): seq<LogToken>
    requires InBounds(line, spans)
    decreases |spans|
  {
    if spans == [] then []
    else
      assert spans[0] in spans;
      [LogToken(kind, line[spans[0].start..spans[0].end], spans[0].start, spans[0].end)]
        + AsTokens(line, kind, spans[1..])
  }

  /** Claiming a region leaves the verdict on regions after it unchanged. */
  lemma {:induction false} UnclaimedIgnoresEarlierClaim(spans: seq<Span>, used: seq<bool>, start: nat, end: nat)
    requires start <= end <= |used|
    requires forall sp | sp in spans :: sp.start <= sp.end <= |used|
    requires forall k | 0 <= k < |spans| :: end <= spans[k].start
    ensures Unclaimed(spans, Claim(used, start, end)) == Unclaimed(spans, used)
    decreases |spans|
  {
    if spans != [] {
      var sp := spans[0];
      assert sp in spans;
      var used' := Claim(used, start, end);
      assert forall p | sp.start <= p < sp.end :: used'[p] == used[p];
      assert RegionUsed(used', sp.start, sp.end) == RegionUsed(used, sp.start, sp.end);
      UnclaimedIgnoresEarlierClaim(spans[1..], used, start, end);
    }
  }

  /** A free first match stays free after the claim it makes, and the rest
      of the scan sees the same verdicts. */
  lemma UnclaimedAfterFreeFirst(spans: seq<Span>, used: seq<bool>)
    requires forall sp | sp in spans :: sp.start <= sp.end <= |used|
    requires Ordered(spans)
    requires spans != [] && !RegionUsed(used, spans[0].start, spans[0].end)
    ensures Unclaimed(spans, used)
            == [spans[0]] + Unclaimed(spans[1..], Claim(used, spans[0].start, spans[0].end))
  {
    var sp := spans[0];
    assert sp in spans;
    var rest := spans[1..];
    forall k | 0 <= k < |rest|
      ensures sp.end <= rest[k].start
    {
      assert rest[k] == spans[k + 1];
    }
    UnclaimedIgnoresEarlierClaim(rest, used, sp.start, sp.end);
  }

  lemma UnclaimedAfterUsedFirst(spans: seq<Span>, used: seq<bool>)
    requires forall sp | sp in spans :: sp.start <= sp.end <= |used|
    requires spans != [] && RegionUsed(used, spans[0].start, spans[0].end)
    ensures Unclaimed(spans, used) == Unclaimed(spans[1..], used)
  {
    assert spans[0] in spans;
  }

  lemma AsTokensCons(line: string, kind: TokenType, sp: Span, spans: seq<Span>)
    requires sp.start < sp.end <= |line|
    requires InBounds(line, spans)
    ensures InBounds(line, [sp] + spans)
    ensures AsTokens(line, kind, [sp] + spans)
            == [LogToken(kind, line[sp.start..sp.end], sp.start, sp.end)] + AsTokens(line, kind, spans)
  {
    assert ([sp] + spans)[1..] == spans;
  }

  lemma OrderedTail(line: string, spans: seq<Span>)
    requires spans != [] && InBounds(line, spans) && Ordered(spans)
    ensures InBounds(line, spans[1..]) && Ordered(spans[1..])
  {
    var rest := spans[1..];
    forall i, j | 0 <= i < j < |rest|
      ensures rest[i].end <= rest[j].start
    {
      assert rest[i] == spans[i + 1] && rest[j] == spans[j + 1];
    }
  }

  /** The step of the closed form for a first match on a free region. */
  lemma AcceptFreeFirst(line: string, kind: TokenType, spans: seq<Span>, st: Claims)
    requires |st.used| == |line|
    requires spans != [] && InBounds(line, spans) && Ordered(spans)
    requires !RegionUsed(st.used, spans[0].start, spans[0].end)
    requires var sp := spans[0];
      var st' := Claims(st.tokens + [LogToken(kind, line[sp.start..sp.end], sp.start, sp.end)],
                        Claim(st.used, sp.start, sp.end));
      ApplySpans(line, kind, spans[1..], st').tokens
        == st'.tokens + AsTokens(line, kind, Unclaimed(spans[1..], st'.used))
    ensures ApplySpans(line, kind, spans, st).tokens
            == st.tokens + AsTokens(line, kind, Unclaimed(spans, st.used))
  {
    var sp := spans[0];
    assert sp in spans;
    var rest := spans[1..];
    var t := LogToken(kind, line[sp.start..sp.end], sp.start, sp.end);
    var used' := Claim(st.used, sp.start, sp.end);
    UnclaimedAfterFreeFirst(spans, st.used);
    AsTokensCons(line, kind, sp, Unclaimed(rest, used'));
    AppendAssociates(st.tokens, [t], AsTokens(line, kind, Unclaimed(rest, used')));
  }

  lemma AppendAssociates(a: seq<LogToken>, b: seq<LogToken>, c: seq<LogToken>)
    ensures a + b + c == a + (b + c)
  {
  }

  /** First claim wins, in closed form: because the matches of one pattern do
      not overlap, the tokens one scan adds are exactly the matches whose
      region was entirely free before the scan began, in scan order. */
  lemma {:induction false} ApplySpansAcceptsUnclaimed(line: string, kind: TokenType, spans: seq<Span>, st: Claims)
    requires |st.used| == |line|
    requires InBounds(line, spans)
    requires Ordered(spans)
    ensures ApplySpans(line, kind, spans, st).tokens
            == st.tokens + AsTokens(line, kind, Unclaimed(spans, st.used))
    decreases |spans|
  {
    if spans != [] {
      var sp := spans[0];
      assert sp in spans;
      OrderedTail(line, spans);
      if RegionUsed(st.used, sp.start, sp.end) {
        ApplySpansAcceptsUnclaimed(line, kind, spans[1..], st);
        UnclaimedAfterUsedFirst(spans, st.used);
      } else {
        var t := LogToken(kind, line[sp.start..sp.end], sp.start, sp.end);
        ApplySpansAcceptsUnclaimed(line, kind, spans[1..], Claims(st.tokens + [t], Claim(st.used, sp.start, sp.end)));
        AcceptFreeFirst(line, kind, spans, st);
      }
    }
  }

  lemma {:induction false} ApplyPatternsKeepsConsistent(line: string, kind: TokenType, patterns: seq<Matcher>, st: Claims)
    requires Consistent(line, st)
    ensures var r := ApplyPatterns(line, kind, patterns, st);
      && Consistent(line, r)
      && |st.tokens| <= |r.tokens| && r.tokens[..|st.tokens|] == st.tokens
      && (forall k | |st.tokens| <= k < |r.tokens| :: r.tokens[k].kind == kind)
      && (forall p | 0 <= p < |line| && st.used[p] :: r.used[p])
    decreases |patterns|
  {
    if patterns != [] {
      var mid := ApplySpans(line, kind, Scan(patterns[0], line, 0), st);
      ApplySpansKeepsConsistent(line, kind, Scan(patterns[0], line, 0), st);
      ApplyPatternsKeepsConsistent(line, kind, patterns[1..], mid);
      var r := ApplyPatterns(line, kind, patterns, st);
      assert r.tokens[..|mid.tokens|] == mid.tokens;
      assert r.tokens[..|st.tokens|] == mid.tokens[..|st.tokens|];
      forall k | |st.tokens| <= k < |r.tokens|
        ensures r.tokens[k].kind == kind
      {
        if k < |mid.tokens| {
          assert r.tokens[k] == mid.tokens[k];
        }
      }
    }
  }

  /** The claiming phase as a whole keeps the invariant; every token it adds
      gets the kind of one of the catalog's families. */
  lemma {:induction false} ApplyCatalogKeepsConsistent(line: string, catalog: seq<PatternFamily>, st: Claims)
    requires Consistent(line, st)
    ensures var r := ApplyCatalog(line, catalog, st);
      && Consistent(line, r)
      && |st.tokens| <= |r.tokens| && r.tokens[..|st.tokens|] == st.tokens
      && (forall k | |st.tokens| <= k < |r.tokens| :: r.tokens[k].kind in KindsOf(catalog))
      && (forall p | 0 <= p < |line| && st.used[p] :: r.used[p])
    decreases |catalog|
  {
    if catalog != [] {
      var mid := ApplyPatterns(line, catalog[0].kind, catalog[0].patterns, st);
      ApplyPatternsKeepsConsistent(line, catalog[0].kind, catalog[0].patterns, st);
      ApplyCatalogKeepsConsistent(line, catalog[1..], mid);
      var r := ApplyCatalog(line, catalog, st);
      assert r.tokens[..|mid.tokens|] == mid.tokens;
      assert r.tokens[..|st.tokens|] == mid.tokens[..|st.tokens|];
      forall k | |st.tokens| <= k < |r.tokens|
        ensures r.tokens[k].kind in KindsOf(catalog)
      {
        if k < |mid.tokens| {
          assert r.tokens[k] == mid.tokens[k];
          assert catalog[0].kind in KindsOf(catalog);
        } else {
          var x := r.tokens[k].kind;
          assert x in KindsOf(catalog[1..]);
          var i :| 0 <= i < |catalog[1..]| && catalog[1..][i].kind == x;
          assert catalog[i + 1].kind == x;
        }
      }
    }
  }

  // ---------------------------------------------------------------------
  // Proofs: filling

  /** Every token `fillRemainingText` emits is a text run at or after `i`. */
  lemma {:induction false} FillFromSound(line: string, used: seq<bool>, i: nat)
    requires |used| == |line| && i <= |line|
    requires i == 0 || i == |line| || used[i - 1] || used[i]
    ensures forall t | t in FillFrom(line, used, i) ::
              t.kind == TextToken && ValidToken(line, t) && i <= t.start
              && IsTextRun(line, used, t.start, t.end)
    decreases |line| - i
  {
    if i < |line| {
      if used[i] {
        assert FillFrom(line, used, i) == FillFrom(line, used, i + 1);
        FillFromSound(line, used, i + 1);
      } else {
        FillFromSound(line, used, RunEnd(used, i));
        FillRunSound(line, used, i);
      }
    }
  }

  /** The step of `FillFromSound` at the start of an unclaimed run. */
  lemma FillRunSound(line: string, used: seq<bool>, i: nat)
    requires |used| == |line| && i < |line| && !used[i]
    requires i == 0 || used[i - 1]
    requires forall t | t in FillFrom(line, used, RunEnd(used, i)) ::
               t.kind == TextToken && ValidToken(line, t) && RunEnd(used, i) <= t.start
               && IsTextRun(line, used, t.start, t.end)
    ensures forall t | t in FillFrom(line, used, i) ::
              t.kind == TextToken && ValidToken(line, t) && i <= t.start
              && IsTextRun(line, used, t.start, t.end)
  {
    var j := RunEnd(used, i);
    var rest := FillFrom(line, used, j);
    assert FillFrom(line, used, i) == RunToken(line, i, j) + rest;
    forall t | t in FillFrom(line, used, i)
      ensures t.kind == TextToken && ValidToken(line, t) && i <= t.start
      ensures IsTextRun(line, used, t.start, t.end)
    {
      if t !in rest {
        assert t == LogToken(TextToken, line[i..j], i, j);
      }
    }
  }

  /** The tokens of `fillRemainingText` come left to right. */
  lemma {:induction false} FillFromOrdered(line: string, used: seq<bool>, i: nat)
    requires |used| == |line| && i <= |line|
    requires i == 0 || i == |line| || used[i - 1] || used[i]
    ensures StrictlyOrdered(FillFrom(line, used, i))
    decreases |line| - i
  {
    var r := FillFrom(line, used, i);
    if i < |line| {
      if used[i] {
        assert r == FillFrom(line, used, i + 1);
        FillFromOrdered(line, used, i + 1);
      } else {
        var j := RunEnd(used, i);
        var rest := FillFrom(line, used, j);
        FillFromOrdered(line, used, j);
        var head := RunToken(line, i, j);
        assert r == head + rest;
        if head != [] {
          assert head == [LogToken(TextToken, line[i..j], i, j)];
          PrependKeepsOrder(head[0], rest);
        }
      }
    }
  }

  /** A run of free positions that ends at a claim or at the end is the one
      `RunEnd` finds. */
  lemma {:induction false} RunEndUnique(used: seq<bool>, i: nat, b: nat)
    requires i <= b <= |used|
    requires forall p | i <= p < b :: !used[p]
    requires b == |used| || used[b]
    ensures RunEnd(used, i) == b
    decreases b - i
  {
    if i < b {
      RunEndUnique(used, i + 1, b);
    }
  }

  /** `fillRemainingText` emits every text run at or after `i`. */
  lemma {:induction false} FillFromComplete(line: string, used: seq<bool>, i: nat)
    requires |used| == |line| && i <= |line|
    ensures forall a, b | i <= a && IsTextRun(line, used, a, b) ::
              LogToken(TextToken, line[a..b], a, b) in FillFrom(line, used, i)
    decreases |line| - i
  {
    var r := FillFrom(line, used, i);
    if i < |line| {
      if used[i] {
        FillFromComplete(line, used, i + 1);
      } else {
        var j := RunEnd(used, i);
        var rest := FillFrom(line, used, j);
        FillFromComplete(line, used, j);
        forall a, b | i <= a && IsTextRun(line, used, a, b)
          ensures LogToken(TextToken, line[a..b], a, b) in r
        {
          if a == i {
            RunEndUnique(used, i, b);
          } else {
            assert used[a - 1];
            assert a - 1 >= j;
            assert LogToken(TextToken, line[a..b], a, b) in rest;
          }
        }
      }
    }
  }

  /** `fillRemainingText` covers every free non-whitespace character at or
      after `i`. */
  lemma {:induction false} FillFromCovers(line: string, used: seq<bool>, i: nat)
    requires |used| == |line| && i <= |line|
    ensures forall p | i <= p < |line| && !used[p] && !IsWhitespace(line[p]) ::
              CoveredBy(FillFrom(line, used, i), p)
    decreases |line| - i
  {
    var r := FillFrom(line, used, i);
    if i < |line| {
      if used[i] {
        FillFromCovers(line, used, i + 1);
      } else {
        var j := RunEnd(used, i);
        var rest := FillFrom(line, used, j);
        FillFromCovers(line, used, j);
        forall p | i <= p < |line| && !used[p] && !IsWhitespace(line[p])
          ensures CoveredBy(r, p)
        {
          if p < j {
            assert line[i..j][p - i] == line[p];
            assert !AllWhitespace(line[i..j]);
            var t := LogToken(TextToken, line[i..j], i, j);
            assert t in r && Covers(t, p);
          } else {
            var t :| t in rest && Covers(t, p);
            assert t in r;
          }
        }
      }
    }
  }

  // ---------------------------------------------------------------------
  // Proofs: sorting

  /** A token that ends before every token of an ordered list can go first. */
  lemma PrependKeepsOrder(x: LogToken, s: seq<LogToken>)
    requires StrictlyOrdered(s)
    requires forall u | u in s :: x.end <= u.start
    ensures StrictlyOrdered([x] + s)
  {
    var r := [x] + s;
    forall i, j | 0 <= i < j < |r|
      ensures r[i].end <= r[j].start
    {
      assert r[j] == s[j - 1];
      if i > 0 {
        assert r[i] == s[i - 1];
      }
    }
  }

  lemma InsertMembers(t: LogToken, s: seq<LogToken>)
    ensures forall u :: u in InsertByStart(t, s) <==> u == t || u in s
  {
    forall u
      ensures u in InsertByStart(t, s) <==> u == t || u in s
    {
      assert u in InsertByStart(t, s) <==> u in multiset(InsertByStart(t, s));
      assert u in s <==> u in multiset(s);
    }
  }

  lemma {:induction false} InsertKeepsOrder(t: LogToken, s: seq<LogToken>)
    requires StrictlyOrdered(s)
    requires t.start < t.end
    requires forall u | u in s :: u.start < u.end && Apart(t, u)
    ensures StrictlyOrdered(InsertByStart(t, s))
    decreases |s|
  {
    if s != [] {
      assert s[0] in s;
      if t.start > s[0].start {
        var rest := InsertByStart(t, s[1..]);
        forall u | u in s[1..]
          ensures u.start < u.end && Apart(t, u)
        {
          assert u in s;
        }
        InsertKeepsOrder(t, s[1..]);
        assert s[0].end <= t.start;
        InsertMembers(t, s[1..]);
        forall u | u in rest
          ensures s[0].end <= u.start
        {
          if u != t {
            var k :| 0 <= k < |s[1..]| && s[1..][k] == u;
            assert s[k + 1] == u;
          }
        }
        PrependKeepsOrder(s[0], rest);
      } else {
        forall u | u in s
          ensures t.end <= u.start
        {
          var k :| 0 <= k < |s| && s[k] == u;
          assert s[0].start <= s[k].start;
        }
        PrependKeepsOrder(t, s);
      }
    }
  }

  /** Sorting pairwise-disjoint non-empty tokens by start lists them left to
      right without overlap. */
  lemma {:induction false} SortOrders(ts: seq<LogToken>)
    requires forall t | t in ts :: t.start < t.end
    requires PairwiseApart(ts)
    ensures StrictlyOrdered(SortByStart(ts))
    decreases |ts|
  {
    if ts != [] {
      var tail := ts[1..];
      forall t | t in tail
        ensures t.start < t.end
      {
        assert t in ts;
      }
      forall i, j | 0 <= i < |tail| && 0 <= j < |tail| && i != j
        ensures Apart(tail[i], tail[j])
      {
        assert tail[i] == ts[i + 1] && tail[j] == ts[j + 1];
      }
      SortOrders(tail);
      var sorted := SortByStart(tail);
      assert ts[0] in ts;
      forall u | u in sorted
        ensures u.start < u.end && Apart(ts[0], u)
      {
        assert u in multiset(sorted);
        assert u in tail;
        var k :| 0 <= k < |tail| && tail[k] == u;
        assert ts[k + 1] == u;
      }
      InsertKeepsOrder(ts[0], sorted);
    }
  }

  /** Sorting keeps exactly the tokens it is given. */
  lemma SortKeepsMembers(ts: seq<LogToken>)
    ensures forall t :: t in SortByStart(ts) <==> t in ts
  {
    forall t
      ensures t in SortByStart(ts) <==> t in ts
    {
      assert t in SortByStart(ts) <==> t in multiset(SortByStart(ts));
      assert t in ts <==> t in multiset(ts);
    }
  }

  // ---------------------------------------------------------------------
  // The main theorem

  /** Claimed tokens and tokens on unclaimed runs do not overlap. */
  lemma MergeApart(line: string, claimed: Claims, fill: seq<LogToken>)
    requires Consistent(line, claimed)
    requires forall t | t in fill :: ValidToken(line, t) && IsTextRun(line, claimed.used, t.start, t.end)
    requires StrictlyOrdered(fill)
    ensures PairwiseApart(claimed.tokens + fill)
  {
    var all := claimed.tokens + fill;
    var n := |claimed.tokens|;
    forall i, j | 0 <= i < |all| && 0 <= j < |all| && i != j
      ensures Apart(all[i], all[j])
    {
      if i < n && j < n {
        assert all[i] == claimed.tokens[i] && all[j] == claimed.tokens[j];
      } else if i >= n && j >= n {
        assert all[i] == fill[i - n] && all[j] == fill[j - n];
      } else if i < n {
        assert all[i] == claimed.tokens[i] && all[j] == fill[j - n];
        ClaimedApartFromRun(line, claimed, all[i], all[j]);
      } else {
        assert all[j] == claimed.tokens[j] && all[i] == fill[i - n];
        ClaimedApartFromRun(line, claimed, all[j], all[i]);
      }
    }
  }

  lemma ClaimedApartFromRun(line: string, claimed: Claims, c: LogToken, f: LogToken)
    requires Consistent(line, claimed)
    requires c in claimed.tokens
    requires ValidToken(line, f) && IsTextRun(line, claimed.used, f.start, f.end)
    ensures Apart(c, f)
  {
    forall p | c.start <= p < c.end
      ensures claimed.used[p]
    {
      assert Covers(c, p);
    }
    ClaimedAndFreeApart(claimed.used, c, f);
  }

  /** Putting the claimed tokens and the text tokens together: they are valid,
      pairwise disjoint, and every non-whitespace character is covered. */
  lemma MergeWellFormed(line: string, claimed: Claims, fill: seq<LogToken>)
    requires Consistent(line, claimed)
    requires forall t | t in fill :: ValidToken(line, t) && IsTextRun(line, claimed.used, t.start, t.end)
    requires StrictlyOrdered(fill)
    requires forall p | 0 <= p < |line| && !claimed.used[p] && !IsWhitespace(line[p]) :: CoveredBy(fill, p)
    ensures var all := claimed.tokens + fill;
      && (forall t | t in all :: ValidToken(line, t))
      && PairwiseApart(all)
      && (forall p | 0 <= p < |line| && !IsWhitespace(line[p]) :: CoveredBy(all, p))
  {
    var all := claimed.tokens + fill;
    MergeApart(line, claimed, fill);
    forall p | 0 <= p < |line| && !IsWhitespace(line[p])
      ensures CoveredBy(all, p)
    {
      if claimed.used[p] {
        var t :| t in claimed.tokens && Covers(t, p);
        assert t in all;
      } else {
        var t :| t in fill && Covers(t, p);
        assert t in all;
      }
    }
  }

  /** The guarantees of `highlightLine`, for any catalog: every token is a
      non-empty slice of the line carrying that slice; the tokens are sorted
      by position and do not overlap, so each character lies in at most one
      token; every non-whitespace character lies in a token; so the only
      characters left out are whitespace. */
  lemma TokenizeWellFormed(catalog: seq<PatternFamily>, line: string)
    ensures var ts := Tokenize(catalog, line);
      && (forall t | t in ts :: ValidToken(line, t))
      && StrictlyOrdered(ts)
      && (forall p | 0 <= p < |line| && !IsWhitespace(line[p]) :: CoveredBy(ts, p))
      && (forall p | 0 <= p < |line| && !CoveredBy(ts, p) :: IsWhitespace(line[p]))
  {
    var claimed := ClaimAll(catalog, line);
    ApplyCatalogKeepsConsistent(line, catalog, NothingClaimed(line));
    var fill := FillFrom(line, claimed.used, 0);
    FillFromSound(line, claimed.used, 0);
    FillFromOrdered(line, claimed.used, 0);
    FillFromCovers(line, claimed.used, 0);
    MergeWellFormed(line, claimed, fill);
    var all := claimed.tokens + fill;
    var ts := SortByStart(all);
    SortKeepsMembers(all);
    SortOrders(all);
    forall p | 0 <= p < |line| && !IsWhitespace(line[p])
      ensures CoveredBy(ts, p)
    {
      var t :| t in all && Covers(t, p);
      assert t in ts;
    }
  }

  /** The `text` tokens of `highlightLine` are exactly the maximal unclaimed
      runs that hold a non-whitespace character, whole, surrounding
      whitespace included; the other tokens are the claimed ones. */
  lemma TextTokensAreTextRuns(catalog: seq<PatternFamily>, line: string)
    requires TextToken !in KindsOf(catalog)
    ensures var ts := Tokenize(catalog, line);
      var used := ClaimAll(catalog, line).used;
      && (forall t | t in ts && t.kind == TextToken :: IsTextRun(line, used, t.start, t.end))
      && (forall a, b | IsTextRun(line, used, a, b) :: LogToken(TextToken, line[a..b], a, b) in ts)
      && (forall t | t in ts && t.kind != TextToken :: t in ClaimAll(catalog, line).tokens)
  {
    var claimed := ClaimAll(catalog, line);
    ApplyCatalogKeepsConsistent(line, catalog, NothingClaimed(line));
    var fill := FillFrom(line, claimed.used, 0);
    FillFromSound(line, claimed.used, 0);
    FillFromComplete(line, claimed.used, 0);
    var all := claimed.tokens + fill;
    var ts := SortByStart(all);
    SortKeepsMembers(all);
    forall t | t in claimed.tokens
      ensures t.kind in KindsOf(catalog)
    {
      var k :| 0 <= k < |claimed.tokens| && claimed.tokens[k] == t;
    }
  }

  // ---------------------------------------------------------------------
  // Proofs: priority between families

  /** Claims are never released by scanning one pattern. */
  lemma {:induction false} ApplySpansMonotone(line: string, kind: TokenType, spans: seq<Span>, st: Claims)
    requires |st.used| == |line|
    requires InBounds(line, spans)
    ensures forall p | 0 <= p < |line| && st.used[p] :: ApplySpans(line, kind, spans, st).used[p]
    decreases |spans|
  {
    if spans != [] {
      var sp := spans[0];
      assert sp in spans;
      if RegionUsed(st.used, sp.start, sp.end) {
        ApplySpansMonotone(line, kind, spans[1..], st);
      } else {
        var t := LogToken(kind, line[sp.start..sp.end], sp.start, sp.end);
        ApplySpansMonotone(line, kind, spans[1..], Claims(st.tokens + [t], Claim(st.used, sp.start, sp.end)));
      }
    }
  }

  /** After one pattern is scanned, every match it reported overlaps a claimed
      character: either it was accepted and claimed itself, or it was
      rejected because part of it was claimed already. */
  lemma {:induction false} ApplySpansTouches(line: string, kind: TokenType, spans: seq<Span>, st: Claims)
    requires |st.used| == |line|
    requires InBounds(line, spans)
    ensures forall sp | sp in spans ::
              RegionUsed(ApplySpans(line, kind, spans, st).used, sp.start, sp.end)
    decreases |spans|
  {
    if spans != [] {
      var sp := spans[0];
      assert sp in spans;
      var r := ApplySpans(line, kind, spans, st);
      if RegionUsed(st.used, sp.start, sp.end) {
        ApplySpansTouches(line, kind, spans[1..], st);
        ApplySpansMonotone(line, kind, spans[1..], st);
      } else {
        var t := LogToken(kind, line[sp.start..sp.end], sp.start, sp.end);
        var st' := Claims(st.tokens + [t], Claim(st.used, sp.start, sp.end));
        ApplySpansTouches(line, kind, spans[1..], st');
        ApplySpansMonotone(line, kind, spans[1..], st');
        assert r.used[sp.start];
      }
    }
  }

  lemma {:induction false} ApplyPatternsMonotone(line: string, kind: TokenType, patterns: seq<Matcher>, st: Claims)
    requires |st.used| == |line|
    ensures forall p | 0 <= p < |line| && st.used[p] :: ApplyPatterns(line, kind, patterns, st).used[p]
    decreases |patterns|
  {
    if patterns != [] {
      var mid := ApplySpans(line, kind, Scan(patterns[0], line, 0), st);
      ApplySpansMonotone(line, kind, Scan(patterns[0], line, 0), st);
      ApplyPatternsMonotone(line, kind, patterns[1..], mid);
    }
  }

  lemma {:induction false} ApplyPatternsTouches(line: string, kind: TokenType, patterns: seq<Matcher>, st: Claims, m: Matcher)
    requires |st.used| == |line|
    requires m in patterns
    ensures forall sp | sp in Scan(m, line, 0) ::
              RegionUsed(ApplyPatterns(line, kind, patterns, st).used, sp.start, sp.end)
    decreases |patterns|
  {
    var mid := ApplySpans(line, kind, Scan(patterns[0], line, 0), st);
    var r := ApplyPatterns(line, kind, patterns, st);
    if m == patterns[0] {
      ApplySpansTouches(line, kind, Scan(m, line, 0), st);
      ApplyPatternsMonotone(line, kind, patterns[1..], mid);
      forall sp | sp in Scan(m, line, 0)
        ensures RegionUsed(r.used, sp.start, sp.end)
      {
        var p :| sp.start <= p < sp.end && mid.used[p];
        assert r.used[p];
      }
    } else {
      assert m in patterns[1..];
      ApplyPatternsTouches(line, kind, patterns[1..], mid, m);
    }
  }

  /** Claims are never released by the claiming phase. */
  lemma {:induction false} ApplyCatalogMonotone(line: string, catalog: seq<PatternFamily>, st: Claims)
    requires |st.used| == |line|
    ensures forall p | 0 <= p < |line| && st.used[p] :: ApplyCatalog(line, catalog, st).used[p]
    decreases |catalog|
  {
    if catalog != [] {
      var mid := ApplyPatterns(line, catalog[0].kind, catalog[0].patterns, st);
      ApplyPatternsMonotone(line, catalog[0].kind, catalog[0].patterns, st);
      ApplyCatalogMonotone(line, catalog[1..], mid);
    }
  }

  /** Once the whole catalog has run, every match that any pattern of any
      family reported overlaps a claimed character. */
  lemma {:induction false} ApplyCatalogTouches(line: string, catalog: seq<PatternFamily>, st: Claims, g: nat, m: Matcher)
    requires |st.used| == |line|
    requires g < |catalog| && m in catalog[g].patterns
    ensures forall sp | sp in Scan(m, line, 0) ::
              RegionUsed(ApplyCatalog(line, catalog, st).used, sp.start, sp.end)
    decreases |catalog|
  {
    var mid := ApplyPatterns(line, catalog[0].kind, catalog[0].patterns, st);
    var r := ApplyCatalog(line, catalog, st);
    if g == 0 {
      ApplyPatternsTouches(line, catalog[0].kind, catalog[0].patterns, st, m);
      ApplyCatalogMonotone(line, catalog[1..], mid);
      forall sp | sp in Scan(m, line, 0)
        ensures RegionUsed(r.used, sp.start, sp.end)
      {
        var p :| sp.start <= p < sp.end && mid.used[p];
        assert r.used[p];
      }
    } else {
      assert catalog[1..][g - 1] == catalog[g];
      ApplyCatalogTouches(line, catalog[1..], mid, g - 1, m);
    }
  }

  /** Running two catalogs one after the other is running their
      concatenation. */
  lemma {:induction false} ApplyCatalogAppend(line: string, c1: seq<PatternFamily>, c2: seq<PatternFamily>, st: Claims)
    requires |st.used| == |line|
    ensures ApplyCatalog(line, c1 + c2, st) == ApplyCatalog(line, c2, ApplyCatalog(line, c1, st))
    decreases |c1|
  {
    if c1 == [] {
      assert c1 + c2 == c2;
    } else {
      assert (c1 + c2)[0] == c1[0];
      assert (c1 + c2)[1..] == c1[1..] + c2;
      var mid := ApplyPatterns(line, c1[0].kind, c1[0].patterns, st);
      ApplyCatalogAppend(line, c1[1..], c2, mid);
    }
  }

  /** First claim wins between families: a token of a later family never
      contains a match that a pattern of an earlier family reported, whether
      or not that match became a token itself. */
  lemma EarlierMatchBlocksLater(catalog: seq<PatternFamily>, line: string, g: nat, m: Matcher, t: LogToken, sp: Span)
    requires g < |catalog| && m in catalog[g].patterns
    requires sp in Scan(m, line, 0)
    requires t in ClaimAll(catalog, line).tokens
    ensures t.kind !in KindsOf(catalog[..g + 1]) ==> !(t.start <= sp.start && sp.end <= t.end)
  {
    if t.kind !in KindsOf(catalog[..g + 1]) {
      var pre := catalog[..g + 1];
      var post := catalog[g + 1..];
      CatalogSplits(catalog, g + 1);
      var st0 := NothingClaimed(line);
      ApplyCatalogAppend(line, pre, post, st0);
      var mid := ApplyCatalog(line, pre, st0);
      var fin := ApplyCatalog(line, post, mid);
      assert pre[g] == catalog[g];
      ApplyCatalogTouches(line, pre, st0, g, m);
      ApplyCatalogKeepsConsistent(line, pre, st0);
      ApplyCatalogKeepsConsistent(line, post, mid);
      assert forall k | 0 <= k < |mid.tokens| :: mid.tokens[k].kind in KindsOf(pre);
      LaterTokenAvoidsClaims(line, mid, fin, KindsOf(pre), t, sp.start, sp.end);
    }
  }

  /** A token added after the state `mid`, of a kind none of `mid`'s tokens
      has, lies apart from every token of `mid`, so it contains no claimed
      character of `mid`. */
  lemma LaterTokenAvoidsClaims(line: string, mid: Claims, fin: Claims, kinds: set<TokenType>,
                               t: LogToken, a: nat, b: nat)
    requires Consistent(line, mid) && Consistent(line, fin)
    requires |mid.tokens| <= |fin.tokens| && fin.tokens[..|mid.tokens|] == mid.tokens
    requires forall k | 0 <= k < |mid.tokens| :: mid.tokens[k].kind in kinds
    requires t in fin.tokens && t.kind !in kinds
    requires a <= b <= |line| && RegionUsed(mid.used, a, b)
    ensures !(t.start <= a && b <= t.end)
  {
    var p :| a <= p < b && mid.used[p];
    var u :| u in mid.tokens && Covers(u, p);
    var i :| 0 <= i < |mid.tokens| && mid.tokens[i] == u;
    assert fin.tokens[i] == u;
    var j :| 0 <= j < |fin.tokens| && fin.tokens[j] == t;
    assert i != j;
    assert Apart(u, t);
  }

  lemma CatalogSplits(catalog: seq<PatternFamily>, k: nat)
    requires k <= |catalog|
    ensures catalog == catalog[..k] + catalog[k..]
  {
  }

  /** A `text` token never contains a match that any pattern reported: each
      such match overlaps a claimed character, and a text run has none. */
  lemma MatchNeverInsideText(catalog: seq<PatternFamily>, line: string, g: nat, m: Matcher, a: nat, b: nat, sp: Span)
    requires g < |catalog| && m in catalog[g].patterns
    requires sp in Scan(m, line, 0)
    requires IsTextRun(line, ClaimAll(catalog, line).used, a, b)
    ensures !(a <= sp.start && sp.end <= b)
  {
    ApplyCatalogTouches(line, catalog, NothingClaimed(line), g, m);
  }

  /** The set of tokens `highlightLine` returns, before sorting. */
  lemma TokenizeMembers(catalog: seq<PatternFamily>, line: string)
    ensures var claimed := ClaimAll(catalog, line);
      forall t :: t in Tokenize(catalog, line) <==> t in claimed.tokens + FillFrom(line, claimed.used, 0)
  {
    var claimed := ClaimAll(catalog, line);
    var all := claimed.tokens + FillFrom(line, claimed.used, 0);
    var ts := SortByStart(all);
    SortKeepsMembers(all);
  }

  /** What `highlightLine` returns, whether claimed or filled: no token of a
      later family and no `text` token contains a match that the `exec`
      loop of an earlier family reported. */
  lemma ScannedMatchOutranksLaterTokens(catalog: seq<PatternFamily>, line: string, g: nat, m: Matcher,
                                        t: LogToken, sp: Span)
    requires g < |catalog| && m in catalog[g].patterns
    requires sp in Scan(m, line, 0)
    requires TextToken !in KindsOf(catalog)
    requires t in Tokenize(catalog, line)
    ensures t.start <= sp.start && sp.end <= t.end ==> t.kind in KindsOf(catalog[..g + 1])
  {
    var claimed := ClaimAll(catalog, line);
    TokenizeMembers(catalog, line);
    if t in claimed.tokens {
      EarlierMatchBlocksLater(catalog, line, g, m, t, sp);
    } else {
      TextTokensAreTextRuns(catalog, line);
      MatchNeverInsideText(catalog, line, g, m, t.start, t.end, sp);
    }
  }

  /** `[a, b)` holds a character that is not whitespace. */
  ghost predicate Visible(line: string, a: int, b: int) {
    exists k | a <= k < b :: 0 <= k < |line| && !IsWhitespace(line[k])
  }

  /** Every match of `m` holds a non-whitespace character. */
  ghost predicate VisibleMatcher(m: Matcher) {
    forall s: string, i: nat | MatchAt(m, s, i).Some? :: Visible(s, i, i + MatchAt(m, s, i).value)
  }

  ghost predicate VisibleCatalog(catalog: seq<PatternFamily>) {
    forall f, m | 0 <= f < |catalog| && m in catalog[f].patterns :: VisibleMatcher(m)
  }

  /** When no pattern can match whitespace alone, every token of
      `highlightLine` holds a non-whitespace character. */
  lemma TokensAreVisible(catalog: seq<PatternFamily>, line: string)
    requires VisibleCatalog(catalog)
    ensures var ts := Tokenize(catalog, line);
      && (forall t | t in ts :: Visible(line, t.start, t.end))
      && (ts == [] || Visible(line, ts[0].start, ts[0].end))
  {
    var claimed := ClaimAll(catalog, line);
    var ts := Tokenize(catalog, line);
    TokenizeMembers(catalog, line);
    ClaimedTokensVisible(catalog, line);
    FillTokensVisible(line, claimed.used);
    if ts != [] {
      assert ts[0] in ts;
    }
  }

  /** Token `t` is a match some pattern of `patterns` reported. */
  ghost predicate ScannedBy(line: string, patterns: seq<Matcher>, t: LogToken) {
    exists m | m in patterns :: Span(t.start, t.end) in Scan(m, line, 0)
  }

  /** Token `t` is a match a pattern of a family of kind `t.kind` reported. */
  ghost predicate FromScanOf(line: string, catalog: seq<PatternFamily>, t: LogToken) {
    exists f | 0 <= f < |catalog| :: catalog[f].kind == t.kind && ScannedBy(line, catalog[f].patterns, t)
  }

  /** Every token one pattern's loop adds is one of the spans it was given,
      with the family's kind. */
  lemma {:induction false} ApplySpansFromSpans(line: string, kind: TokenType, spans: seq<Span>, st: Claims)
    requires |st.used| == |line|
    requires InBounds(line, spans)
    ensures forall t | t in ApplySpans(line, kind, spans, st).tokens ::
              t in st.tokens || (t.kind == kind && Span(t.start, t.end) in spans)
    decreases |spans|
  {
    if spans != [] {
      var sp := spans[0];
      assert sp in spans;
      assert forall x | x in spans[1..] :: x in spans;
      if RegionUsed(st.used, sp.start, sp.end) {
        ApplySpansFromSpans(line, kind, spans[1..], st);
      } else {
        var t := LogToken(kind, line[sp.start..sp.end], sp.start, sp.end);
        ApplySpansFromSpans(line, kind, spans[1..], Claims(st.tokens + [t], Claim(st.used, sp.start, sp.end)));
      }
    }
  }

  /** Every token a family adds is a match one of its patterns reported. */
  lemma {:induction false} ApplyPatternsFromScans(line: string, kind: TokenType, patterns: seq<Matcher>, st: Claims)
    requires |st.used| == |line|
    ensures forall t | t in ApplyPatterns(line, kind, patterns, st).tokens ::
              t in st.tokens || (t.kind == kind && ScannedBy(line, patterns, t))
    decreases |patterns|
  {
    if patterns != [] {
      var mid := ApplySpans(line, kind, Scan(patterns[0], line, 0), st);
      ApplySpansFromSpans(line, kind, Scan(patterns[0], line, 0), st);
      ApplyPatternsFromScans(line, kind, patterns[1..], mid);
      forall t | t in ApplyPatterns(line, kind, patterns, st).tokens && t !in st.tokens
        ensures t.kind == kind && ScannedBy(line, patterns, t)
      {
        if t in mid.tokens {
          assert patterns[0] in patterns;
        } else {
          var m :| m in patterns[1..] && Span(t.start, t.end) in Scan(m, line, 0);
          assert m in patterns;
        }
      }
    }
  }

  /** Every token the claiming phase adds is a match a pattern of a family of
      its kind reported. */
  lemma {:induction false} ApplyCatalogFromScans(line: string, catalog: seq<PatternFamily>, st: Claims)
    requires |st.used| == |line|
    ensures forall t | t in ApplyCatalog(line, catalog, st).tokens :: t in st.tokens || FromScanOf(line, catalog, t)
    decreases |catalog|
  {
    if catalog != [] {
      var mid := ApplyPatterns(line, catalog[0].kind, catalog[0].patterns, st);
      ApplyPatternsFromScans(line, catalog[0].kind, catalog[0].patterns, st);
      ApplyCatalogFromScans(line, catalog[1..], mid);
      forall t | t in ApplyCatalog(line, catalog, st).tokens && t !in st.tokens
        ensures FromScanOf(line, catalog, t)
      {
        if t !in mid.tokens {
          var f :| 0 <= f < |catalog[1..]| && catalog[1..][f].kind == t.kind
                   && ScannedBy(line, catalog[1..][f].patterns, t);
          assert catalog[f + 1] == catalog[1..][f];
        }
      }
    }
  }

  lemma ClaimedTokensFromScans(catalog: seq<PatternFamily>, line: string)
    ensures forall t | t in ClaimAll(catalog, line).tokens :: FromScanOf(line, catalog, t)
  {
    ApplyCatalogFromScans(line, catalog, NothingClaimed(line));
  }

  lemma ClaimedTokensVisible(catalog: seq<PatternFamily>, line: string)
    requires VisibleCatalog(catalog)
    ensures forall t | t in ClaimAll(catalog, line).tokens :: Visible(line, t.start, t.end)
  {
    ClaimedTokensFromScans(catalog, line);
    forall t | t in ClaimAll(catalog, line).tokens
      ensures Visible(line, t.start, t.end)
    {
      var f :| 0 <= f < |catalog| && catalog[f].kind == t.kind
               && exists m | m in catalog[f].patterns :: Span(t.start, t.end) in Scan(m, line, 0);
      var m :| m in catalog[f].patterns && Span(t.start, t.end) in Scan(m, line, 0);
      ScannedSpanVisible(m, line, Span(t.start, t.end));
    }
  }

  /** A claimed token is a match of a pattern of the family whose kind it has. */
  lemma ClaimedMatch(catalog: seq<PatternFamily>, line: string, t: LogToken) returns (f: nat, m: Matcher)
    requires t in ClaimAll(catalog, line).tokens
    ensures f < |catalog| && m in catalog[f].patterns && catalog[f].kind == t.kind
    ensures MatchAt(m, line, t.start) == Some(t.end - t.start)
  {
    ClaimedTokensFromScans(catalog, line);
    assert FromScanOf(line, catalog, t);
    f :| 0 <= f < |catalog| && catalog[f].kind == t.kind
         && exists m | m in catalog[f].patterns :: Span(t.start, t.end) in Scan(m, line, 0);
    m :| m in catalog[f].patterns && Span(t.start, t.end) in Scan(m, line, 0);
    ScannedSpanMatches(m, line, Span(t.start, t.end));
  }

  lemma ScannedSpanMatches(m: Matcher, line: string, sp: Span)
    requires sp in Scan(m, line, 0)
    ensures MatchAt(m, line, sp.start) == Some(sp.end - sp.start)
  {
  }

  /** A match a visible pattern's scan reports holds a non-whitespace character. */
  lemma ScannedSpanVisible(m: Matcher, line: string, sp: Span)
    requires VisibleMatcher(m) && sp in Scan(m, line, 0)
    ensures Visible(line, sp.start, sp.end)
  {
    assert MatchAt(m, line, sp.start) == Some(sp.end - sp.start);
    assert Visible(line, sp.start, sp.start + MatchAt(m, line, sp.start).value);
  }

  lemma FillTokensVisible(line: string, used: seq<bool>)
    requires |used| == |line|
    ensures forall t | t in FillFrom(line, used, 0) :: Visible(line, t.start, t.end)
  {
    FillFromSound(line, used, 0);
    forall t | t in FillFrom(line, used, 0)
      ensures Visible(line, t.start, t.end)
    {
      SliceNotBlankIsVisible(line, t.start, t.end);
    }
  }

  lemma SliceNotBlankIsVisible(line: string, a: nat, b: nat)
    requires a <= b <= |line| && !AllWhitespace(line[a..b])
    ensures Visible(line, a, b)
  {
    var k :| 0 <= k < b - a && !IsWhitespace(line[a..b][k]);
    assert line[a + k] == line[a..b][k];
  }

  /** Empty and whitespace-only lines yield no tokens at all. */
  lemma WhitespaceLineHasNoTokens(catalog: seq<PatternFamily>, line: string)
    requires VisibleCatalog(catalog)
    ensures AllWhitespace(line) ==> Tokenize(catalog, line) == []
  {
    TokensAreVisible(catalog, line);
  }
}
