/** `AIAnalyzer` without the network: the checks it applies to a reply from
    the language model, the rule-based analysis it falls back on, and how
    the two are chosen. The reply arrives already parsed, as a `RawResult`. */
module AiAnalyzer {
  import opened Wrappers
  import opened Strings
  import opened LogProcessor

  /** One issue of an `AnalysisResult`. */
  datatype Issue = Issue(line: int, content: string, explanation: string, suggestion: string, confidence: int)

  datatype AnalysisResult = AnalysisResult(criticalIssues: seq<Issue>, summary: string, processingTime: int)

  /** An issue as the model may send it. `line` is `None` when the field is
      not a number; `confidence` is what `Number` makes of the field, `None`
      standing for `NaN`; an absent or empty text field is `""`. */
  datatype RawIssue = RawIssue(
    line: Option<int>,
    content: string,
    explanation: string,
    suggestion: string,
    confidence: Option<int>)

  /** A parsed reply. `criticalIssues` is `None` when the field is not an
      array; an absent or empty summary is `""`. */
  datatype RawResult = RawResult(criticalIssues: Option<seq<RawIssue>>, summary: string, processingTime: int)

  // ---------------------------------------------------------------------
  // Checking a reply

  /** `a || b` on strings: `b` when `a` is empty. */
  function OrDefault(a: string, b: string): (r: string)
    ensures a != [] ==> r == a
    ensures a == [] ==> r == b
  {
    if a == [] then b else a
  }

  /** `Math.min(100, Math.max(0, Number(c) || 50))`: a missing, unreadable
      or zero confidence becomes 50, and the rest is clamped to 0..100. */
  function ClampConfidence(c: Option<int>): (r: int)
    ensures 0 <= r <= 100
    ensures c.Some? && 1 <= c.value <= 100 ==> r == c.value
    ensures c.Some? && c.value < 0 ==> r == 0
    ensures c.Some? && c.value > 100 ==> r == 100
    ensures c.None? || c.value == 0 ==> r == 50
  {
    var n := if c.None? || c.value == 0 then 50 else c.value;
    if n < 0 then 0 else if n > 100 then 100 else n
  }

  /** One reply issue with every field filled in. */
  function FormatIssue(raw: RawIssue): (r: Issue)
    ensures r.line == raw.line.GetOr(1)
    ensures r.content != [] && r.explanation != [] && r.suggestion != []
    ensures raw.content != [] ==> r.content == raw.content
    ensures raw.explanation != [] ==> r.explanation == raw.explanation
    ensures raw.suggestion != [] ==> r.suggestion == raw.suggestion
    ensures raw.content == [] ==> r.content == "Unknown error"
    ensures raw.explanation == [] ==> r.explanation == "No explanation provided"
    ensures raw.suggestion == [] ==> r.suggestion == "No suggestion provided"
    ensures r.confidence == ClampConfidence(raw.confidence)
    ensures 0 <= r.confidence <= 100
    ensures WellFormedIssue(r)
  {
    Issue(
      raw.line.GetOr(1),
      OrDefault(raw.content, "Unknown error"),
      OrDefault(raw.explanation, "No explanation provided"),
      OrDefault(raw.suggestion, "No suggestion provided"),
      ClampConfidence(raw.confidence))
  }

  /** The issue made up from the first critical line when the reply has
      none. */
  function PlaceholderIssue(line: int): (r: Issue)
    ensures r.line == line && r.confidence == 30
    ensures WellFormedIssue(r)
  {
    Issue(
      line,
      "Error detected in log",
      "An error was detected" + " but could not be" + " analyzed automatically",
      "Review the error line" + " and surrounding context" + " for debugging clues",
      30)
  }

  /** The first five reply issues, formatted. */
  function FormatIssues(raws: seq<RawIssue>): (r: seq<Issue>)
    ensures |r| == if |raws| < 5 then |raws| else 5
    ensures forall i | 0 <= i < |r| :: r[i] == FormatIssue(raws[i])
    ensures forall i | 0 <= i < |r| :: WellFormedIssue(r[i])
  {
    var kept := if |raws| < 5 then raws else raws[..5];
    seq(|kept|, i requires 0 <= i < |kept| => FormatIssue(kept[i]))
  }

  /** A well-formed issue: every text present, confidence within 0..100. */
  predicate WellFormedIssue(i: Issue) {
    |i.content| > 0 && |i.explanation| > 0 && |i.suggestion| > 0 && 0 <= i.confidence <= 100
  }

  /** The issues of a checked reply: the formatted reply issues, or, when
      there are none (formatting keeps every issue, so only an empty or
      missing array gives none), a placeholder for the first critical
      line. */
  function CheckedIssues(raws: Option<seq<RawIssue>>, criticalLines: seq<int>): (r: seq<Issue>)
    ensures |r| <= 5
    ensures forall i | 0 <= i < |r| :: WellFormedIssue(r[i])
    ensures criticalLines != [] ==> r != []
    ensures raws.Some? && raws.value != [] ==> r == FormatIssues(raws.value)
    ensures (raws.None? || raws.value == []) ==>
              r == if criticalLines == [] then [] else [PlaceholderIssue(criticalLines[0])]
  {
    if raws.Some? && raws.value != [] then FormatIssues(raws.value)
    else if criticalLines == [] then []
    else [PlaceholderIssue(criticalLines[0])]
  }

  /** `validateAndFormatResult`. */
  function ValidateAndFormatResult(raw: RawResult, criticalLines: seq<int>): (r: AnalysisResult)
    ensures |r.criticalIssues| <= 5
    ensures forall i | 0 <= i < |r.criticalIssues| :: WellFormedIssue(r.criticalIssues[i])
    ensures r.summary != [] && r.processingTime == raw.processingTime
    ensures raw.summary != [] ==> r.summary == raw.summary
    ensures raw.summary == [] ==> r.summary == "AI analysis completed"
    ensures raw.criticalIssues.Some? && raw.criticalIssues.value != [] ==>
              && |r.criticalIssues| == (if |raw.criticalIssues.value| < 5 then |raw.criticalIssues.value| else 5)
              && forall i | 0 <= i < |r.criticalIssues| ::
                   r.criticalIssues[i] == FormatIssue(raw.criticalIssues.value[i])
    ensures (raw.criticalIssues.None? || raw.criticalIssues.value == []) ==>
              r.criticalIssues == if criticalLines == [] then [] else [PlaceholderIssue(criticalLines[0])]
    ensures criticalLines != [] ==> r.criticalIssues != []
  {
    AnalysisResult(
      CheckedIssues(raw.criticalIssues, criticalLines),
      OrDefault(raw.summary, "AI analysis completed"),
      raw.processingTime)
  }

  /** A finished result written back as a reply, every field present. */
  function AsReply(r: AnalysisResult): RawResult {
    RawResult(
      Some(seq(|r.criticalIssues|, i requires 0 <= i < |r.criticalIssues| =>
        var issue := r.criticalIssues[i];
        RawIssue(Some(issue.line), issue.content, issue.explanation, issue.suggestion, Some(issue.confidence)))),
      r.summary,
      r.processingTime)
  }

  /** Checking a checked result again changes nothing, unless one of its
      issues has confidence 0, which a second pass turns into 50. */
  lemma RevalidationIsIdleUnlessZero(raw: RawResult, criticalLines: seq<int>)
    ensures var r := ValidateAndFormatResult(raw, criticalLines);
            ValidateAndFormatResult(AsReply(r), criticalLines) == r <==>
              forall i | 0 <= i < |r.criticalIssues| :: r.criticalIssues[i].confidence != 0
  {
    var r := ValidateAndFormatResult(raw, criticalLines);
    var again := ValidateAndFormatResult(AsReply(r), criticalLines);
    var issues := r.criticalIssues;
    if issues == [] {
      assert again.criticalIssues == [];
    } else {
      assert |again.criticalIssues| == |issues|;
      forall i | 0 <= i < |issues|
        ensures again.criticalIssues[i].confidence == ClampConfidence(Some(issues[i].confidence))
        ensures issues[i].confidence != 0 ==> again.criticalIssues[i] == issues[i]
      {
        assert WellFormedIssue(issues[i]);
      }
      if forall i | 0 <= i < |issues| :: issues[i].confidence != 0 {
        assert again.criticalIssues == issues;
      } else {
        var i :| 0 <= i < |issues| && issues[i].confidence == 0;
        assert again.criticalIssues[i].confidence == 50;
      }
    }
  }

  // ---------------------------------------------------------------------
  // Rule-based explanations

  /** The kinds of error the rule-based analysis tells apart. */
  datatype Category = TypeErrorCategory | ReferenceErrorCategory | NotFoundCategory | CorsCategory
                    | NetworkCategory | OtherCategory

  /** Which test of `getBasicExplanation` and `getBasicSuggestion` fires
      first on the lower-cased text. */
  function Categorize(content: string): (c: Category)
    ensures c == TypeErrorCategory <==> Occurs(Lower(content), "typeerror")
    ensures c == ReferenceErrorCategory <==>
              !Occurs(Lower(content), "typeerror") && Occurs(Lower(content), "referenceerror")
    ensures c == NotFoundCategory <==>
              && !Occurs(Lower(content), "typeerror") && !Occurs(Lower(content), "referenceerror")
              && Occurs(Lower(content), "404")
    ensures c == CorsCategory <==>
              && !Occurs(Lower(content), "typeerror") && !Occurs(Lower(content), "referenceerror")
              && !Occurs(Lower(content), "404") && Occurs(Lower(content), "cors")
    ensures c == NetworkCategory <==>
              && !Occurs(Lower(content), "typeerror") && !Occurs(Lower(content), "referenceerror")
              && !Occurs(Lower(content), "404") && !Occurs(Lower(content), "cors")
              && Occurs(Lower(content), "network")
  {
    var lower := Lower(content);
    if Contains(lower, "typeerror") then TypeErrorCategory
    else if Contains(lower, "referenceerror") then ReferenceErrorCategory
    else if Contains(lower, "404") then NotFoundCategory
    else if Contains(lower, "cors") then CorsCategory
    else if Contains(lower, "network") then NetworkCategory
    else OtherCategory
  }

  /** The explanation `getBasicExplanation` gives for each kind. The texts
      are written in pieces, the first naming the kind, so that a proof
      about their opening letters need not read the whole text. */
  function ExplanationOf(c: Category): string {
    match c
    case TypeErrorCategory =>
      "A TypeError" + " occurred, " + "typically when trying to use a value " + "as a different type than expected"
    case ReferenceErrorCategory =>
      "A ReferenceError" + " occurred, " + "usually when trying to access " + "an undefined variable"
    case NotFoundCategory =>
      "A resource" + " was not found (404 error), " + "indicating a broken link or missing file"
    case CorsCategory =>
      "A CORS" + " (Cross-Origin Resource Sharing) " + "error occurred, " + "blocking a cross-origin request"
    case NetworkCategory =>
      "A network" + " error occurred, " + "possibly due to connectivity issues " + "or server problems"
    case OtherCategory =>
      "An error" + " was detected in the console log"
  }

  /** The suggestion `getBasicSuggestion` gives for each kind. */
  function SuggestionOf(c: Category): string {
    match c
    case TypeErrorCategory =>
      "Check data" + " types and add " + "null/undefined checks " + "before accessing properties"
    case ReferenceErrorCategory =>
      "Verify variable" + " names are spelled correctly " + "and variables are properly declared"
    case NotFoundCategory =>
      "Check the" + " URL/path is correct " + "and the resource exists on the server"
    case CorsCategory =>
      "Configure" + " CORS headers on the server " + "or use a proxy for development"
    case NetworkCategory =>
      "Check network" + " connectivity and server status"
    case OtherCategory =>
      "Review the" + " error context and check " + "for common programming mistakes"
  }

  /** `getBasicExplanation`. */
  function BasicExplanation(content: string): (r: string)
    ensures r == ExplanationOf(Categorize(content))
    ensures |r| > 2 && KindOfExplanation(r) == Categorize(content)
  {
    ExplanationNamesItsKind(Categorize(content));
    ExplanationOf(Categorize(content))
  }

  /** `getBasicSuggestion`. */
  function BasicSuggestion(content: string): (r: string)
    ensures r == SuggestionOf(Categorize(content))
    ensures |r| > 7 && KindOfSuggestion(r) == Categorize(content)
  {
    SuggestionNamesItsKind(Categorize(content));
    SuggestionOf(Categorize(content))
  }

  /** The kind an explanation was written for, read off its third
      character. */
  function KindOfExplanation(e: string): Category
    requires |e| > 2
  {
    match e[2]
    case 'T' => TypeErrorCategory
    case 'R' => ReferenceErrorCategory
    case 'r' => NotFoundCategory
    case 'C' => CorsCategory
    case 'n' => NetworkCategory
    case _ => OtherCategory
  }

  /** The kind a suggestion was written for, read off its eighth
      character. */
  function KindOfSuggestion(s: string): Category
    requires |s| > 7
  {
    match s[7]
    case 'a' => TypeErrorCategory
    case 'v' => ReferenceErrorCategory
    case 'h' => NotFoundCategory
    case 'r' => CorsCategory
    case 'e' => NetworkCategory
    case _ => OtherCategory
  }

  lemma ExplanationNamesItsKind(c: Category)
    ensures |ExplanationOf(c)| > 2 && KindOfExplanation(ExplanationOf(c)) == c
  {
    var e := ExplanationOf(c);
    var k: char;
    match c
    case TypeErrorCategory => k := 'T';
    case ReferenceErrorCategory => k := 'R';
    case NotFoundCategory => k := 'r';
    case CorsCategory => k := 'C';
    case NetworkCategory => k := 'n';
    case OtherCategory => k := ' ';
    assert |e| > 2 && e[2] == k;
  }

  lemma SuggestionNamesItsKind(c: Category)
    ensures |SuggestionOf(c)| > 7 && KindOfSuggestion(SuggestionOf(c)) == c
  {
    var s := SuggestionOf(c);
    var k: char;
    match c
    case TypeErrorCategory => k := 'a';
    case ReferenceErrorCategory => k := 'v';
    case NotFoundCategory => k := 'h';
    case CorsCategory => k := 'r';
    case NetworkCategory => k := 'e';
    case OtherCategory => k := 't';
    assert |s| > 7 && s[7] == k;
  }

  /** Different kinds get different explanations. */
  lemma ExplanationsDiffer(a: Category, b: Category)
    ensures ExplanationOf(a) == ExplanationOf(b) ==> a == b
  {
    ExplanationNamesItsKind(a);
    ExplanationNamesItsKind(b);
  }

  /** Different kinds get different suggestions. */
  lemma SuggestionsDiffer(a: Category, b: Category)
    ensures SuggestionOf(a) == SuggestionOf(b) ==> a == b
  {
    SuggestionNamesItsKind(a);
    SuggestionNamesItsKind(b);
  }

  /** The explanation and the suggestion for a text always come from the
      same test: two texts get the same explanation exactly when they get
      the same suggestion. */
  lemma ExplanationMatchesSuggestion(a: string, b: string)
    ensures BasicExplanation(a) == BasicExplanation(b) <==> BasicSuggestion(a) == BasicSuggestion(b)
  {
    ExplanationsDiffer(Categorize(a), Categorize(b));
    SuggestionsDiffer(Categorize(a), Categorize(b));
  }

  // ---------------------------------------------------------------------
  // Falling back

  /** `logLines.find(l => l.lineNumber === n)`. */
  function FindLine(lines: seq<LogLine>, n: int): (r: Option<LogLine>)
    ensures r.None? <==> forall m | 0 <= m < |lines| :: lines[m].lineNumber != n
    ensures r.Some? ==>
              exists m | 0 <= m < |lines| ::
                && lines[m] == r.value && r.value.lineNumber == n
                && (forall k | 0 <= k < m :: lines[k].lineNumber != n)
  {
    if lines == [] then None
    else if lines[0].lineNumber == n then Some(lines[0])
    else
      var rest := FindLine(lines[1..], n);
      assert forall m | 0 < m < |lines| :: lines[m] == lines[1..][m - 1];
      if rest.Some? then
        assert exists m | 0 <= m < |lines[1..]| :: lines[1..][m] == rest.value && rest.value.lineNumber == n
                 && forall k | 0 <= k < m :: lines[1..][k].lineNumber != n;
        var m :| 0 <= m < |lines[1..]| && lines[1..][m] == rest.value && rest.value.lineNumber == n
                 && forall k | 0 <= k < m :: lines[1..][k].lineNumber != n;
        assert lines[m + 1] == rest.value;
        assert forall k | 0 < k < m + 1 :: lines[k] == lines[1..][k - 1];
        rest
      else
        rest
  }

  /** The issue the fallback makes of critical line `n`. */
  function FallbackIssue(lines: seq<LogLine>, n: int): (r: Issue)
    ensures r.line == n && r.confidence == 60
    ensures r.explanation == BasicExplanation(r.content) && r.suggestion == BasicSuggestion(r.content)
    ensures FindLine(lines, n).Some? && FindLine(lines, n).value.content != [] ==>
              r.content == FindLine(lines, n).value.content
    ensures FindLine(lines, n).None? ==> r.content == "Unknown error"
    ensures FindLine(lines, n).Some? && FindLine(lines, n).value.content == [] ==> r.content == "Unknown error"
  {
    var found := FindLine(lines, n);
    var content := OrDefault(if found.Some? then found.value.content else [], "Unknown error");
    Issue(n, content, BasicExplanation(content), BasicSuggestion(content), 60)
  }

  /** The summary the fallback writes for `count` issues. */
  function FallbackSummary(count: nat): (s: string)
    ensures |s| >= 6 && s[..6] == "Found " && OccursAt(s, Decimal(count), 6)
  {
    "Found " + Decimal(count)
    + " potential issues" + " in the console log." + " AI analysis unavailable"
    + " - using rule-based" + " detection."
  }

  /** The digits after `Found ` read back as the number of issues. */
  lemma SummaryStatesCount(count: nat)
    ensures var s := FallbackSummary(count);
            var d := |Decimal(count)|;
            6 + d <= |s| && (forall i | 6 <= i < 6 + d :: IsDigit(s[i])) && DecimalValue(s[6..6 + d]) == count
  {
    DecimalRoundTrip(count);
  }

  /** `fallbackAnalysis`: up to three critical lines, each explained by the
      rule-based tests, with confidence 60. */
  function FallbackAnalysis(p: ProcessedLog, criticalLines: seq<int>, processingTime: int): (r: AnalysisResult)
    ensures |r.criticalIssues| == if |criticalLines| < 3 then |criticalLines| else 3
    ensures forall i | 0 <= i < |r.criticalIssues| ::
              && r.criticalIssues[i].line == criticalLines[i]
              && r.criticalIssues[i].confidence == 60
              && r.criticalIssues[i] == FallbackIssue(p.logLines, criticalLines[i])
    ensures r.summary == FallbackSummary(|r.criticalIssues|)
    ensures r.processingTime == processingTime
  {
    var kept := if |criticalLines| < 3 then criticalLines else criticalLines[..3];
    var issues := seq(|kept|, i requires 0 <= i < |kept| => FallbackIssue(p.logLines, kept[i]));
    AnalysisResult(issues, FallbackSummary(|issues|), processingTime)
  }

  /** Where line numbers ascend, looking an entry's number up finds that
      entry. */
  lemma FindLineFindsTheEntry(lines: seq<LogLine>, m: nat)
    requires m < |lines|
    requires forall a, b | 0 <= a < b < |lines| :: lines[a].lineNumber < lines[b].lineNumber
    ensures FindLine(lines, lines[m].lineNumber) == Some(lines[m])
  {
    var found := FindLine(lines, lines[m].lineNumber);
    var k :| 0 <= k < |lines| && lines[k] == found.value && found.value.lineNumber == lines[m].lineNumber;
    assert k == m;
  }

  /** Issue `i` names a critical entry of `lines` and quotes its text. */
  ghost predicate QuotesCriticalEntry(lines: seq<LogLine>, issue: Issue) {
    exists m | 0 <= m < |lines| ::
      && lines[m].lineNumber == issue.line
      && lines[m].content == issue.content
      && IsCritical(lines[m])
  }

  /** On a processed log's own critical lines the fallback always quotes
      the critical entry: every critical line has an entry, and the issue
      carries that entry's text rather than `Unknown error`. */
  lemma FallbackQuotesCriticalLines(p: ProcessedLog, processingTime: int)
    requires forall m | 0 <= m < |p.logLines| :: p.logLines[m].content != []
    requires forall a, b | 0 <= a < b < |p.logLines| :: p.logLines[a].lineNumber < p.logLines[b].lineNumber
    ensures forall issue | issue in FallbackAnalysis(p, IdentifyCriticalLines(p), processingTime).criticalIssues ::
              QuotesCriticalEntry(p.logLines, issue)
  {
    var cl := IdentifyCriticalLines(p);
    var issues := FallbackAnalysis(p, cl, processingTime).criticalIssues;
    forall i | 0 <= i < |issues|
      ensures QuotesCriticalEntry(p.logLines, issues[i])
    {
      var n := cl[i];
      assert n in cl;
      var m :| 0 <= m < |p.logLines| && IsCritical(p.logLines[m]) && p.logLines[m].lineNumber == n;
      FindLineFindsTheEntry(p.logLines, m);
      assert issues[i] == FallbackIssue(p.logLines, n);
    }
  }

  /** The fallback on a log straight from the processor quotes a critical
      entry in every issue. */
  lemma FallbackOnProcessedLog(rawLog: string, processingTime: int)
    ensures var p := Processed(rawLog);
            forall issue | issue in FallbackAnalysis(p, IdentifyCriticalLines(p), processingTime).criticalIssues ::
              QuotesCriticalEntry(p.logLines, issue)
  {
    var parts := Split(rawLog, '\n');
    var p := Processed(rawLog);
    EntriesDescribeLines(Trim, Describe, parts, |parts|);
    EntriesAscend(Trim, Describe, parts, |parts|);
    forall m | 0 <= m < |p.logLines|
      ensures p.logLines[m].content != []
    {
      assert DescribesLine(Trim, Describe, parts, p.logLines[m]);
    }
    FallbackQuotesCriticalLines(p, processingTime);
  }

  // ---------------------------------------------------------------------
  // The whole analysis

  /** `analyzeLog` with the model's parsed reply as a parameter: `None` when
      the request, the reply or its parsing failed. */
  method AnalyzeLog(rawLog: string, reply: Option<RawResult>, elapsed: int) returns (r: AnalysisResult)
    ensures var cl := IdentifyCriticalLines(Processed(rawLog));
            cl != [] ==> r.criticalIssues != []
    ensures |r.criticalIssues| <= 5
    ensures reply.None? ==>
              r == FallbackAnalysis(Processed(rawLog), IdentifyCriticalLines(Processed(rawLog)), elapsed)
    ensures reply.Some? ==>
              r == ValidateAndFormatResult(reply.value.(processingTime := elapsed),
                                           IdentifyCriticalLines(Processed(rawLog)))
  {
    var processed := Process(rawLog);
    var critical := IdentifyCriticalLines(processed);
    if reply.Some? {
      r := ValidateAndFormatResult(reply.value.(processingTime := elapsed), critical);
    } else {
      r := FallbackAnalysis(processed, critical, elapsed);
    }
  }
}
