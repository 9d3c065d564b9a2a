# Log.Jam core, modelled in Dafny

Log.Jam takes a pasted browser-console log, finds the lines that matter and
shows them. This project models the core of that pipeline as pure Dafny
functions and proves properties about them:

- **the syntax highlighter** (`LogSyntaxHighlighter`). It assigns each line a
  severity level by substring tests. It tokenizes the line by letting nine
  families of regular expressions claim non-overlapping regions in priority
  order. It then fills the unclaimed gaps with `text` tokens and sorts by
  position. `SyntaxHighlightedLog` calls it once per line of the log.
- **the log processor** (`LogProcessor`). It splits a log into trimmed,
  numbered entries carrying a timestamp, a level and an error flag. It
  cleans the log with six global `replace` passes and a `trim`. It selects
  the first five critical line numbers.
- **the rule-based parts of the analyzer** (`AIAnalyzer`). These are the
  checking and repair of the reply, the fallback analysis, and the
  keyword-driven explanations and suggestions. `analyzeLog` ties them
  together.
- **the error navigator** (`ErrorNavigation`). It covers the wrap-around of
  the previous and next buttons, the counter label, the preview and the jump
  button.

Modules, one file each:

| module | file | what it holds |
|---|---|---|
| `Wrappers` | `wrappers.dfy` | `Option` |
| `Strings` | `strings.dfy` | whitespace and word classes as JavaScript defines them, ASCII lowering, `indexOf`/`includes`, `trim`, `split`/join, decimal numerals, the UTF-16 code units JavaScript counts |
| `Matching` | `matching.dfy` | a regular expression as a *matcher* (position → match length); the `exec`/`lastIndex` loop; global `replace`; fixed-width templates; `\b` and keyword alternations |
| `Highlighter` | `highlighter.dfy` | the claiming tokenizer over any pattern catalog; `determineLineLevel` |
| `LogPatterns` | `logpatterns.dfy` | the concrete pattern catalog, `highlightLine` and the per-line driver |
| `HighlightCases` | `highlightcases.dfy` | concrete consequences of the catalog's quirks |
| `LogProcessor` | `logprocessor.dfy` | `process`, `extractTimestamp`, `detectLogLevel`, `isErrorLine`, `removeNoiseFromLog`, `identifyCriticalLines` |
| `Consistency` | `consistency.dfy` | how the two level classifiers relate |
| `AiAnalyzer` | `aianalyzer.dfy` | reply checking, the fallback, explanations and suggestions, `analyzeLog` |
| `ErrorNavigation` | `errornavigation.dfy` | the navigation bar's arithmetic and guards |

Each regular expression is written out by hand as a matcher. The matcher
gives, for a position, the length of the match the JavaScript engine
reports there. This covers backtracking where it decides the match: in the
file-path pattern, the greedy `[^\s:]+` gives back characters until
`\.(ext)` fits. It also covers the order of alternatives: `js` is tried
before `json`, so `/a/b.json` matches as `/a/b.js`.

Where the code behaves in a way a reader might not expect, the model follows the code:

- A gap between claimed regions that is whitespace only gets no `text`
  token. So the tokens cover every visible character, but not always the
  whole line, and a whitespace-only line has no tokens at all.
- Cleaning is not idempotent. Cleaning `[a] [b] x` gives `[b] x`, and
  cleaning that gives `x`, because the bracket pass removes one prefix per
  line.
- The highlighter and the processor classify levels with different word
  lists. Every line the processor rates at some level is rated at that level
  or a more severe one by the highlighter, but not conversely (`failed`).
- `fatal` makes a line error-level but not an error line. Such a line is
  still critical.
- The fourth timestamp format of the processor (a bracketed time) can never
  be the one that decides. Any line it fits is already fitted by the
  time-of-day format, which comes earlier.
- A quoted `"error"` is a `level` token, not a `string`. A stack-frame line
  that names a source file gets a `file` token and no `stacktrace` token.
  Both follow from the priority order of the catalog.

## Model

| member | source | states |
|---|---|---|
| `Strings.SplitJoin` | src/components/SyntaxHighlightedLog.tsx:45 | splitting a log on `\n` loses nothing: joining the pieces with `\n` gives the log back |
| `Strings.JoinSplit` | src/services/logProcessor.ts:15 | pieces free of `\n`, joined with `\n` and split again, come back unchanged: splitting is the exact inverse of joining lines |
| `Strings.Trim` | src/services/logProcessor.ts:19 | the trimmed line is empty exactly when the line is all whitespace; otherwise it starts and ends with a visible character, is a substring of the line and keeps every visible character |
| `Matching.Scan` | src/utils/logSyntaxHighlighter.ts:112-118 | the matches the `exec` loop reports lie within the line, are real matches of the pattern at their start, and are left to right without overlap |
| `Matching.ScanMissesNoMatch` | src/utils/logSyntaxHighlighter.ts:113-116 | every position where the pattern matches is inside some match the `exec` loop reports from `lastIndex = 0`: the loop never jumps past a match without reporting one that covers it |
| `Matching.ReplaceRewritesScannedMatches` | src/services/logProcessor.ts:107-113 | a global `replace` equals taking exactly the matches the `exec` loop reports and replacing each one while keeping the text between them |
| `Matching.ReplaceShrinks` | src/services/logProcessor.ts:107-113 | a replacement no longer than any match never makes the text longer |
| `Matching.ReplaceWithoutMatch` | src/services/logProcessor.ts:107-113 | where the pattern matches nowhere, `replace` returns its input |
| `Matching.FindFixed` | src/services/logProcessor.ts:52 | a non-global `match` of a fixed-width pattern finds the leftmost position where it fits, or reports that it fits nowhere |
| `Matching.FirstKeyword` | src/utils/logSyntaxHighlighter.ts:25 | an alternation of words followed by `\b` matches with the length of a listed word found there (ignoring case), and fails only when no listed word is found there before a word boundary |
| `Highlighter.RegionUsed` | src/utils/logSyntaxHighlighter.ts:169-174 | true exactly when some position of `[start, end)` is already claimed |
| `Highlighter.RunEnd` | src/utils/logSyntaxHighlighter.ts:146-147 | the end of the unclaimed run from `i`: every position before it is unclaimed and it is the line end or a claimed position |
| `Highlighter.RunToken` | src/utils/logSyntaxHighlighter.ts:148-157 | a gap yields one `text` token with the gap's exact text when it holds a visible character, and no token otherwise |
| `Highlighter.DetermineLineLevel` | src/utils/logSyntaxHighlighter.ts:86-101 | each level holds exactly when the line mentions one of its words ignoring case and none of the words of every more severe level |
| `Highlighter.Highlight` | src/utils/logSyntaxHighlighter.ts:54-84 | keeps the line and its number, takes its level from `determineLineLevel`; the tokens are slices of the line, strictly left to right, cover every visible character, and leave only whitespace uncovered |
| `Highlighter.ApplySpansKeepsConsistent` | src/utils/logSyntaxHighlighter.ts:116-135 | one pattern's loop keeps the claim invariant (tokens are disjoint slices and a position is marked exactly when a token covers it); it only appends tokens of the family's kind that are reported matches, and never releases a claim |
| `Highlighter.ApplySpans` | src/utils/logSyntaxHighlighter.ts:116-135 | the `exec` loop of `applyPattern` over one pattern's matches keeps the claim map as long as the line; what it appends and claims is stated by `ApplySpansKeepsConsistent` and `ApplySpansAcceptsUnclaimed` |
| `Highlighter.ApplySpansAcceptsUnclaimed` | src/utils/logSyntaxHighlighter.ts:116-135 | first come, first served: the loop appends exactly the reported matches that touch no position claimed before them, in order |
| `Highlighter.ApplyPatternsKeepsConsistent` | src/utils/logSyntaxHighlighter.ts:110-140 | all patterns of one family keep the claim invariant, only append tokens of that family's kind, and never release a claim |
| `Highlighter.ApplyCatalogKeepsConsistent` | src/utils/logSyntaxHighlighter.ts:62-70 | the `applyPattern` calls, one per family in catalog order, keep the claim invariant, only append tokens of the catalog's kinds, and never release a claim |
| `Highlighter.ClaimAll` | src/utils/logSyntaxHighlighter.ts:55-70 | starting from nothing claimed, the nine `applyPattern` calls leave tokens that are disjoint slices of the line, a position marked exactly when a token covers it, and every token of one of the catalog's kinds |
| `Highlighter.ApplySpansTouches` | src/utils/logSyntaxHighlighter.ts:120-123 | after one pattern's loop, every match it was given overlaps a claimed position, whether it was kept or skipped |
| `Highlighter.ApplyPatternsTouches` | src/utils/logSyntaxHighlighter.ts:112-140 | after a family's loops, every match any of its patterns reports overlaps a claimed position |
| `Highlighter.ApplyCatalogTouches` | src/utils/logSyntaxHighlighter.ts:62-70 | after all families, every match of every pattern in the catalog overlaps a claimed position |
| `Highlighter.ApplyCatalogMonotone` | src/utils/logSyntaxHighlighter.ts:62-70 | a position claimed before the families run stays claimed |
| `Highlighter.ApplyCatalogAppend` | src/utils/logSyntaxHighlighter.ts:62-70 | applying two catalogs in turn is the same as applying their concatenation, so the priority order is the only thing that matters |
| `Highlighter.ApplyCatalogFromScans` | src/utils/logSyntaxHighlighter.ts:116-130 | every token the families add is a match that some pattern's `exec` loop reported, with the kind of that pattern's family |
| `Highlighter.EarlierMatchBlocksLater` | src/utils/logSyntaxHighlighter.ts:61-70 | a claimed token of a family after family `g` never contains a match that a pattern of family `g` reported |
| `Highlighter.MatchNeverInsideText` | src/utils/logSyntaxHighlighter.ts:143-167 | no reported match of any pattern lies wholly inside a `text` gap |
| `Highlighter.ScannedMatchOutranksLaterTokens` | src/utils/logSyntaxHighlighter.ts:54-84 | a token of the final line that contains a match reported by family `g` belongs to family `g` or an earlier one |
| `Highlighter.FillFromSound` | src/utils/logSyntaxHighlighter.ts:143-167 | every `text` token is a maximal unclaimed run, with the run's exact text, that holds a visible character |
| `Highlighter.FillFromComplete` | src/utils/logSyntaxHighlighter.ts:143-167 | every maximal unclaimed run that holds a visible character gets a `text` token |
| `Highlighter.FillFromCovers` | src/utils/logSyntaxHighlighter.ts:143-167 | every visible unclaimed character is covered by a `text` token |
| `Highlighter.FillFromOrdered` | src/utils/logSyntaxHighlighter.ts:143-167 | the `text` tokens come out left to right without overlap |
| `Highlighter.FillFrom` | src/utils/logSyntaxHighlighter.ts:143-167 | `fillRemainingText` adds only `text` tokens, each a slice of the line with its exact text, lying wholly on unclaimed positions; `FillFromSound`, `FillFromComplete`, `FillFromCovers` and `FillFromOrdered` state which runs they are |
| `Highlighter.SortByStart` | src/utils/logSyntaxHighlighter.ts:76 | sorting by start position is a permutation of the tokens |
| `Highlighter.SortOrders` | src/utils/logSyntaxHighlighter.ts:76 | disjoint non-empty tokens, once sorted by start, are strictly left to right |
| `Highlighter.SortKeepsMembers` | src/utils/logSyntaxHighlighter.ts:76 | sorting neither adds nor drops a token |
| `Highlighter.TokenizeWellFormed` | src/utils/logSyntaxHighlighter.ts:54-84 | for any catalog, the tokens are slices of the line, strictly left to right, cover every visible character and leave only whitespace uncovered |
| `Highlighter.Tokenize` | src/utils/logSyntaxHighlighter.ts:55-75 | every token of a line is a slice of it with its exact text, and is either `text` or of one of the catalog's kinds; `TokenizeWellFormed` and `TextTokensAreTextRuns` state order and coverage |
| `Highlighter.TextTokensAreTextRuns` | src/utils/logSyntaxHighlighter.ts:72-76 | the `text` tokens are exactly the maximal unclaimed runs with a visible character, and every other token is a claimed one |
| `Highlighter.TokensAreVisible` | src/utils/logSyntaxHighlighter.ts:54-84 | when no pattern can match whitespace alone, every token holds a visible character |
| `Highlighter.WhitespaceLineHasNoTokens` | src/utils/logSyntaxHighlighter.ts:148-150 | a line of whitespace only gets no token at all |
| `LogPatterns.UrlAt` | src/utils/logSyntaxHighlighter.ts:28 | matches exactly where `https://` or `http://` is followed by a visible character; the match runs over visible characters only and stops at whitespace or the line end |
| `LogPatterns.QuotedAt` | src/utils/logSyntaxHighlighter.ts:46 | matches exactly where a quote character has a later quote of the same kind; the match runs to the first such quote, with none of that kind in between |
| `LogPatterns.NumberAt` | src/utils/logSyntaxHighlighter.ts:43 | matches exactly where a digit run starts at a word boundary and ends at one; every match is a numeral, digits with an optional fraction, between two word boundaries |
| `LogPatterns.NumberAtIsLongest` | src/utils/logSyntaxHighlighter.ts:43 | whenever a numeral starting at a position lies between two word boundaries, the number pattern matches there with at least that length, so the fraction is taken whenever it can be |
| `LogPatterns.IsoTimestampAt` | src/utils/logSyntaxHighlighter.ts:18 | the ISO pattern matches exactly where a date, `T` or space, and a time fit, and the match is 19 to 29 characters long; `IsoTimestampIsLongest` and `IsoTimestampFits` state which length |
| `LogPatterns.IsoTimestampIsLongest` | src/utils/logSyntaxHighlighter.ts:18 | whenever the date-time with optional milliseconds and an optional `Z` or `+hh:mm` zone fits, the pattern matches, and at least that far: the optional parts are taken when present |
| `LogPatterns.IsoTimestampFits` | src/utils/logSyntaxHighlighter.ts:18 | every ISO match is the date-time, optionally the milliseconds, and no zone, `Z` or an offset, with the length those parts add up to |
| `LogPatterns.ExtensionAtFirst` | src/utils/logSyntaxHighlighter.ts:31 | the extension alternation fails exactly when no listed extension is found there, and otherwise takes the first listed one that is found, not the longest |
| `LogPatterns.LastExtensionDot` | src/utils/logSyntaxHighlighter.ts:31 | finds the right-most dot followed by an extension, where the greedy path run stops once the engine has backed off |
| `LogPatterns.SlashPathMatch` | src/utils/logSyntaxHighlighter.ts:31 | a path starting with a slash matches up to the end of the extension after the last suitable dot of its run |
| `LogPatterns.PathWithExtensionAt` | src/utils/logSyntaxHighlighter.ts:31 | a file match starts and ends inside the text; `PathStartsAtSeparatorOrDrive` states where it starts, and `SlashPathMatch`, `LastDotPathMatch`, `ExtensionAtFirst` and `LastExtensionDot` state where it ends |
| `LogPatterns.PathStartsAtSeparatorOrDrive` | src/utils/logSyntaxHighlighter.ts:31 | a file match starts at a slash or backslash, or at a drive letter followed by a colon and a slash or backslash |
| `LogPatterns.LastDotPathMatch` | src/utils/logSyntaxHighlighter.ts:31 | a line that is one slash path with an extension after its last dot matches from its start to that extension's end |
| `LogPatterns.HighlightLine` | src/utils/logSyntaxHighlighter.ts:54-84 | `highlightLine` keeps the line and its number and takes its level from `determineLineLevel`; its tokens are slices, strictly left to right, covering every visible character; there are none exactly when the line is all whitespace |
| `LogPatterns.NumberLines` | src/components/SyntaxHighlightedLog.tsx:46 | one highlighted line per piece, numbered from 1 in order, each keeping its piece's text, and each the given highlighter applied to its piece and number |
| `LogPatterns.HighlightLog` | src/components/SyntaxHighlightedLog.tsx:44-47 | one highlighted line per `\n`-separated line, numbered from 1, each `highlightLine` of that line and its number; joining their texts with `\n` gives the log back |
| `LogPatterns.CatalogKinds` | src/utils/logSyntaxHighlighter.ts:62-70 | the first two families give `timestamp` and `level`, the first four add `url` and `file`, and no family gives `text` |
| `LogPatterns.CatalogIsVisible` | src/utils/logSyntaxHighlighter.ts:17-46 | no pattern of the catalog can match whitespace alone |
| `LogPatterns.TokenOrigin` | src/utils/logSyntaxHighlighter.ts:62-76 | each token is a slice of the line, every non-`text` token was claimed, and a `stacktrace`, `string`, `error` or `warning` token is a match of that family's pattern at its start |
| `LogPatterns.KeywordWordMatches` | src/utils/logSyntaxHighlighter.ts:37-40 | a whole word that equals a listed keyword ignoring case is matched by the keyword pattern with the word's length |
| `LogPatterns.LevelWordMatches` | src/utils/logSyntaxHighlighter.ts:25 | a whole word that equals a level keyword ignoring case is matched by the level pattern with the word's length |
| `LogPatterns.WordMatchIsScanned` | src/utils/logSyntaxHighlighter.ts:112-118 | for a pattern whose matches are whole words, every match is one the `exec` loop reports |
| `LogPatterns.LevelKeywordOutranksLaterFamilies` | src/utils/logSyntaxHighlighter.ts:62-70 | a token containing a level-keyword match is a `timestamp` or `level` token |
| `LogPatterns.ErrorAndWarningTokensAreWords` | src/utils/logSyntaxHighlighter.ts:37-40 | `error` and `warning` tokens are whole words |
| `LogPatterns.ErrorAndWarningTokensAreNeverLevelWords` | src/utils/logSyntaxHighlighter.ts:63-70 | no `error` or `warning` token ever reads `ERROR`, `WARN` or `WARNING` in any case: the level family has already claimed those words |
| `LogPatterns.StackFrameAt` | src/utils/logSyntaxHighlighter.ts:34 | a stack-frame match starts at a line start and runs to the end of its line; `StackFrameMatchSpansLine` and `IndentedAtLineIsStackFrame` state when it matches |
| `LogPatterns.StackFrameMatchSpansLine` | src/utils/logSyntaxHighlighter.ts:34 | on a single line, the stack-frame pattern can only match from the start, and then it spans the whole line |
| `LogPatterns.IndentedAtLineIsStackFrame` | src/utils/logSyntaxHighlighter.ts:34 | a line of optional indentation, then `at`, then whitespace, matches the stack-frame pattern as a whole |
| `LogPatterns.StackFrameTokenSpansLine` | src/utils/logSyntaxHighlighter.ts:66 | a `stacktrace` token on a single line is the whole line |
| `LogPatterns.PathInLineBlocksStackFrame` | src/utils/logSyntaxHighlighter.ts:65-66 | a single line in which the file pattern matches anywhere gets no `stacktrace` token |
| `HighlightCases.JsonPathEndsAtJs` | src/utils/logSyntaxHighlighter.ts:31 | `/x.json` matches the file pattern only up to `.js` |
| `HighlightCases.TsxPathEndsAtTs` | src/utils/logSyntaxHighlighter.ts:31 | `/x.tsx` matches the file pattern only up to `.ts` |
| `HighlightCases.CssPathEndsAtC` | src/utils/logSyntaxHighlighter.ts:31 | `/x.css` matches the file pattern only up to `.c` |
| `HighlightCases.SampleFrameIsStackFrame` | src/utils/logSyntaxHighlighter.ts:34 | an indented `at UserList.render (/src/components/UserList.tsx:45:23)` line matches the stack-frame pattern as a whole |
| `HighlightCases.SampleFrameHasNoStackTraceToken` | src/utils/logSyntaxHighlighter.ts:65-66 | that frame line still gets no `stacktrace` token, because its path is claimed first by the file family |
| `HighlightCases.QuotedErrorIsNotAString` | src/utils/logSyntaxHighlighter.ts:63-67 | `"error"` gets no `string` token, because the level family claims the word inside the quotes first |
| `HighlightCases.NumberBoundaries` | src/utils/logSyntaxHighlighter.ts:43 | `3.14` is one number; in `1.5a` only `1` is a number; the `2` of `v2` is none |
| `HighlightCases.ErrorInsideAWord` | src/utils/logSyntaxHighlighter.ts:87 | the level test looks for substrings, so `terrors` is an error line |
| `LogProcessor.FirstFixedMatch` | src/services/logProcessor.ts:51-56 | yields nothing exactly when no format fits anywhere; otherwise the leftmost fit of the first format that fits somewhere |
| `LogProcessor.ExtractTimestamp` | src/services/logProcessor.ts:42-57 | there is no timestamp exactly when none of the four formats fits anywhere in the line; otherwise it is the leftmost match of the first format that fits somewhere |
| `LogProcessor.DropDominatedLast` | src/services/logProcessor.ts:51-56 | a last format that can only fit where an earlier one also fits can be dropped without changing the result |
| `LogProcessor.BracketHoldsTimeOfDay` | src/services/logProcessor.ts:46-48 | wherever the bracketed-time format fits, the time-of-day format fits one character later |
| `LogProcessor.AstralPointIsNoTimestamp` | src/services/logProcessor.ts:46 | `12:34:56😀123` has no timestamp: the unescaped `.` takes one UTF-16 code unit, the emoji's high surrogate, and `\d` fails on the low one |
| `LogProcessor.BracketNeverDecides` | src/services/logProcessor.ts:44-49 | the timestamp found is always the one the first three formats alone would find |
| `LogProcessor.DetectLogLevel` | src/services/logProcessor.ts:59-76 | each level holds exactly when the lowered line contains one of its words and none of the words of any more severe level; there is no level exactly when it contains none |
| `LogProcessor.IsErrorLine` | src/services/logProcessor.ts:78-103 | true exactly when the line contains an error term ignoring case or one of the status codes 404, 500, 502 or 503 |
| `LogProcessor.ErrorTermsReduce` | src/services/logProcessor.ts:79-100 | the sixteen case-insensitive error patterns reduce to ten of them: each of the other six (`typeerror`, `network error`, `connection failed` and the like) contains one of those ten |
| `LogProcessor.ErrorWordMarksBoth` | src/services/logProcessor.ts:62 | a line that mentions `error` is both error-level and an error line |
| `LogProcessor.RemoveNoise` | src/services/logProcessor.ts:105-115 | the cleaned log is no longer than the log, starts and ends with a visible character, and never has two whitespace characters side by side |
| `LogProcessor.StripNoise` | src/services/logProcessor.ts:107-113 | the six `replace` passes never make the log longer, and after them no two whitespace characters are adjacent |
| `LogProcessor.AnonymousFrameAt` | src/services/logProcessor.ts:108 | an anonymous-frame match starts at a line start and ends with `)` at the end of its line; `AnonymousFrameLineMatches` and `AnonymousFrameHoldsMarker` state when it matches |
| `LogProcessor.AnonymousFrameLineMatches` | src/services/logProcessor.ts:108 | an indented `at` line, with whitespace after `at`, that holds `(<anonymous>:` later on and ends with `)` after it, is removed whole |
| `LogProcessor.AnonymousFrameHoldsMarker` | src/services/logProcessor.ts:108 | every anonymous-frame match holds `(<anonymous>:` after its `at` and before its closing `)` |
| `LogProcessor.BracketPrefixAt` | src/services/logProcessor.ts:109 | a bracket-prefix match starts at a line start and swallows all the whitespace after the `]` |
| `LogProcessor.BracketPrefixMatches` | src/services/logProcessor.ts:109 | at a line start, whitespace, `[`, text up to the first `]` of the line, `]` and the whitespace after it are matched whole |
| `LogProcessor.BracketPrefixShape` | src/services/logProcessor.ts:109 | every bracket-prefix match is whitespace, `[`, text with no `]` or line end, `]`, and a maximal whitespace run |
| `LogProcessor.SpaceRunAt` | src/services/logProcessor.ts:112 | a match happens exactly where two whitespace characters start, and it takes the whole whitespace run from there |
| `LogProcessor.NewlineRunAt` | src/services/logProcessor.ts:113 | a match happens exactly where three `\n` start, and it takes the whole `\n` run from there |
| `LogProcessor.NewlineStepIsIdle` | src/services/logProcessor.ts:113 | once whitespace runs are collapsed, the newline-run pass changes nothing |
| `LogProcessor.BracketStepOnOneLine` | src/services/logProcessor.ts:109 | on a single line, the bracket pass removes only the one prefix at the line start |
| `LogProcessor.CleanLeadingBracket` | src/services/logProcessor.ts:105-115 | a short tidy line with one leading bracketed prefix is cleaned to what follows the prefix |
| `LogProcessor.CleaningIsNotIdempotent` | src/services/logProcessor.ts:105-115 | cleaning a cleaned log can change it again: `[a] [b] x` gives `[b] x`, which gives `x` |
| `LogProcessor.Process` | src/services/logProcessor.ts:14-40 | keeps the raw log, cleans it with `removeNoiseFromLog`, and makes one entry per line that does not trim to nothing, in line order |
| `LogProcessor.Describe` | src/services/logProcessor.ts:22-28 | an entry carries its line's number and trimmed text, and the timestamp and level `extractTimestamp` and `detectLogLevel` give that text; it has no timestamp exactly when no format fits, is error-level exactly when an error-level word occurs, and is an error line exactly when an error term or a status code occurs |
| `LogProcessor.DescribeLines` | src/services/logProcessor.ts:18-31 | the loop over the pieces yields one entry per piece that does not trim to nothing, in order, as `DescribeAll` defines; `EntriesDescribeLines`, `EntriesAscend` and `EntriesCoverLines` state what those entries are |
| `LogProcessor.EntriesDescribeLines` | src/services/logProcessor.ts:18-31 | every entry describes the trimmed text of the line it names, that line does not trim to nothing, and there are at most as many entries as lines |
| `LogProcessor.EntriesAscend` | src/services/logProcessor.ts:18-31 | entry line numbers strictly ascend |
| `LogProcessor.EntriesCoverLines` | src/services/logProcessor.ts:18-31 | every line that does not trim to nothing has an entry |
| `LogProcessor.CriticalNumbers` | src/services/logProcessor.ts:118-120 | a number is listed exactly when some critical entry carries it |
| `LogProcessor.IdentifyCriticalLines` | src/services/logProcessor.ts:117-122 | at most five numbers, each of a critical entry; when fewer than five, every critical entry is listed |
| `LogProcessor.CriticalLinesAreFirst` | src/services/logProcessor.ts:117-122 | for entries in line order the numbers ascend, and every critical entry left out comes after all that were kept |
| `LogProcessor.CriticalLinesAscend` | src/services/logProcessor.ts:117-122 | for a processed log, the critical line numbers strictly ascend |
| `LogProcessor.CriticalLinesNameParts` | src/services/logProcessor.ts:117-122 | every critical line number of a processed log names a line of the raw log whose trimmed text is an error line or mentions `fatal` |
| `LogProcessor.CriticalMeans` | src/services/logProcessor.ts:119 | an entry is critical exactly when its text is an error line or mentions `fatal` |
| `LogProcessor.FatalLineIsCritical` | src/services/logProcessor.ts:62 | a `fatal` line is critical although it is not an error line |
| `Consistency.HighlighterLevelAtLeastProcessorLevel` | src/utils/logSyntaxHighlighter.ts:86-101 | whatever level the processor gives a line, the highlighter gives it that level or a more severe one |
| `Consistency.FailedIsOnlyAHighlighterError` | src/utils/logSyntaxHighlighter.ts:87 | `failed` is an error to the highlighter but not error-level to the processor |
| `AiAnalyzer.ClampConfidence` | src/services/aiAnalyzer.ts:141 | the confidence always lies in 0 to 100: kept when in 1 to 100, clamped when out of range, 50 when missing or zero |
| `AiAnalyzer.FormatIssue` | src/services/aiAnalyzer.ts:136-142 | a formatted issue keeps every non-empty field of the reply; an empty content, explanation or suggestion becomes `Unknown error`, `No explanation provided` or `No suggestion provided`; the line defaults to 1; the confidence is the reply's, clamped as `ClampConfidence` states |
| `AiAnalyzer.FormatIssues` | src/services/aiAnalyzer.ts:133-143 | the first five reply issues, in order, each formatted |
| `AiAnalyzer.CheckedIssues` | src/services/aiAnalyzer.ts:132-154 | at most five well-formed issues; the formatted reply issues when there are any, otherwise a placeholder for the first critical line if there is one |
| `AiAnalyzer.ValidateAndFormatResult` | src/services/aiAnalyzer.ts:124-157 | the summary is kept when given and is `AI analysis completed` otherwise; the processing time is kept; the issues are as `CheckedIssues` says, so a log with critical lines always yields an issue |
| `AiAnalyzer.PlaceholderIssue` | src/services/aiAnalyzer.ts:146-154 | the issue made up when the reply has none names the given critical line, has confidence 30 and is well formed (confidence in 0..100, non-empty texts) |
| `AiAnalyzer.RevalidationIsIdleUnlessZero` | src/services/aiAnalyzer.ts:124-157 | checking a checked result again changes nothing exactly when none of its issues has confidence 0 |
| `AiAnalyzer.Categorize` | src/services/aiAnalyzer.ts:180-200 | each kind of error holds exactly when the lowered text contains its keyword and none of the keywords tested before it |
| `AiAnalyzer.BasicExplanation` | src/services/aiAnalyzer.ts:180-200 | the explanation is the one written for the text's kind, and that kind can be read back from it |
| `AiAnalyzer.BasicSuggestion` | src/services/aiAnalyzer.ts:202-222 | the suggestion is the one written for the text's kind, and that kind can be read back from it |
| `AiAnalyzer.ExplanationNamesItsKind` | src/services/aiAnalyzer.ts:183-199 | the kind can be read back from the explanation's opening words |
| `AiAnalyzer.SuggestionNamesItsKind` | src/services/aiAnalyzer.ts:205-221 | the kind can be read back from the suggestion's opening words |
| `AiAnalyzer.ExplanationsDiffer` | src/services/aiAnalyzer.ts:183-199 | different kinds get different explanations |
| `AiAnalyzer.SuggestionsDiffer` | src/services/aiAnalyzer.ts:205-221 | different kinds get different suggestions |
| `AiAnalyzer.ExplanationMatchesSuggestion` | src/services/aiAnalyzer.ts:180-222 | two texts get the same explanation exactly when they get the same suggestion |
| `AiAnalyzer.FindLine` | src/services/aiAnalyzer.ts:161 | finds nothing exactly when no entry has the number, and otherwise the first entry that has it |
| `AiAnalyzer.FindLineFindsTheEntry` | src/services/aiAnalyzer.ts:161 | with ascending line numbers, looking up an entry's number finds that entry |
| `AiAnalyzer.FallbackIssue` | src/services/aiAnalyzer.ts:160-171 | the issue names the line, has confidence 60, quotes the entry's text (or `Unknown error` when there is no entry or its text is empty), and explains and suggests by that text |
| `AiAnalyzer.FallbackSummary` | src/services/aiAnalyzer.ts:175 | the summary starts with `Found ` and the issue count in decimal |
| `AiAnalyzer.SummaryStatesCount` | src/services/aiAnalyzer.ts:175 | the digits after `Found ` read back as the issue count |
| `AiAnalyzer.FallbackAnalysis` | src/services/aiAnalyzer.ts:159-178 | one issue for each of the first three critical lines, in order, with a summary that counts them and the given processing time |
| `AiAnalyzer.FallbackQuotesCriticalLines` | src/services/aiAnalyzer.ts:159-178 | on a log's own critical lines, every fallback issue quotes a critical entry with the same line number |
| `AiAnalyzer.FallbackOnProcessedLog` | src/services/aiAnalyzer.ts:25-30 | for any raw log, every fallback issue quotes a critical entry of the processed log |
| `AiAnalyzer.AnalyzeLog` | src/services/aiAnalyzer.ts:25-102 | without a usable reply (one on which the `try` block would throw) the result is the fallback; with one it is the checked reply stamped with the elapsed time; never more than five issues, and at least one whenever the log has a critical line |
| `ErrorNavigation.Previous` | src/components/ErrorNavigation.tsx:21-24 | the previous index is a valid index exactly when the current one is at most the issue count |
| `ErrorNavigation.Next` | src/components/ErrorNavigation.tsx:26-29 | the next index is a valid index exactly when the current one is at least -1 |
| `ErrorNavigation.StepsWrapAround` | src/components/ErrorNavigation.tsx:21-29 | next adds one short of the last issue and goes to the first from the last issue or beyond; previous subtracts one after the first issue and goes to the last from the first issue, from no selection or below |
| `ErrorNavigation.StepsAreInverse` | src/components/ErrorNavigation.tsx:21-29 | on every valid index, previous undoes next and next undoes previous |
| `ErrorNavigation.SingleIssueStaysPut` | src/components/ErrorNavigation.tsx:56 | with a single issue both buttons lead back to it, which is why they are disabled |
| `ErrorNavigation.DisabledExactlyWhenStepsStayPut` | src/components/ErrorNavigation.tsx:56 | the step buttons are disabled exactly when no step from an issue would move away from it |
| `ErrorNavigation.ForwardCountsUp` | src/components/ErrorNavigation.tsx:26-29 | pressing next `k` times before reaching the end advances the index by `k` |
| `ErrorNavigation.BackCountsDown` | src/components/ErrorNavigation.tsx:21-24 | pressing previous `k` times before reaching the start moves the index back by `k` |
| `ErrorNavigation.ForwardAddsUp` | src/components/ErrorNavigation.tsx:26-29 | pressing next `a` and then `b` times is pressing it `a + b` times |
| `ErrorNavigation.BackAddsUp` | src/components/ErrorNavigation.tsx:21-24 | pressing previous `a` and then `b` times is pressing it `a + b` times |
| `ErrorNavigation.FullRoundReturns` | src/components/ErrorNavigation.tsx:21-29 | pressing either button once per issue returns to the issue it started from |
| `ErrorNavigation.CounterLabel` | src/components/ErrorNavigation.tsx:75 | the counter is the position in decimal, ` of `, the issue count in decimal, and ` errors`, with nothing else |
| `ErrorNavigation.CounterLabelReadsBack` | src/components/ErrorNavigation.tsx:75 | the counter reads back as the position shown, ` of `, then the issue count |
| `ErrorNavigation.CurrentIssue` | src/components/ErrorNavigation.tsx:38 | an issue is shown exactly when the index is a valid index, and it is the issue at that index |
| `ErrorNavigation.Cut` | src/components/ErrorNavigation.tsx:109-112 | up to 80 UTF-16 code units are kept whole; longer texts become their first 80 code units and `...` |
| `ErrorNavigation.Preview` | src/components/ErrorNavigation.tsx:109-112 | the content, as JavaScript's UTF-16 code units, shown whole when it is at most 80 units long and otherwise as its first 80 units and `...` |
| `ErrorNavigation.PreviewIsStable` | src/components/ErrorNavigation.tsx:109-112 | cutting a preview again changes nothing |
| `ErrorNavigation.PreviewOfBmpText` | src/components/ErrorNavigation.tsx:109-112 | for text in the Basic Multilingual Plane, the preview is the first 80 characters, with `...` when something was cut |
| `ErrorNavigation.PreviewSplitsSurrogatePair` | src/components/ErrorNavigation.tsx:109-112 | 79 such characters followed by one emoji are 80 characters but 81 code units: the preview keeps the emoji's high surrogate, drops its low one and appends `...` |
| `ErrorNavigation.JumpTarget` | src/components/ErrorNavigation.tsx:31-36 | a jump happens exactly when a handler is present and the index is valid, and it goes to that issue's line |
| `ErrorNavigation.EnabledJumpMayDoNothing` | src/components/ErrorNavigation.tsx:121-124 | the jump button is enabled for any index from 0, so an index past the end gives an enabled button that does nothing |
| `ErrorNavigation.StepThenJump` | src/components/ErrorNavigation.tsx:26-36 | after pressing next, a jump always has an issue to go to |

## Left out

- The React components beyond the navigation bar's logic: rendering, styles, state hooks, the expand and collapse of lines, showing the first 20 lines, toasts and file upload. These are presentation only.
- The OpenAI client, the model name, the request, `createAnalysisPrompt` and its text. The model receives the reply as an optional parameter: `None` stands for every reply on which the `try` block throws and the fallback is used. That covers a failed request, an empty reply, and unparsable JSON. It also covers JSON that parses to `null` or to a primitive, where setting `processingTime` throws (src/services/aiAnalyzer.ts:91), and a reply with a `null` issue, where reading `issue.line` throws (src/services/aiAnalyzer.ts:137). These are network I/O and prompt text, not logic.
- `Date.now()`. `AnalyzeLog` takes the elapsed time as a parameter because the clock is I/O.
- `urlSharing` and `getRandomSample`. They are outside the analysis core, and the second is random.
- The `prefix` pattern of the highlighter's table. `highlightLine` never applies it.
- The `if (!pattern.global) break` branch of `applyPattern`. Every pattern the highlighter applies is global, so it is never taken.
- The general regular-expression engine. Each pattern is a hand-written matcher that returns the match the engine reports at a position; no pattern of the core can match the empty string, so the zero-length `exec` case is not modelled.
- Full Unicode. `toLowerCase()` and the `i` flag are modelled as ASCII lowering. JavaScript's whitespace class is modelled character by character, as in the language definition. The unescaped `.` of the timestamp formats takes one UTF-16 code unit; the model states this as never accepting a character above the Basic Multilingual Plane, which gives the same matches because every such `.` is followed by `\d`.
- JavaScript's dynamic typing in the analyzer reply. `RawIssue` holds strings for the text fields and an optional integer for `line` and `confidence`. Non-string values, `String()` conversion and `Number()` coercion (floats, `NaN`, numeric strings) are not modelled.
- LogPatterns.HighlightLine: token offsets, lengths and the `used` array count Unicode characters, whereas JavaScript counts UTF-16 code units. The two agree on text in the Basic Multilingual Plane. A character above it (an emoji, say) shifts every later offset by one in the source: in `😀 ERROR` the level token spans 3..8 in the source and 2..7 in the model. The tokens' texts, kinds and order are the same.
- Highlighter.Highlight: token offsets count Unicode characters, not UTF-16 code units, as for `LogPatterns.HighlightLine` above.
- LogProcessor.StripNoise: the contract states the shape of the result (no longer than the log, no adjacent whitespace), not its full content. The content is the six passes as written, each a global `replace` whose meaning `Matching.ReplaceRewritesScannedMatches` states.
- LogProcessor.RemoveNoise: the contract states the shape of the cleaned text (length, trimmed, no adjacent whitespace), not its full content. The content is given step by step by the six `replace` passes, and `CleanLeadingBracket` pins it down for short lines.
