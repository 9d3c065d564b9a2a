/** What the highlighter and the preprocessor need from JavaScript regular
    expressions, without a regular-expression engine: a pattern is a
    `Matcher` that reports the match starting at one position, and the
    `exec` loop and `replace` over a global pattern are defined once, on
    top of any matcher. */
module Matching {
  import opened Wrappers
  import opened Strings

  /** A half-open range `[start, end)` of positions in a subject string. */
  datatype Span = Span(start: nat, end: nat)

  /** One regular expression tried at one position: the length of the match
      it finds starting exactly there (its own greedy/alternation choice), or
      None. The matcher sees the whole subject so that `^` and `\b` can look
      behind the position. */
  type Matcher = (string, nat) -> Option<nat>

  /** The match `m` reports at `i`, kept only when it is non-empty and lies
      inside `s`; none of the patterns of this model can match the empty
      string. */
  function MatchAt(m: Matcher, s: string, i: nat): (r: Option<nat>)
    ensures r.Some? ==> 0 < r.value && i + r.value <= |s|
    ensures r.Some? ==> r == m(s, i)
  {
    var found := m(s, i);
    if found.Some? && 0 < found.value && i + found.value <= |s| then found else None
  }

  /** Spans that are non-empty and inside `s`. */
  ghost predicate InBounds(s: string, spans: seq<Span>) {
    forall sp | sp in spans :: sp.start < sp.end <= |s|
  }

  /** Spans listed left to right without overlap. */
  ghost predicate Ordered(spans: seq<Span>) {
    forall i, j | 0 <= i < j < |spans| :: spans[i].end <= spans[j].start
  }

  /** The successive matches of a global regular expression, as the loop
      `while ((match = re.exec(s)) !== null)` sees them from `lastIndex = from`:
      the leftmost match at or after the current index, after which the search
      resumes at the end of that match. Whether the caller keeps a match has
      no influence on where the next search starts. */
  function Scan(m: Matcher, s: string, from: nat): (r: seq<Span>)
    decreases |s| - from
    ensures forall sp | sp in r ::
              from <= sp.start < sp.end <= |s| && MatchAt(m, s, sp.start) == Some(sp.end - sp.start)
    ensures Ordered(r)
  {
    if from >= |s| then []
    else
      match MatchAt(m, s, from)
      case Some(n) => [Span(from, from + n)] + Scan(m, s, from + n)
      case None => Scan(m, s, from + 1)
  }

  /** `Scan` misses no match: every position at or after `from` where the
      pattern matches lies inside one of the reported spans (it is either
      reported itself or was jumped over by an earlier match). */
  lemma {:induction false} ScanFindsEveryMatch(m: Matcher, s: string, from: nat, q: nat) returns (sp: Span)
    requires from <= q
    requires MatchAt(m, s, q).Some?
    ensures sp in Scan(m, s, from) && sp.start <= q < sp.end
    decreases |s| - from
  {
    var r := Scan(m, s, from);
    match MatchAt(m, s, from)
    case Some(n) =>
      assert r == [Span(from, from + n)] + Scan(m, s, from + n);
      if q < from + n {
        sp := Span(from, from + n);
      } else {
        sp := ScanFindsEveryMatch(m, s, from + n, q);
      }
    case None =>
      assert q != from;
      sp := ScanFindsEveryMatch(m, s, from + 1, q);
  }

  /** The `exec` loop from `lastIndex = 0` reports, or jumps over, every
      position where the pattern matches. */
  lemma ScanMissesNoMatch(m: Matcher, s: string, q: nat)
    requires MatchAt(m, s, q).Some?
    ensures exists sp | sp in Scan(m, s, 0) :: sp.start <= q < sp.end
  {
    var sp := ScanFindsEveryMatch(m, s, 0, q);
  }

  /** `s.replace(re, repl)` for a global `re`, from `lastIndex = from` on:
      each match is replaced by `repl` and the text between matches is kept. */
  function ReplaceFrom(m: Matcher, s: string, repl: string, from: nat): string
    decreases |s| - from
  {
    if from >= |s| then []
    else
      match MatchAt(m, s, from)
      case Some(n) => repl + ReplaceFrom(m, s, repl, from + n)
      case None => [s[from]] + ReplaceFrom(m, s, repl, from + 1)
  }

  function ReplaceAll(m: Matcher, s: string, repl: string): string {
    ReplaceFrom(m, s, repl, 0)
  }

  /** The text `replace` produces from a list of matches: the gaps kept, each
      match replaced by `repl`. */
  function Splice(s: string, spans: seq<Span>, repl: string, from: nat): string
    requires from <= |s|
    requires forall sp | sp in spans :: from <= sp.start <= sp.end <= |s|
    requires Ordered(spans)
    decreases |spans|
  {
    if spans == [] then s[from..]
    else s[from..spans[0].start] + repl + Splice(s, spans[1..], repl, spans[0].end)
  }

  /** Splicing from one position earlier keeps the character there. */
  lemma SpliceStep(s: string, spans: seq<Span>, repl: string, from: nat)
    requires from < |s|
    requires forall sp | sp in spans :: from + 1 <= sp.start <= sp.end <= |s|
    requires Ordered(spans)
    ensures Splice(s, spans, repl, from) == [s[from]] + Splice(s, spans, repl, from + 1)
  {
    if spans == [] {
      assert s[from..] == [s[from]] + s[from + 1..];
    } else {
      assert spans[0] in spans;
      assert s[from..spans[0].start] == [s[from]] + s[from + 1..spans[0].start];
      PrependAssociates(s[from], s[from + 1..spans[0].start], repl,
                        Splice(s, spans[1..], repl, spans[0].end));
    }
  }

  lemma PrependAssociates(x: char, a: string, b: string, c: string)
    ensures [x] + a + b + c == [x] + (a + b + c)
  {
  }

  /** Splicing at a match replaces it. */
  lemma SpliceAtMatch(s: string, spans: seq<Span>, repl: string, from: nat)
    requires from <= |s|
    requires forall sp | sp in spans :: from <= sp.start <= sp.end <= |s|
    requires Ordered(spans)
    requires spans != [] && spans[0].start == from
    ensures Splice(s, spans, repl, from) == repl + Splice(s, spans[1..], repl, spans[0].end)
  {
    assert s[from..from] == [];
  }

  /** `replace` and the `exec` loop agree: the global replacement rewrites
      exactly the matches `Scan` reports. */
  lemma {:induction false} ReplaceRewritesScannedMatches(m: Matcher, s: string, repl: string, from: nat)
    requires from <= |s|
    ensures ReplaceFrom(m, s, repl, from) == Splice(s, Scan(m, s, from), repl, from)
    decreases |s| - from
  {
    if from < |s| {
      match MatchAt(m, s, from)
      case Some(n) =>
        ReplaceRewritesScannedMatches(m, s, repl, from + n);
        var spans := Scan(m, s, from);
        assert spans == [Span(from, from + n)] + Scan(m, s, from + n);
        SpliceAtMatch(s, spans, repl, from);
      case None =>
        ReplaceRewritesScannedMatches(m, s, repl, from + 1);
        SpliceStep(s, Scan(m, s, from + 1), repl, from);
    }
  }

  /** A replacement no longer than any match never lengthens the text. */
  lemma {:induction false} ReplaceShrinks(m: Matcher, s: string, repl: string, from: nat)
    requires from <= |s|
    requires forall i | from <= i < |s| && MatchAt(m, s, i).Some? :: |repl| <= MatchAt(m, s, i).value
    ensures |ReplaceFrom(m, s, repl, from)| <= |s| - from
    decreases |s| - from
  {
    if from < |s| {
      match MatchAt(m, s, from)
      case Some(n) => ReplaceShrinks(m, s, repl, from + n);
      case None => ReplaceShrinks(m, s, repl, from + 1);
    }
  }

  /** Where the pattern never matches, `replace` returns its input. */
  lemma {:induction false} ReplaceWithoutMatch(m: Matcher, s: string, repl: string, from: nat)
    requires from <= |s|
    requires forall i | from <= i < |s| :: MatchAt(m, s, i).None?
    ensures ReplaceFrom(m, s, repl, from) == s[from..]
    decreases |s| - from
  {
    if from < |s| {
      ReplaceWithoutMatch(m, s, repl, from + 1);
      assert s[from..] == [s[from]] + s[from + 1..];
    }
  }

  /** One position of a fixed-width pattern: `\d`, a literal character, a
      two-character class such as `[T ]`, or an unescaped `.`. Without the
      `u` flag `.` takes one UTF-16 code unit other than a line terminator,
      so a character above the Basic Multilingual Plane, two code units,
      can only start a `.` match whose next unit is the low surrogate; no
      other cell accepts a surrogate, so such a character never lies inside
      a match of a pattern in which `.` is followed by another cell. */
  datatype Cell = Digit | Exactly(c: char) | Either(a: char, b: char) | AnyInLine

  predicate CellAccepts(cell: Cell, c: char) {
    match cell
    case Digit => IsDigit(c)
    case Exactly(x) => c == x
    case Either(a, b) => c == a || c == b
    case AnyInLine => c as int < 0x10000 && !IsLineTerminator(c)
  }

  /** `\d{n}`. */
  function Digits(n: nat): (t: seq<Cell>)
    ensures |t| == n && forall k | 0 <= k < n :: t[k] == Digit
  {
    seq(n, _ => Digit)
  }

  /** The fixed-width pattern `t` matches `s` starting at `i`. */
  function FitsAt(t: seq<Cell>, s: string, i: nat): (r: bool)
    decreases |t|
    ensures r <==> i + |t| <= |s| && forall k | 0 <= k < |t| :: CellAccepts(t[k], s[i + k])
  {
    if t == [] then i <= |s|
    else i < |s| && CellAccepts(t[0], s[i]) && FitsAt(t[1..], s, i + 1)
  }

  /** The leftmost position at or after `from` where `t` fits, as
      `s.match(re)` finds it for a non-global `re`. */
  function FindFixed(t: seq<Cell>, s: string, from: nat): (r: Option<nat>)
    decreases |s| - from
    ensures r.Some? ==> from <= r.value && FitsAt(t, s, r.value)
    ensures forall k | from <= k && (r.None? || k < r.value) :: !FitsAt(t, s, k)
  {
    if from + |t| > |s| then None
    else if FitsAt(t, s, from) then Some(from)
    else FindFixed(t, s, from + 1)
  }

  /** The end of the greedy run `[class]*` that starts at `p`: the first
      position at or after `p` whose character is outside the class, or `|s|`. */
  function SpanWhile(s: string, p: nat, inClass: char -> bool): (e: nat)
    requires p <= |s|
    decreases |s| - p
    ensures p <= e <= |s|
    ensures forall k | p <= k < e :: inClass(s[k])
    ensures e < |s| ==> !inClass(s[e])
  {
    if p == |s| || !inClass(s[p]) then p else SpanWhile(s, p + 1, inClass)
  }

  /** The run ends exactly where the class first fails. */
  lemma {:induction false} SpanWhileStops(s: string, p: nat, e: nat, inClass: char -> bool)
    requires p <= e <= |s|
    requires forall k | p <= k < e :: inClass(s[k])
    requires e == |s| || !inClass(s[e])
    ensures SpanWhile(s, p, inClass) == e
    decreases e - p
  {
    if p < e {
      SpanWhileStops(s, p + 1, e, inClass);
    }
  }

  /** `.`: any character but a line terminator. */
  predicate InLine(c: char) { !IsLineTerminator(c) }

  /** `^` in multiline mode: the start of the subject or just after a line
      terminator. */
  predicate LineStart(s: string, i: nat) {
    i == 0 || (i <= |s| && IsLineTerminator(s[i - 1]))
  }

  /** Position `k` of `s` exists and holds a `\w` character. */
  predicate WordCharAt(s: string, k: int) {
    0 <= k < |s| && IsWordChar(s[k])
  }

  /** `\b` at position `i`: exactly one of the neighbouring characters is a
      word character. */
  predicate WordBoundary(s: string, i: int) {
    WordCharAt(s, i - 1) != WordCharAt(s, i)
  }

  /** `w` is found at `i` when letters are compared under the `i` flag. */
  predicate StartsWithIgnoringCase(s: string, w: string, i: nat) {
    i + |w| <= |s| && Lower(s[i..i + |w|]) == Lower(w)
  }

  /** The alternation `(w1|w2|...)\b`: the first word, in list order, that
      matches at `i` and is followed by a word boundary. */
  function FirstKeyword(words: seq<string>, s: string, i: nat): (r: Option<nat>)
    decreases |words|
    ensures r.Some? ==> exists w | w in words ::
              |w| == r.value && StartsWithIgnoringCase(s, w, i) && WordBoundary(s, i + |w|)
    ensures r.None? ==> forall w | w in words ::
              !(StartsWithIgnoringCase(s, w, i) && WordBoundary(s, i + |w|))
  {
    if words == [] then None
    else if StartsWithIgnoringCase(s, words[0], i) && WordBoundary(s, i + |words[0]|) then
      Some(|words[0]|)
    else
      FirstKeyword(words[1..], s, i)
  }

  /** `\b(w1|w2|...)\b` with the `i` flag, tried at `i`. */
  function KeywordAt(words: seq<string>, s: string, i: nat): Option<nat> {
    if WordBoundary(s, i) then FirstKeyword(words, s, i) else None
  }
}
