/** Character classes and string operations with the meaning JavaScript gives
    them: `\s`, `\w`, `\d`, `trim`, `includes`, `toLowerCase` on ASCII, and
    `split` on one separator character. */
module Strings {
  import opened Wrappers

  /** JavaScript's `\s` class, which is also the set `String.prototype.trim`
      strips: the ECMAScript WhiteSpace and LineTerminator code points. */
  predicate IsWhitespace(c: char) {
    var n := c as int;
    || n == 0x09 || n == 0x0A || n == 0x0B || n == 0x0C || n == 0x0D || n == 0x20
    || n == 0xA0 || n == 0x1680 || (0x2000 <= n <= 0x200A)
    || n == 0x2028 || n == 0x2029 || n == 0x202F || n == 0x205F
    || n == 0x3000 || n == 0xFEFF
  }

  /** The characters that end a line for `^`, `$` and `.` in a JavaScript
      regular expression. */
  predicate IsLineTerminator(c: char) {
    var n := c as int;
    n == 0x0A || n == 0x0D || n == 0x2028 || n == 0x2029
  }

  predicate IsDigit(c: char) {
    '0' <= c <= '9'
  }

  predicate IsAsciiLetter(c: char) {
    'a' <= c <= 'z' || 'A' <= c <= 'Z'
  }

  /** `\w`: the characters on the inner side of a `\b` boundary. */
  predicate IsWordChar(c: char) {
    IsAsciiLetter(c) || IsDigit(c) || c == '_'
  }

  /** ASCII lower-casing, which is what the `i` flag of a non-Unicode regular
      expression compares by. */
  function LowerChar(c: char): char {
    if 'A' <= c <= 'Z' then (c as int + 32) as char else c
  }

  function Lower(s: string): (r: string)
    ensures |r| == |s|
    ensures forall i | 0 <= i < |s| :: r[i] == LowerChar(s[i])
  {
    seq(|s|, i requires 0 <= i < |s| => LowerChar(s[i]))
  }

  ghost predicate AllWhitespace(s: string) {
    forall k | 0 <= k < |s| :: IsWhitespace(s[k])
  }

  /** `w` occurs in `s` starting at index `k`. */
  predicate OccursAt(s: string, w: string, k: int) {
    0 <= k && k + |w| <= |s| && s[k..k + |w|] == w
  }

  /** `w` is a substring of `s`: the meaning of `s.includes(w)`. */
  ghost predicate Occurs(s: string, w: string) {
    exists k :: OccursAt(s, w, k)
  }

  /** The first index at or after `from` where `w` occurs, as `indexOf` finds it. */
  function IndexOf(s: string, w: string, from: nat): (r: Option<nat>)
    decreases |s| - from
    ensures r.Some? ==> from <= r.value && OccursAt(s, w, r.value)
    ensures forall k | from <= k && (r.None? || k < r.value) :: !OccursAt(s, w, k)
  {
    if from + |w| > |s| then None
    else if s[from..from + |w|] == w then Some(from)
    else IndexOf(s, w, from + 1)
  }

  /** `s.includes(w)`. */
  function Contains(s: string, w: string): (r: bool)
    ensures r <==> Occurs(s, w)
  {
    var i := IndexOf(s, w, 0);
    if i.Some? then
      assert OccursAt(s, w, i.value);
      true
    else
      false
  }

  /** Some word of `ws` occurs in `s`: an `if (a || b || ...)` over `includes`. */
  function ContainsAny(s: string, ws: seq<string>): (r: bool)
    decreases |ws|
    ensures r <==> exists w | w in ws :: Occurs(s, w)
  {
    if ws == [] then false
    else Contains(s, ws[0]) || ContainsAny(s, ws[1..])
  }

  /** Some word of `ws` is a substring of `s` when letters are compared
      without regard to case: `/(w1|w2|...)/i.test(s)` for words `ws` in
      lower case. */
  ghost predicate MentionsAny(s: string, ws: seq<string>) {
    exists w | w in ws :: Occurs(Lower(s), w)
  }

  /** Index of the first non-whitespace character at or after `i`, or `|s|`:
      the end of a greedy `\s*` that starts at `i`. */
  function SkipWhitespace(s: string, i: nat): (j: nat)
    requires i <= |s|
    decreases |s| - i
    ensures i <= j <= |s|
    ensures forall k | i <= k < j :: IsWhitespace(s[k])
    ensures j < |s| ==> !IsWhitespace(s[j])
  {
    if i == |s| || !IsWhitespace(s[i]) then i else SkipWhitespace(s, i + 1)
  }

  /** The whitespace run ends where whitespace first fails. */
  lemma {:induction false} SkipWhitespaceStops(s: string, i: nat, j: nat)
    requires i <= j <= |s|
    requires forall k | i <= k < j :: IsWhitespace(s[k])
    requires j == |s| || !IsWhitespace(s[j])
    ensures SkipWhitespace(s, i) == j
    decreases j - i
  {
    if i < j {
      SkipWhitespaceStops(s, i + 1, j);
    }
  }

  /** The end of `s[..j]` once its trailing whitespace is dropped. */
  function BackOverWhitespace(s: string, j: nat): (e: nat)
    requires j <= |s|
    decreases j
    ensures e <= j
    ensures forall k | e <= k < j :: IsWhitespace(s[k])
    ensures e > 0 ==> !IsWhitespace(s[e - 1])
  {
    if j == 0 || !IsWhitespace(s[j - 1]) then j else BackOverWhitespace(s, j - 1)
  }

  /** `String.prototype.trim`: it removes leading and trailing whitespace and
      nothing else. */
  function Trim(s: string): (r: string)
    ensures |r| <= |s|
    ensures r == [] <==> AllWhitespace(s)
    ensures r != [] ==> !IsWhitespace(r[0]) && !IsWhitespace(r[|r| - 1])
    ensures OccursAt(s, r, SkipWhitespace(s, 0))
    ensures forall k | 0 <= k < |s| && !IsWhitespace(s[k]) ::
              SkipWhitespace(s, 0) <= k < SkipWhitespace(s, 0) + |r|
  {
    var a := SkipWhitespace(s, 0);
    var b := BackOverWhitespace(s, |s|);
    if b <= a then [] else s[a..b]
  }

  /** The first index at or after `from` holding `c`, or `|s|`. */
  function IndexOfChar(s: string, c: char, from: nat): (k: nat)
    requires from <= |s|
    decreases |s| - from
    ensures from <= k <= |s|
    ensures k < |s| ==> s[k] == c
    ensures forall j | from <= j < k :: s[j] != c
  {
    if from == |s| || s[from] == c then from else IndexOfChar(s, c, from + 1)
  }

  /** `s.split(sep)` for a one-character separator: the pieces between the
      separators, one more piece than there are separators. */
  function Split(s: string, sep: char): (parts: seq<string>)
    decreases |s|
    ensures |parts| >= 1
    ensures forall i | 0 <= i < |parts| :: sep !in parts[i]
  {
    var k := IndexOfChar(s, sep, 0);
    if k == |s| then
      [s]
    else
      [s[..k]] + Split(s[k + 1..], sep)
  }

  /** `parts.join(sep)`. */
  function Join(parts: seq<string>, sep: char): string
    requires |parts| >= 1
    decreases |parts|
  {
    if |parts| == 1 then parts[0] else parts[0] + [sep] + Join(parts[1..], sep)
  }

  /** Splitting loses nothing: joining the pieces gives the input back. */
  lemma {:induction false} SplitJoin(s: string, sep: char)
    ensures Join(Split(s, sep), sep) == s
    decreases |s|
  {
    var k := IndexOfChar(s, sep, 0);
    if k < |s| {
      SplitJoin(s[k + 1..], sep);
      assert s == s[..k] + [sep] + s[k + 1..];
    }
  }

  /** Joining pieces free of the separator and splitting again gives the
      pieces back. */
  lemma {:induction false} JoinSplit(parts: seq<string>, sep: char)
    requires |parts| >= 1
    requires forall i | 0 <= i < |parts| :: sep !in parts[i]
    ensures Split(Join(parts, sep), sep) == parts
    decreases |parts|
  {
    var s := Join(parts, sep);
    if |parts| == 1 {
      assert forall j | 0 <= j < |s| :: s[j] != sep;
    } else {
      var rest := Join(parts[1..], sep);
      assert s == parts[0] + [sep] + rest;
      var k := IndexOfChar(s, sep, 0);
      assert forall j | 0 <= j < |parts[0]| :: s[j] == parts[0][j] != sep;
      assert s[|parts[0]|] == sep;
      assert k == |parts[0]|;
      assert s[..k] == parts[0];
      assert s[k + 1..] == rest;
      JoinSplit(parts[1..], sep);
      assert parts == [parts[0]] + parts[1..];
    }
  }

  /** The digit for `d`. */
  function DigitChar(d: nat): (c: char)
    requires d < 10
    ensures IsDigit(c)
  {
    ('0' as int + d) as char
  }

  /** A number written in decimal, as a template literal or `String` writes it. */
  function Decimal(n: nat): (s: string)
    decreases n
    ensures s != []
    ensures forall i | 0 <= i < |s| :: IsDigit(s[i])
    ensures n > 0 ==> s[0] != '0'
  {
    if n < 10 then [DigitChar(n)] else Decimal(n / 10) + [DigitChar(n % 10)]
  }

  /** The value of a string of decimal digits. */
  function DecimalValue(s: string): nat
    requires forall i | 0 <= i < |s| :: IsDigit(s[i])
  {
    if s == [] then 0
    else
      assert IsDigit(s[|s| - 1]);
      DecimalValue(s[..|s| - 1]) * 10 + (s[|s| - 1] as int - '0' as int)
  }

  /** Writing a number in decimal loses nothing. */
  lemma {:induction false} DecimalRoundTrip(n: nat)
    decreases n
    ensures DecimalValue(Decimal(n)) == n
  {
    if n >= 10 {
      DecimalRoundTrip(n / 10);
      var s := Decimal(n);
      assert s[..|s| - 1] == Decimal(n / 10);
    }
  }

  // ---------------------------------------------------------------------
  // UTF-16

  /** A UTF-16 code unit: what a JavaScript string's `length`, indices and
      `slice` count. */
  newtype CodeUnit = x: int | 0 <= x < 0x10000

  /** The code units of one character: the character itself inside the Basic
      Multilingual Plane, a high and a low surrogate above it. */
  function CharUnits(c: char): (r: seq<CodeUnit>)
    ensures c as int < 0x10000 ==> r == [c as int as CodeUnit]
    ensures c as int >= 0x10000 ==>
              |r| == 2 && 0xD800 <= r[0] as int < 0xDC00 <= r[1] as int < 0xE000
              && (r[0] as int - 0xD800) * 0x400 + (r[1] as int - 0xDC00) + 0x10000 == c as int
  {
    if c as int < 0x10000 then [c as int as CodeUnit]
    else
      var v := c as int - 0x10000;
      [(0xD800 + v / 0x400) as CodeUnit, (0xDC00 + v % 0x400) as CodeUnit]
  }

  /** The UTF-16 encoding of a string, as JavaScript holds it. */
  function Utf16(s: string): (r: seq<CodeUnit>)
    ensures |r| >= |s|
  {
    if s == [] then [] else CharUnits(s[0]) + Utf16(s[1..])
  }

  /** Every character lies in the Basic Multilingual Plane. */
  predicate InBmp(s: string) {
    forall i | 0 <= i < |s| :: s[i] as int < 0x10000
  }

  /** Encoding distributes over concatenation. */
  lemma {:induction false} Utf16Append(a: string, b: string)
    ensures Utf16(a + b) == Utf16(a) + Utf16(b)
  {
    if a != [] {
      assert (a + b)[0] == a[0] && (a + b)[1..] == a[1..] + b;
      Utf16Append(a[1..], b);
      calc {
        Utf16(a + b);
        CharUnits(a[0]) + Utf16(a[1..] + b);
        CharUnits(a[0]) + (Utf16(a[1..]) + Utf16(b));
        (CharUnits(a[0]) + Utf16(a[1..])) + Utf16(b);
      }
    } else {
      assert a + b == b;
    }
  }

  /** Inside the Basic Multilingual Plane a character is one code unit, so
      counting code units and counting characters agree. */
  lemma {:induction false} Utf16OfBmp(s: string)
    requires InBmp(s)
    ensures |Utf16(s)| == |s|
    ensures forall i | 0 <= i < |s| :: Utf16(s)[i] as int == s[i] as int
  {
    if s != [] {
      Utf16OfBmp(s[1..]);
      assert Utf16(s) == [s[0] as int as CodeUnit] + Utf16(s[1..]);
    }
  }
}
