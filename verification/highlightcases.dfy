/** Particular lines and what the highlighter's patterns make of them. */
module HighlightCases {
  import opened Wrappers
  import opened Strings
  import opened Matching
  import opened Highlighter
  import opened LogPatterns

  /** A path of `[^\s:]` characters after a leading slash, whose name
      before the extension `ext` holds at least one character. */
  predicate PathEndingIn(s: string, ext: string) {
    && |s| >= |ext| + 3 && s[0] == '/'
    && (forall k | 1 <= k < |s| :: PathChar(s[k]))
    && s[|s| - |ext| - 1] == '.'
    && s[|s| - |ext|..] == ext
  }

  /** The file pattern's alternation takes an extension of `n` characters at `j`. */
  predicate FileExtensionAt(s: string, j: nat, n: nat) {
    ExtensionAt(s, j, FileExtensions) == Some(n)
  }

  /** A path made of `[^\s:]` characters after a leading slash, whose last
      dot comes right before `j`, is matched up to the extension taken at `j`. */
  lemma FilePathEndsAfterExtension(s: string, j: nat, n: nat)
    requires 3 <= j <= |s| && s[0] == '/' && s[j - 1] == '.'
    requires forall k | 1 <= k < |s| :: PathChar(s[k])
    requires forall k | j <= k < |s| :: s[k] != '.'
    requires FileExtensionAt(s, j, n)
    ensures MatchAt(FilePathAt, s, 0) == Some(j + n)
  {
    LastDotPathMatch(FileExtensions, s, j, n);
  }

  /** At `tsx` the alternation takes `ts`. */
  lemma TsxIsTs(s: string, j: nat)
    requires j + 3 <= |s| && s[j] == 't' && s[j + 1] == 's' && s[j + 2] == 'x'
    ensures FileExtensionAt(s, j, 2)
  {
    var e := FileExtensions;
    assert e[0] == "js" && e[1] == "ts";
    assert s[j..j + 2] == "ts";
    assert !OccursAt(s, e[0], j);
    ExtensionAtFirstFit(s, j, e, 1);
  }

  /** At `css` the alternation takes `c`. */
  lemma CssIsC(s: string, j: nat)
    requires j + 3 <= |s| && s[j] == 'c' && s[j + 1] == 's' && s[j + 2] == 's'
    ensures FileExtensionAt(s, j, 1)
  {
    var e := FileExtensions;
    assert e[..8] == ["js", "ts", "jsx", "tsx", "py", "java", "cpp", "c"];
    assert s[j..j + 1] == "c";
    forall k | 0 <= k < 7
      ensures !OccursAt(s, e[k], j)
    {
      assert e[k] == e[..8][k];
      assert e[k][0] != 'c' || e[k][1] != 's';
    }
    ExtensionAtFirstFit(s, j, e, 7);
  }

  /** The extension alternation stops at the first extension that fits, so
      `.json` is highlighted as `.js`, `.tsx` as `.ts` and `.css` as `.c`. */
  lemma JsonPathEndsAtJs(s: string)
    requires PathEndingIn(s, "json")
    ensures MatchAt(FilePathAt, s, 0) == Some(|s| - 2)
  {
    var j := |s| - 4;
    assert |"json"| == 4 && s[j - 1] == '.';
    assert s[j..] == "json";
    assert s[j..j + 2] == s[j..][..2] == "js";
    assert FileExtensionAt(s, j, 2);
    FilePathEndsAfterExtension(s, j, 2);
  }

  lemma TsxPathEndsAtTs(s: string)
    requires PathEndingIn(s, "tsx")
    ensures MatchAt(FilePathAt, s, 0) == Some(|s| - 1)
  {
    var j := |s| - 3;
    assert |"tsx"| == 3 && s[j - 1] == '.';
    assert s[j..] == "tsx";
    assert s[j] == s[j..][0] && s[j + 1] == s[j..][1] && s[j + 2] == s[j..][2];
    TsxIsTs(s, j);
    FilePathEndsAfterExtension(s, j, 2);
  }

  lemma CssPathEndsAtC(s: string)
    requires PathEndingIn(s, "css")
    ensures MatchAt(FilePathAt, s, 0) == Some(|s| - 2)
  {
    var j := |s| - 3;
    assert |"css"| == 3 && s[j - 1] == '.';
    assert s[j..] == "css";
    assert s[j] == s[j..][0] && s[j + 1] == s[j..][1] && s[j + 2] == s[j..][2];
    CssIsC(s, j);
    FilePathEndsAfterExtension(s, j, 1);
  }

  /** A frame line of the sample log. */
  const SampleFrame: string := "    at " + "UserList.render " + "(/src/components/" + "UserList.tsx:45:23)"

  lemma SampleFrameIsSingleLine()
    ensures SingleLine(SampleFrame)
  {
    var a, b, c, d := "    at ", "UserList.render ", "(/src/components/", "UserList.tsx:45:23)";
    assert SingleLine(a) && SingleLine(b) && SingleLine(c) && SingleLine(d);
    SingleLineJoin(a, b);
    SingleLineJoin(a + b, c);
    SingleLineJoin(a + b + c, d);
  }

  /** The frame pattern matches the whole sample line. */
  lemma SampleFrameIsStackFrame()
    ensures MatchAt(StackFrameAt, SampleFrame, 0) == Some(|SampleFrame|)
  {
    SampleFrameIsSingleLine();
    assert SampleFrame[4..6] == "at";
    IndentedAtLineIsStackFrame(SampleFrame, 4);
  }

  /** The extension after the last dot of the sample path is read as `ts`. */
  lemma SampleFrameExtension()
    ensures FileExtensionAt(SampleFrame, 49, 2)
    ensures LastExtensionDot(FileExtensions, SampleFrame, 26, 52) == Some(48)
  {
    var d := "UserList.tsx:45:23)";
    var s := SampleFrame;
    assert s[48] == d[8] && s[49] == d[9] && s[50] == d[10] && s[51] == d[11];
    TsxIsTs(s, 49);
    assert ExtensionDot(FileExtensions, s, 48);
  }

  lemma SamplePathRun()
    ensures |SampleFrame| == 59 && SlashRun(SampleFrame, 24, 52)
  {
    var ab, c, d := "    at " + "UserList.render ", "(/src/components/", "UserList.tsx:45:23)";
    var s := SampleFrame;
    assert |ab| == 23 && |c| == 17 && |d| == 19;
    assert forall i | 1 <= i < |c| :: PathChar(c[i]);
    assert forall i | 0 <= i < 12 :: PathChar(d[i]);
    forall k | 25 <= k < 52
      ensures PathChar(s[k])
    {
      if k < 40 {
        assert s[k] == c[k - 23];
      } else {
        assert s[k] == d[k - 40];
      }
    }
    assert s[24] == c[1] && s[52] == d[12];
  }

  /** The path in the sample frame matches, cut after `.ts`. */
  lemma SampleFramePath()
    ensures MatchAt(FilePathAt, SampleFrame, 24) == Some(27)
  {
    SampleFrameExtension();
    SamplePathRun();
    SlashPathMatch(FileExtensions, SampleFrame, 24, 52, 48, 2);
  }

  /** The sample frame line gets no `stacktrace` token: its path is claimed
      by the file family first. */
  lemma SampleFrameHasNoStackTraceToken()
    ensures forall t | t in Tokenize(Catalog, SampleFrame) :: t.kind != StacktraceToken
  {
    SampleFrameIsSingleLine();
    SampleFramePath();
    forall t | t in Tokenize(Catalog, SampleFrame)
      ensures t.kind != StacktraceToken
    {
      PathInLineBlocksStackFrame(SampleFrame, 24, t);
    }
  }

  /** A level word in quotes. */
  const QuotedError: string := "\"error\""

  /** The level family matches the word inside the quotes, whatever its case. */
  lemma QuotedErrorHasLevelWord()
    ensures MatchAt(LevelAt, QuotedError, 1) == Some(5)
  {
    var s := QuotedError;
    assert s[1..6] == "error";
    assert Lower(s[1..6]) == Lower("ERROR");
    assert WordBoundary(s, 1) && WordBoundary(s, 6);
    assert StartsWithIgnoringCase(s, LevelWords[0], 1);
  }

  /** The only quoted run is the whole line. */
  lemma QuotedErrorQuotes(i: nat)
    ensures MatchAt(QuotedAt, QuotedError, i).Some? ==> i == 0 && MatchAt(QuotedAt, QuotedError, i).value == 7
  {
    assert |QuotedError| == 7;
  }

  /** `"error"` gets no `string` token: the word inside was claimed by the
      level family, and the quoted run overlaps it. */
  lemma QuotedErrorIsNotAString()
    ensures forall t | t in Tokenize(Catalog, QuotedError) :: t.kind != StringToken
  {
    QuotedErrorHasLevelWord();
    forall t | t in Tokenize(Catalog, QuotedError)
      ensures t.kind != StringToken
    {
      TokenOrigin(QuotedError, t);
      QuotedErrorQuotes(t.start);
      LevelKeywordOutranksLaterFamilies(QuotedError, t, 1);
    }
  }

  /** A number needs a word boundary on both sides; a fraction is dropped
      when a letter follows it. */
  lemma NumberBoundaries()
    ensures NumberAt("3.14", 0) == Some(4)
    ensures NumberAt("1.5a", 0) == Some(1)
    ensures NumberAt("v2", 1) == None
  {
    assert SpanWhile("3.14", 0, IsDigit) == 1;
    assert SpanWhile("3.14", 2, IsDigit) == 4;
    assert SpanWhile("1.5a", 0, IsDigit) == 1;
    assert SpanWhile("1.5a", 2, IsDigit) == 3;
  }

  /** The line-level tests look for substrings, not words: `terrors`
      mentions `error`. */
  lemma ErrorInsideAWord()
    ensures DetermineLineLevel("terrors") == Error
  {
    assert Lower("terrors")[1..6] == "error";
    assert OccursAt(Lower("terrors"), "error", 1);
  }
}
