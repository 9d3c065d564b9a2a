/** How the two level tests relate: the processor's `detectLogLevel` and the
    highlighter's `determineLineLevel` look for different word lists, and
    the highlighter's lists are the wider ones. */
module Consistency {
  import opened Wrappers
  import opened Strings
  import opened Highlighter
  import opened LogProcessor

  /** Whatever level the processor gives a line, the highlighter gives it
      that level or a more severe one. */
  lemma HighlighterLevelAtLeastProcessorLevel(line: string)
    ensures DetectLogLevel(line) == Some(ErrorLevel) ==> DetermineLineLevel(line) == Error
    ensures DetectLogLevel(line) == Some(WarningLevel) ==> DetermineLineLevel(line) in {Error, Warning}
    ensures DetectLogLevel(line) == Some(InfoLevel) ==> DetermineLineLevel(line) in {Error, Warning, Info}
    ensures DetectLogLevel(line) == Some(DebugLevel) ==> DetermineLineLevel(line) != Normal
  {
    assert MentionsAny(line, LevelErrorTerms) ==> MentionsAny(line, LineErrorWords) by {
      MentionsSubList(line, LineErrorWords, LevelErrorTerms);
    }
    assert MentionsAny(line, LevelWarningTerms) ==> MentionsAny(line, LineWarningWords) by {
      MentionsSubList(line, LineWarningWords, LevelWarningTerms);
    }
    assert MentionsAny(line, LevelInfoTerms) ==> MentionsAny(line, LineInfoWords) by {
      MentionsSubList(line, LineInfoWords, LevelInfoTerms);
    }
    assert MentionsAny(line, LevelDebugTerms) ==> MentionsAny(line, LineDebugWords) by {
      MentionsSubList(line, LineDebugWords, LevelDebugTerms);
    }
  }

  /** The converse fails: `failed` is an error word for the highlighter
      only. */
  lemma FailedIsOnlyAHighlighterError()
    ensures DetermineLineLevel("failed") == Error
    ensures DetectLogLevel("failed") != Some(ErrorLevel)
  {
    var s := "failed";
    assert Lower(s) == s;
    assert OccursAt(Lower(s), "failed", 0);
    assert "failed" in LineErrorWords;
    forall w | w in LevelErrorTerms
      ensures !Occurs(Lower(s), w)
    {
      forall k | 0 <= k
        ensures !OccursAt(s, w, k)
      {
        if k + |w| <= |s| {
          assert s[k..k + |w|][0] == s[k];
          assert s[k..k + |w|][2] == s[k + 2];
        }
      }
    }
  }
}
