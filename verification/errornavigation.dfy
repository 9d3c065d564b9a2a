/** `ErrorNavigation`: stepping through the critical issues of an analysis,
    with wrap-around at both ends, the `i of n errors` counter, and the
    jump to the current issue's line. `currentIndex` is `-1` while no issue
    is selected. */
module ErrorNavigation {
  import opened Wrappers
  import opened Strings
  import opened AiAnalyzer

  /** The panel is drawn only when there is something to step through. */
  predicate Shown(total: nat) {
    total > 0
  }

  /** The previous index: from the first issue, or from no selection, to the
      last one. */
  function Previous(current: int, total: nat): (r: int)
    requires Shown(total)
    ensures 0 <= r < total <==> current <= total
  {
    if current <= 0 then total - 1 else current - 1
  }

  /** The next index: from the last issue, or from beyond it, back to the
      first. */
  function Next(current: int, total: nat): (r: int)
    requires Shown(total)
    ensures 0 <= r < total <==> current >= -1
  {
    if current >= total - 1 then 0 else current + 1
  }

  /** Both step buttons are disabled when there are fewer than two issues. */
  predicate StepsDisabled(total: nat) {
    total <= 1
  }

  /** Stepping back undoes stepping forward, and the other way round, on
      every index of an issue. */
  lemma StepsAreInverse(current: int, total: nat)
    requires Shown(total) && 0 <= current < total
    ensures Previous(Next(current, total), total) == current
    ensures Next(Previous(current, total), total) == current
  {
  }

  /** With a single issue both steps stay on it, which is why disabling them
      loses nothing. */
  lemma SingleIssueStaysPut(current: int)
    ensures current >= -1 ==> Next(current, 1) == 0
    ensures current <= 1 ==> Previous(current, 1) == 0
  {
  }

  /** The buttons are disabled exactly when no step from an issue could
      move away from it. */
  lemma DisabledExactlyWhenStepsStayPut(total: nat)
    requires Shown(total)
    ensures StepsDisabled(total) <==>
              forall c | 0 <= c < total :: Next(c, total) == c && Previous(c, total) == c
  {
    if !StepsDisabled(total) {
      assert Next(0, total) == 1;
    }
  }

  /** The values of both steps: one up or one down inside the list, the
      first issue after the last one or after no selection, and the last
      issue before the first one or before no selection. */
  lemma StepsWrapAround(current: int, total: nat)
    requires Shown(total)
    ensures current < total - 1 ==> Next(current, total) == current + 1
    ensures current >= total - 1 ==> Next(current, total) == 0
    ensures current > 0 ==> Previous(current, total) == current - 1
    ensures current <= 0 ==> Previous(current, total) == total - 1
    ensures Next(total - 1, total) == 0 && Previous(0, total) == total - 1
    ensures total > 1 ==> Next(-1, total) == 0 && Previous(-1, total) == total - 1
  {
  }

  /** `k` steps forward. */
  function StepForward(current: int, total: nat, k: nat): int
    requires Shown(total)
  {
    if k == 0 then current else Next(StepForward(current, total, k - 1), total)
  }

  /** `k` steps back. */
  function StepBack(current: int, total: nat, k: nat): int
    requires Shown(total)
  {
    if k == 0 then current else Previous(StepBack(current, total, k - 1), total)
  }

  /** Short of the last issue, stepping forward counts up. */
  lemma {:induction false} ForwardCountsUp(current: int, total: nat, k: nat)
    requires Shown(total) && 0 <= current && current + k < total
    ensures StepForward(current, total, k) == current + k
  {
    if k > 0 {
      ForwardCountsUp(current, total, k - 1);
    }
  }

  /** Short of the first issue, stepping back counts down. */
  lemma {:induction false} BackCountsDown(current: int, total: nat, k: nat)
    requires Shown(total) && k <= current < total
    ensures StepBack(current, total, k) == current - k
  {
    if k > 0 {
      BackCountsDown(current, total, k - 1);
    }
  }

  /** Steps forward add up. */
  lemma {:induction false} ForwardAddsUp(current: int, total: nat, a: nat, b: nat)
    requires Shown(total)
    ensures StepForward(current, total, a + b) == StepForward(StepForward(current, total, a), total, b)
  {
    if b > 0 {
      ForwardAddsUp(current, total, a, b - 1);
    }
  }

  /** Steps back add up. */
  lemma {:induction false} BackAddsUp(current: int, total: nat, a: nat, b: nat)
    requires Shown(total)
    ensures StepBack(current, total, a + b) == StepBack(StepBack(current, total, a), total, b)
  {
    if b > 0 {
      BackAddsUp(current, total, a, b - 1);
    }
  }

  /** After as many steps as there are issues, either way, the selection is
      back where it started: the steps walk the issues in a cycle. */
  lemma FullRoundReturns(current: int, total: nat)
    requires Shown(total) && 0 <= current < total
    ensures StepForward(current, total, total) == current
    ensures StepBack(current, total, total) == current
  {
    // Forward: up to the last issue, over to the first, up to the start.
    ForwardCountsUp(current, total, total - 1 - current);
    assert StepForward(current, total, total - current) == 0;
    ForwardCountsUp(0, total, current);
    ForwardAddsUp(current, total, total - current, current);
    // Back: down to the first issue, over to the last, down to the start.
    BackCountsDown(current, total, current);
    assert StepBack(current, total, current + 1) == total - 1;
    BackCountsDown(total - 1, total, total - 1 - current);
    BackAddsUp(current, total, current + 1, total - 1 - current);
  }

  /** The position the counter shows: one-based, `0` with nothing selected. */
  function Position(current: int): (p: nat)
    ensures current >= 0 ==> p == current + 1
    ensures current < 0 ==> p == 0
  {
    if current >= 0 then current + 1 else 0
  }

  /** The counter text, `i of n errors`. */
  function CounterLabel(current: int, total: nat): (s: string)
    ensures OccursAt(s, Decimal(Position(current)), 0)
    ensures OccursAt(s, " of ", |Decimal(Position(current))|)
    ensures OccursAt(s, Decimal(total), |Decimal(Position(current))| + 4)
    ensures |s| == |Decimal(Position(current))| + 4 + |Decimal(total)| + 7
    ensures OccursAt(s, " errors", |s| - 7)
  {
    Decimal(Position(current)) + " of " + Decimal(total) + " errors"
  }

  /** The counter can be read back: the digits before ` of ` give the
      position and the digits after it give the number of issues. */
  lemma CounterLabelReadsBack(current: int, total: nat)
    ensures var s := CounterLabel(current, total);
            var a := |Decimal(Position(current))|;
            var b := |Decimal(total)|;
            && a + 4 + b <= |s|
            && (forall i | 0 <= i < a :: IsDigit(s[i]))
            && DecimalValue(s[..a]) == Position(current)
            && (forall i | a + 4 <= i < a + 4 + b :: IsDigit(s[i]))
            && DecimalValue(s[a + 4..a + 4 + b]) == total
  {
    var s := CounterLabel(current, total);
    var a := |Decimal(Position(current))|;
    var b := |Decimal(total)|;
    assert s[..a] == Decimal(Position(current));
    assert s[a + 4..a + 4 + b] == Decimal(total);
    DecimalRoundTrip(Position(current));
    DecimalRoundTrip(total);
  }

  /** The issue shown beside the counter. An index past the end reads an
      absent array element, so nothing is shown for it either. */
  function CurrentIssue(issues: seq<Issue>, current: int): (r: Option<Issue>)
    ensures r.Some? <==> 0 <= current < |issues|
    ensures r.Some? ==> r.value == issues[current]
  {
    if 0 <= current < |issues| then Some(issues[current]) else None
  }

  /** The code units of `...`. */
  const Dots: seq<CodeUnit> := [0x2E, 0x2E, 0x2E]

  lemma DotsAreEllipsis()
    ensures Utf16("...") == Dots
  {
    assert "..."[1..] == ".." && ".."[1..] == "." && "."[1..] == [];
  }

  /** `length > 80 ? slice(0, 80) + '...' : text` on JavaScript's code
      units: a cut may fall between the two halves of a surrogate pair. */
  function Cut(units: seq<CodeUnit>): (r: seq<CodeUnit>)
    ensures |r| <= 83
    ensures |units| <= 80 ==> r == units
    ensures |units| > 80 ==> |r| == 83 && r[..80] == units[..80] && r[80..] == Dots
  {
    if |units| > 80 then units[..80] + Dots else units
  }

  /** The content as shown: cut to 80 code units, with `...` appended when
      something was cut. */
  function Preview(content: string): (r: seq<CodeUnit>)
    ensures |r| <= 83
    ensures |Utf16(content)| <= 80 ==> r == Utf16(content)
    ensures |Utf16(content)| > 80 ==>
              |r| == 83 && r[..80] == Utf16(content)[..80] && r[80..] == Utf16("...")
  {
    DotsAreEllipsis();
    Cut(Utf16(content))
  }

  /** Cutting a preview again changes nothing. */
  lemma PreviewIsStable(content: string)
    ensures Cut(Preview(content)) == Preview(content)
  {
    var r := Preview(content);
    if |Utf16(content)| > 80 {
      assert r == r[..80] + Dots;
    }
  }

  /** For text inside the Basic Multilingual Plane, where a character is one
      code unit, the preview is the first 80 characters, with `...` when
      something was cut. */
  lemma PreviewOfBmpText(content: string)
    requires InBmp(content)
    ensures |content| <= 80 ==> Preview(content) == Utf16(content)
    ensures |content| > 80 ==> Preview(content) == Utf16(content[..80] + "...")
  {
    if |content| > 80 {
      var head := content[..80];
      BmpHeadUnits(content, head);
      Utf16Append(head, "...");
      DotsAreEllipsis();
    } else {
      Utf16OfBmp(content);
    }
  }

  /** The code units of a string inside the Basic Multilingual Plane begin
      with those of its first 80 characters. */
  lemma BmpHeadUnits(content: string, head: string)
    requires InBmp(content) && |content| > 80 && head == content[..80]
    ensures |Utf16(content)| > 80 && Utf16(content)[..80] == Utf16(head)
  {
    var tail := content[80..];
    assert content == head + tail;
    Utf16Append(head, tail);
    assert InBmp(head) by {
      forall i | 0 <= i < |head| ensures head[i] as int < 0x10000 {
        assert head[i] == content[i];
      }
    }
    Utf16OfBmp(head);
    assert InBmp(tail) by {
      forall i | 0 <= i < |tail| ensures tail[i] as int < 0x10000 {
        assert tail[i] == content[80 + i];
      }
    }
    Utf16OfBmp(tail);
  }

  /** Eighty characters whose last one lies above the Basic Multilingual
      Plane are 81 code units, so the preview cuts them: it keeps the high
      surrogate of the last character, drops the low one and appends
      `...`. */
  lemma PreviewSplitsSurrogatePair(head: string)
    requires |head| == 79 && InBmp(head)
    ensures var content := head + ['\U{1F600}'];
            && |content| == 80
            && Preview(content) == Utf16(head) + [0xD83D as CodeUnit] + Dots
  {
    var content := head + ['\U{1F600}'];
    Utf16Append(head, ['\U{1F600}']);
    Utf16OfBmp(head);
    assert Utf16(['\U{1F600}']) == CharUnits('\U{1F600}') + Utf16([]);
    assert CharUnits('\U{1F600}') == [0xD83D as CodeUnit, 0xDE00 as CodeUnit];
    assert Utf16(content)[..80] == Utf16(head) + [0xD83D as CodeUnit];
  }

  /** The line the `Jump to Line` button reports, if it reports one: only
      when the panel was given a jump handler and the index names an
      issue. */
  function JumpTarget(issues: seq<Issue>, current: int, hasJumpHandler: bool): (r: Option<int>)
    ensures r.Some? <==> hasJumpHandler && CurrentIssue(issues, current).Some?
    ensures r.Some? ==> r.value == CurrentIssue(issues, current).value.line
  {
    if hasJumpHandler && 0 <= current < |issues| then Some(issues[current].line) else None
  }

  /** The jump button is disabled only for a negative index. */
  predicate JumpDisabled(current: int) {
    current < 0
  }

  /** An enabled jump button can still do nothing: past the end of the
      list. */
  lemma EnabledJumpMayDoNothing(issues: seq<Issue>)
    ensures !JumpDisabled(|issues|) && JumpTarget(issues, |issues|, true).None?
  {
  }

  /** From anywhere at or after the first issue, stepping forward lands on an
      issue, so the next jump reports a line. */
  lemma StepThenJump(issues: seq<Issue>, current: int)
    requires Shown(|issues|) && current >= -1
    ensures JumpTarget(issues, Next(current, |issues|), true).Some?
  {
  }
}
