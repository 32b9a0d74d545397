/**
 * The host side of the two-pane comparison tool: the whole-buffer difference
 * counter, the application state that keeps the count current on every edit,
 * and the decisions the view derives from that state (whether the left pane
 * has content, the left pane's background, the status line).
 */
module Fusion {
  import opened TextLines

  // ---------------------------------------------------------------------
  // The difference counter
  // ---------------------------------------------------------------------

  /** Line `i` of `lines`, or "" when there is no such line. */
  function LineOrEmpty(lines: seq<string>, i: nat): string {
    if i < |lines| then lines[i] else ""
  }

  /**
   * Index `i` counts as a difference: the left line (or "") differs from
   * the right line (or "") and the left line is not blank.
   */
  predicate LineDiffers(left: seq<string>, right: seq<string>, i: nat) {
    LineOrEmpty(left, i) != LineOrEmpty(right, i) && !IsBlank(LineOrEmpty(left, i))
  }

  /** How many of the indices below `n` count as differences. */
  function DiffCountBelow(left: seq<string>, right: seq<string>, n: nat): nat {
    if n == 0 then 0
    else DiffCountBelow(left, right, n - 1) + (if LineDiffers(left, right, n - 1) then 1 else 0)
  }

  /** How many of the indices below `n` hold a non-blank line of `lines`. */
  function NonBlankBelow(lines: seq<string>, n: nat): nat {
    if n == 0 then 0
    else NonBlankBelow(lines, n - 1) + (if !IsBlank(LineOrEmpty(lines, n - 1)) then 1 else 0)
  }

  /** The number of non-blank lines in `lines`. */
  function NonBlankCount(lines: seq<string>): nat {
    NonBlankBelow(lines, |lines|)
  }

  function Max(a: nat, b: nat): nat {
    if a < b then b else a
  }

  /**
   * The value the counter computes: the differing indices among all
   * `max(len(left), len(right))` positions of the two texts' lines.
   */
  function DifferentLines(leftText: string, rightText: string): nat {
    var left, right := Lines(leftText), Lines(rightText);
    DiffCountBelow(left, right, Max(|left|, |right|))
  }

  /** The counter itself: one pass over the positions, bumping `count`. */
  method CountDifferentLines(leftText: string, rightText: string) returns (count: nat)
    ensures count == DifferentLines(leftText, rightText)
  {
    var leftLines := Lines(leftText);
    var rightLines := Lines(rightText);
    count := 0;
    var maxLines := Max(|leftLines|, |rightLines|);
    for i := 0 to maxLines
      invariant count == DiffCountBelow(leftLines, rightLines, i)
    {
      var leftLine := if i < |leftLines| then leftLines[i] else "";
      var rightLine := if i < |rightLines| then rightLines[i] else "";
      if leftLine != rightLine && !IsBlank(leftLine) {
        count := count + 1;
      }
    }
  }

  // ---------------------------------------------------------------------
  // What the count means
  // ---------------------------------------------------------------------

  /** The indices below `n` that count as differences. */
  ghost function DifferingIndices(left: seq<string>, right: seq<string>, n: nat): set<nat> {
    set i: nat | i < n && LineDiffers(left, right, i)
  }

  /** How many indices below `n` satisfy `p`. */
  function CountBelow(p: nat -> bool, n: nat): nat {
    if n == 0 then 0 else CountBelow(p, n - 1) + (if p(n - 1) then 1 else 0)
  }

  /** Counting the indices below `n` that satisfy `p` gives the size of the set of them. */
  lemma {:induction false} CountBelowIsCardinality(p: nat -> bool, n: nat)
    ensures CountBelow(p, n) == |set i: nat | i < n && p(i)|
  {
    if n > 0 {
      CountBelowIsCardinality(p, n - 1);
      var below := set i: nat | i < n - 1 && p(i);
      var all := set i: nat | i < n && p(i);
      if p(n - 1) {
        forall i: nat ensures i in all <==> i in below + {n - 1} {
        }
        assert all == below + {n - 1};
        assert n - 1 !in below;
      } else {
        forall i: nat ensures i in all <==> i in below {
        }
        assert all == below;
      }
    }
  }

  lemma {:induction false} DiffCountBelowIsCardinality(left: seq<string>, right: seq<string>, n: nat)
    ensures DiffCountBelow(left, right, n) == |DifferingIndices(left, right, n)|
  {
    var p := (i: nat) => LineDiffers(left, right, i);
    CountBelowIsCardinality(p, n);
    DiffCountBelowIsCountBelow(left, right, n);
    assert (set i: nat | i < n && p(i)) == DifferingIndices(left, right, n);
  }

  lemma {:induction false} DiffCountBelowIsCountBelow(left: seq<string>, right: seq<string>, n: nat)
    ensures DiffCountBelow(left, right, n) == CountBelow((i: nat) => LineDiffers(left, right, i), n)
  {
    if n > 0 {
      DiffCountBelowIsCountBelow(left, right, n - 1);
    }
  }

  /**
   * A non-blank left line with no right line at its index is counted: it is
   * compared with "", which it cannot equal.
   */
  lemma MissingRightLineCounted(left: seq<string>, right: seq<string>, i: nat)
    requires |right| <= i < |left| && !IsBlank(left[i])
    ensures LineDiffers(left, right, i)
  {
    assert LineOrEmpty(right, i) == "";
  }

  /** Positions at or past the end of the left lines never count. */
  lemma {:induction false} DiffCountPastLeft(left: seq<string>, right: seq<string>, n: nat)
    requires n >= |left|
    ensures DiffCountBelow(left, right, n) == DiffCountBelow(left, right, |left|)
  {
    if n > |left| {
      DiffCountPastLeft(left, right, n - 1);
    }
  }

  /**
   * The counter's result, as a comprehension: the number of left-line
   * indices whose line is non-blank and differs from the right line there
   * (or from "" where the right text has no such line). Positions that
   * only the right text has contribute nothing.
   */
  lemma DifferentLinesIsCardinality(leftText: string, rightText: string)
    ensures DifferentLines(leftText, rightText)
         == |DifferingIndices(Lines(leftText), Lines(rightText), |Lines(leftText)|)|
  {
    var left, right := Lines(leftText), Lines(rightText);
    DiffCountPastLeft(left, right, Max(|left|, |right|));
    DiffCountBelowIsCardinality(left, right, |left|);
  }

  /** No difference is reported exactly when every left line is blank or equals the right line. */
  lemma DifferentLinesZeroIff(leftText: string, rightText: string)
    ensures DifferentLines(leftText, rightText) == 0 <==>
      forall i :: 0 <= i < |Lines(leftText)| ==> !LineDiffers(Lines(leftText), Lines(rightText), i)
  {
    var left, right := Lines(leftText), Lines(rightText);
    DifferentLinesIsCardinality(leftText, rightText);
    var s := DifferingIndices(left, right, |left|);
    if s != {} {
      var i :| i in s;
    }
    if exists i :: 0 <= i < |left| && LineDiffers(left, right, i) {
      var i :| 0 <= i < |left| && LineDiffers(left, right, i);
      assert i in s;
    }
  }

  lemma {:induction false} DiffCountBelowBound(left: seq<string>, right: seq<string>, n: nat)
    ensures DiffCountBelow(left, right, n) <= NonBlankBelow(left, n) <= n
  {
    if n > 0 {
      DiffCountBelowBound(left, right, n - 1);
    }
  }

  /**
   * Bounds: never more differences than non-blank left lines, hence never
   * more than left lines, hence never more than `max(len(left), len(right))`.
   */
  lemma DifferentLinesBounds(leftText: string, rightText: string)
    ensures DifferentLines(leftText, rightText) <= NonBlankCount(Lines(leftText))
    ensures NonBlankCount(Lines(leftText)) <= |Lines(leftText)|
    ensures DifferentLines(leftText, rightText) <= Max(|Lines(leftText)|, |Lines(rightText)|)
  {
    var left, right := Lines(leftText), Lines(rightText);
    DiffCountPastLeft(left, right, Max(|left|, |right|));
    DiffCountBelowBound(left, right, |left|);
  }

  lemma {:induction false} DiffCountBelowSame(lines: seq<string>, n: nat)
    ensures DiffCountBelow(lines, lines, n) == 0
  {
    if n > 0 {
      DiffCountBelowSame(lines, n - 1);
    }
  }

  /** A text compared with itself has no differing line. */
  lemma DifferentLinesOfSameText(text: string)
    ensures DifferentLines(text, text) == 0
  {
    DiffCountBelowSame(Lines(text), |Lines(text)|);
  }

  /**
   * Blank left lines are never counted, whatever the right text holds at
   * their index: a left text of blank lines only shows no difference.
   */
  lemma BlankLeftShowsNoDifference(leftText: string, rightText: string)
    requires forall i :: 0 <= i < |Lines(leftText)| ==> IsBlank(Lines(leftText)[i])
    ensures DifferentLines(leftText, rightText) == 0
  {
    DifferentLinesZeroIff(leftText, rightText);
  }

  lemma {:induction false} DiffCountBelowAgainstNothing(left: seq<string>, n: nat)
    ensures DiffCountBelow(left, [], n) == NonBlankBelow(left, n)
  {
    if n > 0 {
      DiffCountBelowAgainstNothing(left, n - 1);
      if !IsBlank(LineOrEmpty(left, n - 1)) {
        assert LineOrEmpty(left, n - 1) != "";
      }
    }
  }

  /**
   * A non-blank left line with no right line at its index is counted, as it
   * is compared with "": against an empty right text, every non-blank left
   * line is a difference.
   */
  lemma AgainstEmptyRight(leftText: string)
    ensures DifferentLines(leftText, "") == NonBlankCount(Lines(leftText))
  {
    var left := Lines(leftText);
    assert Lines("") == [];
    assert Max(|left|, 0) == |left|;
    DiffCountBelowAgainstNothing(left, |left|);
  }

  /** Lines that only the right text has add nothing: a right text extending the left one shows no difference. */
  lemma RightExtensionShowsNoDifference(leftText: string, rightText: string)
    requires Lines(leftText) <= Lines(rightText)
    ensures DifferentLines(leftText, rightText) == 0
  {
    var left, right := Lines(leftText), Lines(rightText);
    forall i | 0 <= i < |left| ensures !LineDiffers(left, right, i) {
      assert left[i] == right[i];
    }
    DifferentLinesZeroIff(leftText, rightText);
  }

  /** Worked cases of the counter: empty texts, a blank left text, an empty right text. */
  lemma EmptyTextExamples()
    ensures DifferentLines("", "") == 0
    ensures DifferentLines("", "abc") == 0
    ensures DifferentLines("abc", "") == 1
  {
    LinesOfTerminated(["abc"]);
    assert Terminated(["abc"]) == "abc\n";
    assert Lines("abc") == ["abc"];
    assert !IsBlank("abc") by { assert !IsWhitespace("abc"[0]); }
    AgainstEmptyRight("abc");
    BlankLeftShowsNoDifference("", "abc");
  }

  /** A one-character text other than "\n" is a single line. */
  lemma OneLine(a: char)
    requires a != '\n'
    ensures Lines([a]) == [[a]]
  {
    assert NewlineIndex([a]) == 1;
  }

  /** How `lines` splits a text of two one-character lines. */
  lemma TwoLines(a: char, b: char)
    requires a != '\n' && b != '\n' && a != '\r'
    ensures Lines([a, '\n', b]) == [[a], [b]]
  {
    var s := [a, '\n', b];
    OneLine(b);
    assert NewlineIndex(s) == 1;
    assert s[..1] == [a] && s[2..] == [b];
    assert Lines(s) == [StripCarriageReturn([a])] + Lines([b]);
  }

  /** How `lines` splits a text of three one-character lines. */
  lemma ThreeLines(a: char, b: char, c: char)
    requires a != '\n' && b != '\n' && c != '\n' && a != '\r' && b != '\r'
    ensures Lines([a, '\n', b, '\n', c]) == [[a], [b], [c]]
  {
    var s := [a, '\n', b, '\n', c];
    TwoLines(b, c);
    assert NewlineIndex(s) == 1;
    assert s[..1] == [a] && s[2..] == [b, '\n', c];
    assert Lines(s) == [StripCarriageReturn([a])] + Lines([b, '\n', c]);
  }

  /** Worked case: lines only the right text has are not reported. */
  lemma RightOnlyLineExample()
    ensures DifferentLines("a\nb", "a\nb\nc") == 0
  {
    ThreeLines('a', 'b', 'c');
    assert "a\nb\nc" == ['a', '\n', 'b', '\n', 'c'];
    assert "a\nb" == ['a', '\n', 'b'];
    TwoLines('a', 'b');
    RightExtensionShowsNoDifference("a\nb", "a\nb\nc");
  }

  /** Worked case: only the middle line differs. */
  lemma ChangedLineExample()
    ensures DifferentLines("a\nb\nc", "a\nX\nc") == 1
  {
    ThreeLines('a', 'b', 'c');
    ThreeLines('a', 'X', 'c');
    var left, right := ["a", "b", "c"], ["a", "X", "c"];
    assert "a\nb\nc" == ['a', '\n', 'b', '\n', 'c'];
    assert "a\nX\nc" == ['a', '\n', 'X', '\n', 'c'];
    assert !LineDiffers(left, right, 0);
    assert LineDiffers(left, right, 1) by { assert !IsWhitespace("b"[0]); }
    assert !LineDiffers(left, right, 2);
    assert DiffCountBelow(left, right, 3) == 1;
  }

  // ---------------------------------------------------------------------
  // The application state and its update handler
  // ---------------------------------------------------------------------

  /** An edit to one pane, abstracted to the text that pane holds afterwards. */
  datatype Message =
    | LeftTextChanged(text: string)
    | RightTextChanged(text: string)

  /** The application state: both panes' texts and the current difference count. */
  class TextFusion {
    var leftText: string
    var rightText: string
    var differencesCount: nat

    /** The count always describes the current texts. */
    ghost predicate Valid()
      reads this
    {
      differencesCount == DifferentLines(leftText, rightText)
    }

    /** The default state: two empty panes, no differences. */
    constructor ()
      ensures leftText == "" && rightText == "" && differencesCount == 0
      ensures Valid()
    {
      leftText, rightText, differencesCount := "", "", 0;
      DifferentLinesOfSameText("");
    }

    /** Applies an edit to one pane and recounts the differences over both texts. */
    method Update(message: Message)
      modifies this
      ensures message.LeftTextChanged? ==> leftText == message.text && rightText == old(rightText)
      ensures message.RightTextChanged? ==> rightText == message.text && leftText == old(leftText)
      ensures differencesCount == DifferentLines(leftText, rightText)
      ensures Valid()
    {
      match message
      case LeftTextChanged(text) =>
        leftText := text;
        differencesCount := CountDifferentLines(leftText, rightText);
      case RightTextChanged(text) =>
        rightText := text;
        differencesCount := CountDifferentLines(leftText, rightText);
    }
  }

  // ---------------------------------------------------------------------
  // Decisions the view derives from the state
  // ---------------------------------------------------------------------

  /**
   * Whether the left pane's first line has content: false for a text with
   * no lines, otherwise whether its first line is non-blank. Equivalently,
   * some character before the first '\n' is not whitespace (a '\r' that
   * `lines` strips is whitespace, so stripping it changes nothing).
   */
  function HasFirstLineContent(text: string): (r: bool)
    ensures text == "" ==> !r
    ensures r <==> exists j :: 0 <= j < NewlineIndex(text) && !IsWhitespace(text[j])
  {
    var lines := Lines(text);
    if |lines| > 0 then
      var first := lines[0];
      FirstLineBlankIff(text);
      !IsBlank(first)
    else
      false
  }

  lemma FirstLineBlankIff(text: string)
    requires text != ""
    ensures IsBlank(Lines(text)[0]) <==> forall j :: 0 <= j < NewlineIndex(text) ==> IsWhitespace(text[j])
  {
    var k := NewlineIndex(text);
    var first := Lines(text)[0];
    FirstLine(text);
    if k == |text| {
      assert first == text;
    } else {
      var piece := text[..k];
      assert first == StripCarriageReturn(piece);
      if piece != [] && piece[|piece| - 1] == '\r' {
        assert IsWhitespace(text[k - 1]);
        assert |first| == k - 1 && forall j :: 0 <= j < k - 1 ==> first[j] == text[j];
      } else {
        assert first == piece && forall j :: 0 <= j < k ==> first[j] == text[j];
      }
    }
  }

  /** The left pane's background. */
  datatype Background = DefaultBackground | DifferenceTint | MatchTint

  /**
   * The left pane is tinted only when its first line has content: with the
   * difference tint when some line differs, with the match tint otherwise.
   */
  function BackgroundFor(hasContent: bool, hasDifferences: bool): (b: Background)
    ensures b == DefaultBackground <==> !hasContent
    ensures b == DifferenceTint <==> hasContent && hasDifferences
    ensures b == MatchTint <==> hasContent && !hasDifferences
  {
    if hasContent then
      if hasDifferences then DifferenceTint else MatchTint
    else DefaultBackground
  }

  /** The status line below the panes. */
  datatype Status =
    | TextsMatch              // "Texts match perfectly"
    | LinesDiffer(count: nat) // "<count> line(s) differ"
    | Prompt                  // "Type in both input fields to compare"

  /**
   * The three-way status choice: a match needs content and no difference;
   * any difference reports the count, whether or not the first line has
   * content; everything else prompts for input.
   */
  function StatusFor(differencesCount: nat, hasContent: bool): (s: Status)
    ensures s == TextsMatch <==> differencesCount == 0 && hasContent
    ensures s.LinesDiffer? <==> differencesCount > 0
    ensures s.LinesDiffer? ==> s.count == differencesCount
    ensures s == Prompt <==> differencesCount == 0 && !hasContent
  {
    if differencesCount == 0 && hasContent then TextsMatch
    else if differencesCount > 0 then LinesDiffer(differencesCount)
    else Prompt
  }

  /**
   * The status the view shows for a state holding these texts: it takes
   * `has_content` from the left text's first line and the count of a valid
   * state. Some left line differs exactly when the status reports a count,
   * and that count is bounded by the non-blank left lines; the prompt
   * appears exactly when the first line is blank and nothing differs.
   */
  function StatusOf(leftText: string, rightText: string): (s: Status)
    ensures s.LinesDiffer? <==>
      exists i :: 0 <= i < |Lines(leftText)| && LineDiffers(Lines(leftText), Lines(rightText), i)
    ensures s.LinesDiffer? ==>
      s.count == DifferentLines(leftText, rightText) && s.count <= NonBlankCount(Lines(leftText))
    ensures s == Prompt <==>
      (!HasFirstLineContent(leftText) &&
       forall i :: 0 <= i < |Lines(leftText)| ==> !LineDiffers(Lines(leftText), Lines(rightText), i))
  {
    DifferentLinesZeroIff(leftText, rightText);
    DifferentLinesBounds(leftText, rightText);
    StatusFor(DifferentLines(leftText, rightText), HasFirstLineContent(leftText))
  }

  /**
   * The left pane's background for a state holding these texts, with
   * `has_content` and `has_differences` derived as the view derives them:
   * default exactly when the first left line is blank, the difference tint
   * exactly when it is not and some left line differs.
   */
  function BackgroundOf(leftText: string, rightText: string): (b: Background)
    ensures b == DefaultBackground <==> !HasFirstLineContent(leftText)
    ensures b == DifferenceTint <==>
      (HasFirstLineContent(leftText) &&
       exists i :: 0 <= i < |Lines(leftText)| && LineDiffers(Lines(leftText), Lines(rightText), i))
  {
    DifferentLinesZeroIff(leftText, rightText);
    BackgroundFor(HasFirstLineContent(leftText), DifferentLines(leftText, rightText) > 0)
  }

  /**
   * When the left pane has content, background and status agree: the match
   * tint goes with the match status, the difference tint with a count.
   * Without content the background stays default while the status may still
   * report differences further down.
   */
  lemma BackgroundAgreesWithStatus(leftText: string, rightText: string)
    ensures BackgroundOf(leftText, rightText) == MatchTint <==> StatusOf(leftText, rightText) == TextsMatch
    ensures BackgroundOf(leftText, rightText) == DifferenceTint ==> StatusOf(leftText, rightText).LinesDiffer?
    ensures BackgroundOf(leftText, rightText) == DefaultBackground ==> StatusOf(leftText, rightText) != TextsMatch
  {
  }

  /**
   * "Texts match" is shown exactly when the left first line has content and
   * every left line is blank or equal to the right line at its index.
   */
  lemma MatchStatusIff(leftText: string, rightText: string)
    ensures StatusOf(leftText, rightText) == TextsMatch <==>
      HasFirstLineContent(leftText) &&
      forall i :: 0 <= i < |Lines(leftText)| ==> !LineDiffers(Lines(leftText), Lines(rightText), i)
  {
    DifferentLinesZeroIff(leftText, rightText);
  }

  /** Identical texts whose first line has content show "Texts match". */
  lemma IdenticalTextsMatch(text: string)
    requires HasFirstLineContent(text)
    ensures StatusOf(text, text) == TextsMatch
    ensures BackgroundOf(text, text) == MatchTint
  {
    DifferentLinesOfSameText(text);
  }
}
