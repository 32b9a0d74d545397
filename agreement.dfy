/**
 * The two components agree: a rendering pass of the left text's lines
 * through the highlighter, from line 0 with the right text as reference,
 * highlights exactly the lines the difference counter counts.
 */
module Agreement {
  import opened TextLines
  import opened Fusion
  import opened Highlighter

  /** How many of the per-line results hold a highlight. */
  function HighlightedCount(rs: seq<seq<Highlight>>): nat {
    if rs == [] then 0
    else HighlightedCount(rs[..|rs| - 1]) + (if rs[|rs| - 1] != [] then 1 else 0)
  }

  /**
   * One line: the highlighter flags left line `i` at cursor `i` exactly when
   * the counter counts index `i`. Where the right text has no line `i`, the
   * highlighter tests "non-blank" and the counter compares with ""; for a
   * non-blank line the two tests coincide.
   */
  lemma ClassifyAgreesWithCounter(leftText: string, rightText: string, i: nat)
    requires i < |Lines(leftText)|
    ensures ClassifyLine(Lines(leftText)[i], rightText, i) != [] <==>
            LineDiffers(Lines(leftText), Lines(rightText), i)
  {
  }

  lemma {:induction false} HighlightedCountBelow(leftText: string, rightText: string, n: nat)
    requires n <= |Lines(leftText)|
    ensures HighlightedCount(PassResults(Lines(leftText), rightText, 0)[..n])
         == DiffCountBelow(Lines(leftText), Lines(rightText), n)
  {
    if n > 0 {
      var rs := PassResults(Lines(leftText), rightText, 0);
      HighlightedCountBelow(leftText, rightText, n - 1);
      assert rs[..n][..n - 1] == rs[..n - 1];
      ClassifyAgreesWithCounter(leftText, rightText, n - 1);
    }
  }

  /**
   * Cross-component agreement: the number of highlighted lines in a pass of
   * the left text's lines from line 0, reference = right text, is the
   * difference count of the two texts.
   */
  lemma PassCountsDifferences(leftText: string, rightText: string)
    ensures HighlightedCount(PassResults(Lines(leftText), rightText, 0)) == DifferentLines(leftText, rightText)
  {
    var left, right := Lines(leftText), Lines(rightText);
    var rs := PassResults(left, rightText, 0);
    HighlightedCountBelow(leftText, rightText, |left|);
    assert rs[..|left|] == rs;
    DiffCountPastLeft(left, right, Max(|left|, |right|));
  }

  /** The same agreement, line by line. */
  lemma PassAgreesLineByLine(leftText: string, rightText: string)
    ensures forall i :: 0 <= i < |Lines(leftText)| ==>
      (PassResults(Lines(leftText), rightText, 0)[i] != [] <==> LineDiffers(Lines(leftText), Lines(rightText), i))
  {
  }

  /**
   * Rendering the left pane from the top: the cursor is put back to line 0
   * and every line of the left text is passed through the highlighter. It
   * then highlights as many lines as the counter reports for the left text
   * against the highlighter's reference. Neither src/main.rs nor
   * src/highlighter.rs calls `change_line`; the reset is what the rendering
   * surface is assumed to do before a pass.
   */
  method RenderLeftPane(h: LineComparerHighlighter, leftText: string) returns (results: seq<seq<Highlight>>)
    modifies h
    ensures results == PassResults(Lines(leftText), old(h.rightText), 0)
    ensures HighlightedCount(results) == DifferentLines(leftText, old(h.rightText))
    ensures h.rightText == old(h.rightText) && h.currentLine == |Lines(leftText)|
  {
    h.ChangeLine(0);
    results := HighlightPass(h, Lines(leftText));
    PassCountsDifferences(leftText, h.rightText);
  }

  /**
   * One edit followed by a redraw from the top: the state recounts, the
   * highlighter is handed the right pane's current text, and the left pane
   * is rendered by `RenderLeftPane`, with its cursor reset. The number of
   * highlighted lines then equals the count shown in the status.
   */
  method EditAndRender(state: TextFusion, h: LineComparerHighlighter, message: Message)
      returns (results: seq<seq<Highlight>>)
    modifies state, h
    ensures state.Valid()
    ensures h.rightText == state.rightText
    ensures HighlightedCount(results) == state.differencesCount
  {
    state.Update(message);
    h.Update(state.rightText);
    results := RenderLeftPane(h, state.leftText);
  }

  /**
   * What a surface that resumes at the highlighter's cursor shows: it keeps
   * its earlier results for the lines below `cursor` and classifies each
   * line from `cursor` on against the reference line at that line's own
   * index.
   */
  function ResumedResults(lines: seq<string>, reference: string, cursor: nat, previous: seq<seq<Highlight>>)
      : (rs: seq<seq<Highlight>>)
    requires |previous| == |lines| && cursor <= |lines|
    ensures |rs| == |lines|
    ensures rs[..cursor] == previous[..cursor]
    ensures forall i :: cursor <= i < |lines| ==> rs[i] == ClassifyLine(lines[i], reference, i)
  {
    previous[..cursor] + PassResults(lines[cursor..], reference, cursor)
  }

  /**
   * A redraw that resumes where the cursor stands: the lines from the cursor
   * on are passed through the highlighter, the earlier ones keep the results
   * `previous` holds for them.
   */
  method RedrawFromCursor(h: LineComparerHighlighter, leftText: string, previous: seq<seq<Highlight>>)
      returns (results: seq<seq<Highlight>>)
    requires |previous| == |Lines(leftText)| && h.currentLine <= |Lines(leftText)|
    modifies h
    ensures results == ResumedResults(Lines(leftText), old(h.rightText), old(h.currentLine), previous)
    ensures h.rightText == old(h.rightText) && h.currentLine == |Lines(leftText)|
  {
    var lines := Lines(leftText);
    var c := h.CurrentLine();
    var rest := HighlightPass(h, lines[c..]);
    results := previous[..c] + rest;
  }

  /**
   * In a resumed redraw, every line from the cursor on is highlighted exactly
   * when the counter counts its index; the lines below the cursor show what
   * they showed before, whatever the reference now says.
   */
  lemma {:induction false} ResumedAgreesFromCursor(leftText: string, rightText: string, cursor: nat, previous: seq<seq<Highlight>>)
    requires |previous| == |Lines(leftText)| && cursor <= |Lines(leftText)|
    ensures forall i :: cursor <= i < |Lines(leftText)| ==>
      (ResumedResults(Lines(leftText), rightText, cursor, previous)[i] != [] <==>
       LineDiffers(Lines(leftText), Lines(rightText), i))
    ensures forall i :: 0 <= i < cursor ==> ResumedResults(Lines(leftText), rightText, cursor, previous)[i] == previous[i]
  {
    var rs := ResumedResults(Lines(leftText), rightText, cursor, previous);
    forall i | cursor <= i < |Lines(leftText)|
      ensures rs[i] != [] <==> LineDiffers(Lines(leftText), Lines(rightText), i)
    {
      ClassifyAgreesWithCounter(leftText, rightText, i);
    }
    forall i | 0 <= i < cursor
      ensures rs[i] == previous[i]
    {
      assert rs[..cursor][i] == rs[i];
    }
  }

  /**
   * An edit of the right pane followed by a redraw that resumes at the
   * cursor, which is where the highlighter's own calls leave it: the left
   * text is unchanged, the count is recomputed, and only the lines from the
   * cursor on are classified against the new right text.
   */
  method EditRightAndResume(state: TextFusion, h: LineComparerHighlighter, newRight: string,
                            previous: seq<seq<Highlight>>)
      returns (results: seq<seq<Highlight>>)
    requires |previous| == |Lines(state.leftText)| && h.currentLine <= |Lines(state.leftText)|
    modifies state, h
    ensures state.Valid() && state.leftText == old(state.leftText) && state.rightText == newRight
    ensures h.rightText == newRight && h.currentLine == |Lines(state.leftText)|
    ensures results == ResumedResults(Lines(state.leftText), newRight, old(h.currentLine), previous)
  {
    state.Update(RightTextChanged(newRight));
    h.Update(newRight);
    results := RedrawFromCursor(h, state.leftText, previous);
  }

  /**
   * The lines below the cursor go stale: left "a" was drawn against right
   * "a" (no highlight) and the cursor stands at 1 after that pass. The right
   * text becomes "b", and the count is now 1, yet a redraw resumed at the
   * cursor highlights nothing.
   */
  lemma StaleLinesExample()
    ensures PassResults(Lines("a"), "a", 0) == [[]]
    ensures DifferentLines("a", "b") == 1
    ensures HighlightedCount(ResumedResults(Lines("a"), "b", 1, [[]])) == 0
  {
    OneLine('a');
    OneLine('b');
    assert "a" == ['a'] && "b" == ['b'];
    assert !IsBlank("a") by { assert !IsWhitespace("a"[0]); }
    assert "a" != "b";
    var rs := ResumedResults(["a"], "b", 1, [[]]);
    assert rs == rs[..1];
    assert HighlightedCount(rs) == HighlightedCount([[]]);
  }

  /** The reference text of the worked case below has the lines "a", "X", "c". */
  lemma SequenceReferenceLines()
    ensures Lines("a\nX\nc") == ["a", "X", "c"]
  {
    ThreeLines('a', 'X', 'c');
    assert "a\nX\nc" == ['a', '\n', 'X', '\n', 'c'];
  }

  /** Worked case: lines "a", "b", "c" against reference "a\nX\nc"; only the second is highlighted. */
  lemma SequenceExample()
    ensures PassResults(["a", "b", "c"], "a\nX\nc", 0)
         == [[], [Highlight(ByteRange(0, 1), Different)], []]
  {
    var reference := "a\nX\nc";
    SequenceReferenceLines();
    assert ClassifyLine("b", reference, 1) == [Highlight(ByteRange(0, 1), Different)] by {
      assert !IsBlank("b") by { assert !IsWhitespace("b"[0]); }
      assert Utf8Length("b") == 1;
    }
  }
}
