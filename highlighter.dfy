/**
 * The left pane's per-line highlighter. The rendering surface asks it about
 * one line at a time, in line order; it compares that line with the line of
 * the stored reference text (the right pane's text) at its cursor and then
 * moves the cursor to the next line.
 */
module Highlighter {
  import opened TextLines

  /** The one kind of highlight: the line differs. */
  datatype Marker = Different

  /** A half-open range of byte offsets into a line. */
  datatype ByteRange = ByteRange(start: nat, end: nat)

  datatype Highlight = Highlight(range: ByteRange, marker: Marker)

  /**
   * What the highlighter reports for `line` when its cursor is at `cursor`
   * and its reference text is `reference`: one highlight over the whole
   * line (in bytes) when the line is non-blank and either the reference has
   * no line at the cursor or that line differs from `line`; nothing
   * otherwise. A blank line and a line equal to the reference line are
   * never highlighted.
   */
  function ClassifyLine(line: string, reference: string, cursor: nat): (hs: seq<Highlight>)
    ensures |hs| <= 1
    ensures hs != [] ==> hs[0] == Highlight(ByteRange(0, Utf8Length(line)), Different)
    ensures hs != [] <==>
      !IsBlank(line) && (cursor < |Lines(reference)| ==> line != Lines(reference)[cursor])
  {
    var rightLines := Lines(reference);
    var isDifferent := if cursor < |rightLines| then line != rightLines[cursor] else !IsBlank(line);
    if isDifferent && !IsBlank(line) then [Highlight(ByteRange(0, Utf8Length(line)), Different)] else []
  }

  /** Highlighter state: the reference text and the index of the next line to classify. */
  class LineComparerHighlighter {
    var rightText: string
    var currentLine: nat

    /** A highlighter for reference text `settings`, positioned at the first line. */
    constructor (settings: string)
      ensures rightText == settings && currentLine == 0
    {
      rightText := settings;
      currentLine := 0;
    }

    /** Replaces the reference text; the cursor stays where it is. */
    method Update(newSettings: string)
      modifies this
      ensures rightText == newSettings && currentLine == old(currentLine)
    {
      rightText := newSettings;
    }

    /** Moves the cursor to line `line`; the reference text stays as it is. */
    method ChangeLine(line: nat)
      modifies this
      ensures currentLine == line && rightText == old(rightText)
    {
      currentLine := line;
    }

    /**
     * Classifies `line` against the reference line at the cursor and moves
     * the cursor on by one, whether or not the line was highlighted.
     */
    method HighlightLine(line: string) returns (highlights: seq<Highlight>)
      modifies this
      ensures highlights == ClassifyLine(line, old(rightText), old(currentLine))
      ensures currentLine == old(currentLine) + 1 && rightText == old(rightText)
    {
      var rightLines := Lines(rightText);
      var isDifferent := if currentLine < |rightLines| then line != rightLines[currentLine] else !IsBlank(line);
      highlights := [];
      if isDifferent && !IsBlank(line) {
        highlights := highlights + [Highlight(ByteRange(0, Utf8Length(line)), Different)];
      }
      currentLine := currentLine + 1;
    }

    /** The index of the next line to classify. */
    function CurrentLine(): (n: nat)
      reads this
      ensures n == currentLine
    {
      currentLine
    }
  }

  /**
   * What a pass over `lines` reports, line by line, when it starts with the
   * cursor at `start` and reference text `reference`.
   */
  function PassResults(lines: seq<string>, reference: string, start: nat): (rs: seq<seq<Highlight>>)
    ensures |rs| == |lines|
  {
    seq(|lines|, k requires 0 <= k < |lines| => ClassifyLine(lines[k], reference, start + k))
  }

  /**
   * One rendering pass: `HighlightLine` on each of `lines` in order. The
   * results are those of `PassResults` from the cursor the pass starts at,
   * and the cursor ends `|lines|` further on.
   */
  method HighlightPass(h: LineComparerHighlighter, lines: seq<string>) returns (results: seq<seq<Highlight>>)
    modifies h
    ensures results == PassResults(lines, old(h.rightText), old(h.currentLine))
    ensures h.currentLine == old(h.currentLine) + |lines| && h.rightText == old(h.rightText)
  {
    results := [];
    var k := 0;
    while k < |lines|
      invariant 0 <= k <= |lines|
      invariant h.rightText == old(h.rightText) && h.currentLine == old(h.currentLine) + k
      invariant results == PassResults(lines[..k], old(h.rightText), old(h.currentLine))
    {
      var hs := h.HighlightLine(lines[k]);
      results := results + [hs];
      k := k + 1;
    }
    assert lines[..k] == lines;
  }

  /**
   * Resuming a pass at line `k` (after `ChangeLine(k)`) reports for the
   * remaining lines exactly what a full pass from line 0 reports for them.
   */
  lemma ResumeAtLine(lines: seq<string>, reference: string, k: nat)
    requires k <= |lines|
    ensures PassResults(lines[k..], reference, k) == PassResults(lines, reference, 0)[k..]
  {
  }

  /**
   * Restarting: a partial pass over the first `k` lines, `ChangeLine(0)`, and
   * a full pass report the same for those `k` lines; the full pass is the
   * one from line 0.
   */
  method RestartedPass(h: LineComparerHighlighter, lines: seq<string>, k: nat)
      returns (partial: seq<seq<Highlight>>, full: seq<seq<Highlight>>)
    requires k <= |lines|
    modifies h
    ensures full == PassResults(lines, old(h.rightText), 0)
    ensures partial == full[..k]
    ensures h.rightText == old(h.rightText) && h.currentLine == |lines|
  {
    h.ChangeLine(0);
    partial := HighlightPass(h, lines[..k]);
    h.ChangeLine(0);
    full := HighlightPass(h, lines);
  }
}
