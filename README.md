# text-fusion line comparison, modelled in Dafny

text-fusion is a two-pane text comparison tool: the user edits a left and a
right text, the left pane highlights every line that differs from the right
line at the same index, and a status line reports how many lines differ.
Lines are aligned purely by index; a blank left line is never reported, and a
non-blank left line with no right line at its index always is.

This project models the comparison core of the tool:

- `text_lines.dfy` (module `TextLines`): Rust's `str::lines`, `str::trim` with
  `char::is_whitespace` (the Unicode White_Space property, written out as its
  code points), and `str::len` as the UTF-8 length of a string of Unicode
  scalar values. These are library behaviour the core relies on.
- `fusion.dfy` (module `Fusion`, from `src/main.rs`): the difference counter
  `count_different_lines` as a method with a loop, proved against the function
  `DifferentLines`; the lemmas that say what the count means; the application
  state `TextFusion` and its `update` handler, which keeps
  `differencesCount == DifferentLines(leftText, rightText)`;
  `has_first_line_content`; and the background and status decisions of `view`
  as enum-valued functions.
- `highlighter.dfy` (module `Highlighter`, from `src/highlighter.rs`): the
  `LineComparerHighlighter` class with its reference text and line cursor,
  the pure per-line classification `ClassifyLine` that `highlight_line` is
  proved against, and a rendering pass (`HighlightPass`) over many lines.
- `agreement.dfy` (module `Agreement`): the cross-component theorem. A pass of
  the left text's lines from line 0, with the right text as reference,
  highlights exactly the lines the counter counts, line by line and in total.

The highlighter's `update` (src/highlighter.rs:24-26) replaces the reference
text but leaves the cursor where it is; the model follows the code.

## Model

| member | source | states |
|---|---|---|
| `TextLines.Lines` | src/main.rs:49-50 | splitting as `str::lines` does: the empty text has no lines and no line holds a '\n' |
| `TextLines.FinalTerminatorOptional` | src/main.rs:49-50 | a '\n' added to a non-empty text that does not end in '\n' or '\r' leaves its lines unchanged, so a final terminator never starts an extra line |
| `TextLines.FirstLine` | src/main.rs:41 | the first line of a non-empty text is the text before the first '\n', less a '\r' just before that '\n'; the whole text when there is no '\n' |
| `TextLines.LinesOfTerminated` | src/main.rs:49-50 | round trip: splitting lines each followed by '\n' gives the lines back, when no line holds '\n' or ends in '\r' |
| `TextLines.IsWhitespace` | src/main.rs:57 | `char::is_whitespace` as the Unicode White_Space code points; on ASCII exactly the space and '\t' to '\r', and nothing above U+3000 |
| `TextLines.Trim` | src/main.rs:57 | `str::trim`: never longer than its input, empty exactly when every character is whitespace (what `IsBlank` states), and neither end of a non-empty result is whitespace |
| `TextLines.TrimIsInfix` | src/main.rs:57 | what `str::trim` returns: an infix of the input, with only whitespace before it and after it |
| `TextLines.TrimStart` | src/main.rs:57 | the result is a suffix of the input, everything dropped is whitespace, and it does not start with whitespace |
| `TextLines.TrimEnd` | src/main.rs:57 | the result is a prefix of the input, everything dropped is whitespace, and it does not end with whitespace |
| `TextLines.Utf8Length` | src/highlighter.rs:43 | the byte length of a line lies between its character count and four times that, and equals the character count exactly for ASCII text |
| `Fusion.CountDifferentLines` | src/main.rs:48-63 | the loop over all `max(len(left), len(right))` positions returns `DifferentLines` of the two texts |
| `Fusion.DifferentLinesIsCardinality` | src/main.rs:53-62 | the count is the size of the set of left-line indices whose line is non-blank and differs from the right line there ("" where absent) |
| `Fusion.DifferentLinesZeroIff` | src/main.rs:54-62 | the count is 0 exactly when every left line is blank or equal to the right line at its index |
| `Fusion.DifferentLinesBounds` | src/main.rs:53-59 | the count never exceeds the number of non-blank left lines, nor the number of left lines, nor `max(len(left), len(right))` |
| `Fusion.MissingRightLineCounted` | src/main.rs:55-57 | a non-blank left line at an index the right text does not reach is always counted, whatever the right text is |
| `Fusion.DiffCountPastLeft` | src/main.rs:55-57 | positions beyond the left text's lines add nothing to the count |
| `Fusion.DifferentLinesOfSameText` | src/main.rs:54-59 | a text compared with itself has 0 differing lines |
| `Fusion.BlankLeftShowsNoDifference` | src/main.rs:57 | when every left line is blank the count is 0, whatever the right text holds |
| `Fusion.AgainstEmptyRight` | src/main.rs:55-57 | against an empty right text, every non-blank left line is counted (it is compared with "") |
| `Fusion.RightExtensionShowsNoDifference` | src/main.rs:55-57 | when the left lines are a prefix of the right lines, the right-only lines add nothing and the count is 0 |
| `Fusion.EmptyTextExamples` | src/main.rs:48-63 | `("", "")` and `("", "abc")` give 0, `("abc", "")` gives 1 |
| `Fusion.RightOnlyLineExample` | src/main.rs:48-63 | `("a\nb", "a\nb\nc")` gives 0 |
| `Fusion.ChangedLineExample` | src/main.rs:48-63 | `("a\nb\nc", "a\nX\nc")` gives 1 |
| `Fusion.TextFusion.constructor` | src/main.rs:17-22 | the default state has two empty texts and a count of 0, which is the count of those texts |
| `Fusion.TextFusion.Update` | src/main.rs:25-37 | an edit replaces the edited pane's text, leaves the other pane's text alone, and sets the count to `DifferentLines` of the new texts |
| `Fusion.HasFirstLineContent` | src/main.rs:39-46 | false for the empty text; true exactly when some character before the first '\n' is not whitespace |
| `Fusion.FirstLineBlankIff` | src/main.rs:41-42 | the first line is blank exactly when every character before the first '\n' is whitespace (a stripped '\r' is whitespace too) |
| `Fusion.BackgroundFor` | src/main.rs:84-90 | default background exactly without content; the difference tint with content and differences; the match tint with content and none |
| `Fusion.StatusFor` | src/main.rs:119-131 | "match" exactly for count 0 with content; "differ", carrying the count, exactly when the count is positive; "prompt" exactly for count 0 without content |
| `Fusion.StatusOf` | src/main.rs:66-67 | the status from the texts, with `has_content` and the count derived as the view derives them: a count is reported exactly when some left line differs, it is at most the number of non-blank left lines, and the prompt appears exactly when the first line is blank and nothing differs |
| `Fusion.BackgroundOf` | src/main.rs:66-67 | the background from the texts, derived the same way: default exactly when the first left line is blank; the difference tint exactly when it is not and some left line differs |
| `Fusion.BackgroundAgreesWithStatus` | src/main.rs:84-131 | the match tint goes with the match status and only with it; the difference tint goes with a "differ" status |
| `Fusion.MatchStatusIff` | src/main.rs:119-122 | "match" is shown exactly when the first left line has content and every left line is blank or equal to the right line |
| `Fusion.IdenticalTextsMatch` | src/main.rs:119-122 | identical texts with a non-blank first line show "match" and the match tint |
| `Highlighter.ClassifyLine` | src/highlighter.rs:34-44 | at most one highlight, spanning bytes `0..len(line)`; produced exactly when the line is non-blank and the reference has no line at the cursor or a different one |
| `Highlighter.LineComparerHighlighter.constructor` | src/highlighter.rs:17-22 | the reference text is the settings and the cursor is 0 |
| `Highlighter.LineComparerHighlighter.Update` | src/highlighter.rs:24-26 | the reference text is replaced and the cursor is unchanged |
| `Highlighter.LineComparerHighlighter.ChangeLine` | src/highlighter.rs:28-30 | the cursor is set to the given line and the reference text is unchanged |
| `Highlighter.LineComparerHighlighter.HighlightLine` | src/highlighter.rs:32-48 | returns the classification of the line at the old cursor, advances the cursor by exactly one whether or not it highlighted, keeps the reference text |
| `Highlighter.LineComparerHighlighter.CurrentLine` | src/highlighter.rs:50-52 | reports the cursor |
| `Highlighter.HighlightPass` | src/highlighter.rs:32-48 | successive `highlight_line` calls report the classification of line k at cursor start+k and leave the cursor `len(lines)` further on |
| `Highlighter.ResumeAtLine` | src/highlighter.rs:28-30 | resuming at line k reports, for the lines from k on, what a pass from line 0 reports for them |
| `Highlighter.RestartedPass` | src/highlighter.rs:28-48 | a partial pass, `change_line(0)` and a full pass report identical results for the lines both passes cover |
| `Agreement.ClassifyAgreesWithCounter` | src/highlighter.rs:35-42 | for each left line, being highlighted at cursor i is the same as being counted at index i |
| `Agreement.HighlightedCountBelow` | src/highlighter.rs:32-48 | the highlighted lines among the first n of a pass are as many as the counted indices below n |
| `Agreement.PassCountsDifferences` | src/highlighter.rs:32-48 | a pass over the left lines from line 0, reference = right text, highlights exactly `count_different_lines(left, right)` lines |
| `Agreement.PassAgreesLineByLine` | src/highlighter.rs:35-44 | in that pass, line i is highlighted exactly when the counter counts index i |
| `Agreement.RenderLeftPane` | src/main.rs:69-81 | with the cursor reset to line 0 first (an assumption about the rendering surface), rendering the left pane highlights as many lines as the counter reports against the highlighter's reference |
| `Agreement.EditAndRender` | src/main.rs:25-81 | after an edit and a redraw from line 0 with the right text as reference, the number of highlighted lines equals the displayed count |
| `Agreement.ResumedResults` | src/highlighter.rs:28-52 | what a surface that resumes at `current_line` shows: the earlier results for lines below the cursor, and for each line from the cursor on its classification against the reference line at its own index |
| `Agreement.RedrawFromCursor` | src/highlighter.rs:28-52 | reading the cursor with `current_line` and passing the left lines from it on through `highlight_line` gives `ResumedResults` and leaves the cursor at the number of left lines |
| `Agreement.ResumedAgreesFromCursor` | src/highlighter.rs:32-48 | in a resumed redraw, each line from the cursor on is highlighted exactly when the counter counts its index; each line below it keeps its earlier result |
| `Agreement.EditRightAndResume` | src/highlighter.rs:24-48 | after a right-pane edit, `update` keeps the cursor, so a resumed redraw reclassifies only the lines from the cursor on against the new right text, while the count covers every line |
| `Agreement.StaleLinesExample` | src/highlighter.rs:24-46 | left "a" drawn against right "a" shows no highlight; after the right text becomes "b" the count is 1, yet a redraw resumed at cursor 1 highlights nothing |
| `Agreement.SequenceExample` | src/highlighter.rs:32-48 | lines "a", "b", "c" against "a\nX\nc" highlight only the second line, over bytes 0..1 |

## Left out

- The iced window, widget layout, scrolling and the `main` entry point (src/main.rs:65-157 apart from the background and status decisions): user-interface plumbing with no comparison logic.
- `text_editor::Content::perform` and `Content::text`: foreign editing primitives. An edit is modelled by the text the pane holds afterwards (`Message` carries that text), and a pane's content is its text.
- Colours and `Format` styling: the highlight carries the single marker `Different`, and background and status are enums. The status text's wording and number formatting are not modelled beyond the count it carries.
- The `Highlighter` trait's iterator type: a line's highlights are a sequence of (byte range, marker) pairs.
- Highlighter.LineComparerHighlighter.HighlightLine: the cursor is an unbounded `nat`; the `usize` overflow of `current_line += 1` after 2^64 - 1 lines is not modelled. The same holds for `count` in `Fusion.CountDifferentLines`.
- `TextLines.Lines` follows current Rust `str::lines`: a '\r' is dropped only when a '\n' follows it; a lone '\r' at the very end of a text stays in the last line.
- Highlighter.LineComparerHighlighter.CurrentLine: a plain accessor, so its contract only reports the field.
- Agreement.RenderLeftPane: assumes the rendering surface calls `change_line(0)` before each pass; no line of src/main.rs or src/highlighter.rs does so, and `update` keeps the cursor.
- Agreement.EditAndRender: its equality of highlighted lines and displayed count rests on that same assumed reset. A surface that follows the call order without it resumes at `current_line`; `Agreement.EditRightAndResume` and `Agreement.StaleLinesExample` show that the lines below the cursor then keep their earlier highlights after a right-pane edit.
