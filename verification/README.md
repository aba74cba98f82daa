# Editing and caret actions of ICSharpCode.TextEditor, in Dafny

This project models the keystroke-level edit actions of the text editor control. These are the classes in `Actions/MiscActions.cs` and `Actions/CaretActions.cs` that run when a key is bound to Tab, Shift+Tab, Backspace, Delete, Ctrl+Backspace, Ctrl+Delete, "delete line", "delete to line end", "move line up/down", "toggle comment", or a horizontal caret move. Each action is a pure function from the document, the caret, the selections, the foldings and the read-only policy to a new document and caret.

The document is a non-empty sequence of lines. Each line is a content string plus a terminator ("\n", "\r\n" or "\r"), and only the last line has an empty terminator. Offsets are derived from the lines, so the line segments tile the text by construction (`Document`). A position is a logical (column, line) pair. The read-only policy is a flag for the whole document plus a predicate that says which offsets lie in read-only segments (`EditorState.Guard`).

Modules:

- `Document`: lines, text, offsets, the offset/position conversions, and the one line-level removal that every deletion uses (`RemoveRange`).
- `Strings`: the ordinal `IndexOf`/`LastIndexOf` searches, `Trim` and `StartsWith`.
- `EditorState`: selections, fold markers, the read-only guard, and the edit result `LineEdit` (document plus caret).
- `CaretActions`: `CaretLeft`, `CaretRight`, `WordLeft`, `WordRight`, and collapse to edge.
- `Indentation`: `Tab` and `ShiftTab`.
- `LineComment`, `BlockComment`, `ToggleComment`: the three comment commands.
- `Deletion`: `Backspace`, `Delete` with `DeleteSelection`, `WordBackspace`, `DeleteWord`, `DeleteLine`, `DeleteToLineEnd`.
- `MoveLine`: `MoveLine.TrySwitchLines`, `MoveLineUp`, `MoveLineDown`.

Behaviour worth knowing, stated as the code has it:

- `ToggleLineComment` decides once for all selections. It uncomments as soon as ONE selection has every included line commented, because the decision loop stops at the first selection that needs no comment. It does not wait for all selections to agree.
- The last line of a selection is left out of Tab, ShiftTab and line commenting when the selection ends at column 0 of that line.
- `DeleteLine` on the last line removes only its content. The terminator of the line above remains, so an empty last line is left behind.
- `WordRight` at the end of the last line targets the start of a line that does not exist (`CaretActions.WordRightPastLastLine`).
- `ShiftTab` has no read-only check. `BlockCommentRegion` equality is the datatype's structural equality.

## Model

| member | source | states |
|---|---|---|
| Document.OffsetToPos | Project/Src/Actions/MiscActions.cs:550 | `OffsetToPosition` gives a line holding the offset and the column that measures the distance from that line's start |
| Document.LineOf | Project/Src/Actions/MiscActions.cs:534 | `GetLineNumberForOffset`: the line found starts at or before the offset, and the next line starts after it |
| Document.LineOfUnique | Project/Src/Actions/MiscActions.cs:534 | any line whose segment holds the offset is the line `GetLineNumberForOffset` answers |
| Document.PosRoundTrip | Project/Src/Actions/MiscActions.cs:550 | converting a position inside a line's content to an offset and back gives the same position |
| Document.OffsetOrderIsPosOrder | Project/Src/Actions/MiscActions.cs:564-574 | positions compare in document order exactly when their offsets compare the same way (both directions) |
| Document.RemoveRangeText | Project/Src/Actions/MiscActions.cs:543 | the line-level removal from p to q removes exactly the characters between their offsets from the text, and p keeps its offset |
| Document.RemoveRangeValid | Project/Src/Actions/MiscActions.cs:543 | the removal leaves a well-formed document with the lines strictly between p and q gone |
| Strings.IndexOfIn | Project/Src/Actions/MiscActions.cs:408 | `IndexOf(pat, from, count)` answers the first occurrence inside the window, or -1 exactly when there is none |
| Strings.LastIndexOf | Project/Src/Actions/MiscActions.cs:431 | `LastIndexOf` answers the last occurrence, or -1 exactly when there is none |
| Strings.TrimStartsWithIsTrim | Project/Src/Actions/MiscActions.cs:247 | the step-by-step test agrees with `Trim()` followed by `StartsWith`, in both directions |
| Strings.TrimStartsWithOccurs | Project/Src/Actions/MiscActions.cs:247-248 | a string that passes the trimmed test holds the token at some position |
| Strings.LeadingSpaces | Project/Src/Actions/MiscActions.cs:146-151 | the count of leading spaces: all characters before it are spaces, and the one at it is not |
| Indentation.IndentUnit | Project/Src/Actions/MiscActions.cs:17-45 | the block unit is a tab, or exactly `IndentationSize` spaces when tabs are converted |
| Indentation.IndentUnitAt | Project/Src/Actions/MiscActions.cs:26-33 | at the caret, between 1 and `IndentationSize` spaces that bring the visual column to the next multiple of the size |
| Indentation.InsertTabs | Project/Src/Actions/MiscActions.cs:47-63 | every line of the block gains the unit in front, the end line is skipped when the selection ends at its column 0, and no other line changes |
| Indentation.InsertTabAtCaret | Project/Src/Actions/MiscActions.cs:65-81 | the unit goes in at the caret (in overwrite mode replacing the character under it), the caret moves past it, and other lines are untouched |
| Indentation.Tab | Project/Src/Actions/MiscActions.cs:87-121 | no change over a read-only selection; with no selection the unit goes in at the caret; with selections, each multi-line one in turn gives its lines the block unit, and the first single-line one ends the loop with an insertion at the caret; one multi-line selection is exactly `InsertTabs`; the caret and a positive size are demanded only when the insertion at the caret runs |
| Indentation.TabOverSelections | Project/Src/Actions/MiscActions.cs:94-110 | the selection loop as a whole: with only multi-line selections every line gains the block unit once per selection that covers it; when the first single-line selection is at `m`, the lines gain the units of the selections before `m` and then the insertion at the caret runs; one multi-line selection is exactly `InsertTabs` |
| Indentation.FirstSingleLine | Project/Src/Actions/MiscActions.cs:98-108 | the loop's stopping point: every selection before it is multi-line, and it is either the end of the sequence or a single-line selection |
| Indentation.FirstSingleLineAt | Project/Src/Actions/MiscActions.cs:98-108 | the `break` is taken at the first single-line selection and nowhere else: any `m` with only multi-line selections before it and a single-line one (or the end) at it is the stopping point |
| Indentation.IndentBlocksIndents | Project/Src/Actions/MiscActions.cs:94-104 | indenting the multi-line selections one after the other, each on the document the previous one left, gives every line the block unit once per selection that covers it |
| Indentation.IndentBlocksKeepPos | Project/Src/Actions/MiscActions.cs:47-63 | indenting blocks never removes a line or shortens one, so a caret position valid before stays valid for the insertion after the loop |
| Indentation.RemovalCount | Project/Src/Actions/MiscActions.cs:134-159 | one leading tab, or `IndentationSize` spaces, or fewer spaces plus the tab after them, or the leading spaces; only blanks; nothing for a line that is empty or starts with another character |
| Indentation.RemoveTabs | Project/Src/Actions/MiscActions.cs:126-167 | each line of the block loses exactly its removal count from the front, the end line is skipped when the selection ends at its start, and no other line changes |
| Indentation.ShiftTabColumn | Project/Src/Actions/MiscActions.cs:197-203 | the desired column is a multiple of the indentation size, not after the caret column, strictly before it when that is positive, and at most one size back |
| Indentation.ShiftTab | Project/Src/Actions/MiscActions.cs:173-206 | with no selection the text is unchanged and only the desired column moves; with selections every line is stripped once per selection that covers it, and one selection is exactly `RemoveTabs` |
| Indentation.ShiftTabSelections | Project/Src/Actions/MiscActions.cs:177-186 | the loop over the selections strips each line once per block that covers it, keeping the document well formed |
| Indentation.ShiftTabUndoesTab | Project/Src/Actions/MiscActions.cs:87-206 | `ShiftTab` over the same multi-line selection after `Tab` gives the original document back |
| Indentation.UnindentUndoesIndent | Project/Src/Actions/MiscActions.cs:47-167 | `RemoveTabs` on a block right after `InsertTabs` with the block unit on the same block restores every line |
| Indentation.UnitRemovalCount | Project/Src/Actions/MiscActions.cs:134-159 | a line that starts with the block unit has a removal count equal to the unit's length |
| Indentation.IndentPreservesValid | Project/Src/Actions/MiscActions.cs:61 | inserting the unit keeps every line free of line breaks |
| Indentation.InsertAtCaretPreservesValid | Project/Src/Actions/MiscActions.cs:65-78 | inserting at the caret keeps the document well formed |
| LineComment.ShouldComment | Project/Src/Actions/MiscActions.cs:271-288 | "comment" exactly when some included line's trimmed text does not start with the token |
| LineComment.SetCommentAt | Project/Src/Actions/MiscActions.cs:252-269 | the token goes in front of every included line, whatever it holds, and no other line changes |
| LineComment.Uncomment | Project/Src/Actions/MiscActions.cs:247-248 | the first occurrence of the token is taken out of the line, and the terminator is kept |
| LineComment.RemoveCommentAt | Project/Src/Actions/MiscActions.cs:232-250 | only included lines whose trimmed text starts with the token change, each by losing its first token |
| LineComment.CommentedHasToken | Project/Src/Actions/MiscActions.cs:247-248 | a line that passes the trimmed test holds the token, so the `IndexOf` in the removal finds it |
| LineComment.UncommentNoLineBreak | Project/Src/Actions/MiscActions.cs:247-248 | taking the token out of a line without line breaks leaves a line without line breaks |
| LineComment.DecideComment | Project/Src/Actions/MiscActions.cs:309-315 | the shared decision is "comment" exactly when every selection has some line that needs a comment |
| LineComment.ApplyToSelections | Project/Src/Actions/MiscActions.cs:317-327 | applying the decision selection by selection keeps the document well formed and leaves lines outside every selection unchanged |
| LineComment.ApplyToSelectionsLines | Project/Src/Actions/MiscActions.cs:317-327 | with any number of selections, every line is toggled once per selection that includes it (a comment added each time, or one taken out while the line still passes the test), and lines no selection includes stay the same |
| LineComment.EditRange | Project/Src/Actions/MiscActions.cs:232-269 | one selection's edit: every included line is commented, or uncommented when it passes the test, and no other line changes |
| LineComment.ToggleLineComment | Project/Src/Actions/MiscActions.cs:294-346 | no-op on a read-only document or a missing or empty token; lines outside the selections are unchanged; with selections every line is toggled once per selection that includes it, by the shared decision; with no selection the caret's line is commented or uncommented by the shared test |
| LineComment.UncommentCommented | Project/Src/Actions/MiscActions.cs:247-267 | for a token with no white space at its ends, a commented line passes the test and uncommenting it gives the line back |
| LineComment.CommentedRangeNeedsNoComment | Project/Src/Actions/MiscActions.cs:271-288 | after commenting a range, the shared test says "uncomment" |
| LineComment.UncommentUndoesComment | Project/Src/Actions/MiscActions.cs:232-269 | commenting a range and then uncommenting it restores every line exactly |
| LineComment.ToggleTwiceRestoresCaretLine | Project/Src/Actions/MiscActions.cs:332-343 | with no selection, two toggles of an uncommented caret line give the document back |
| LineComment.ToggleTwiceRestoresSelection | Project/Src/Actions/MiscActions.cs:307-331 | with one selection that has an uncommented line, two toggles give the document back |
| LineComment.OneSelection | Project/Src/Actions/MiscActions.cs:307-331 | with one selection, the toggle is that selection's comment or uncomment, as the shared test decides |
| LineComment.ApplyOne | Project/Src/Actions/MiscActions.cs:317-327 | the edit loop over a single selection is that selection's edit alone |
| BlockComment.SearchSlice | Project/Src/Actions/MiscActions.cs:406-420 | a search inside the selected text answers the first occurrence as an offset of the whole text, or -1 when there is none |
| BlockComment.StartSearchEnd | Project/Src/Actions/MiscActions.cs:427-429 | the backward search reaches up to `selectionEnd + |commentStart| - 1`, capped by the text length |
| BlockComment.StartBefore | Project/Src/Actions/MiscActions.cs:425-438 | a start token found before or partly inside the selection really occurs there and lies inside the searched prefix, and no end token closes it before the selection |
| BlockComment.StartBeforeIsLastOpen | Project/Src/Actions/MiscActions.cs:425-438 | a start token found is the last one in the searched prefix; -1 exactly when there is none, or the last one begins before the selection and an end token closes it before the selection start |
| BlockComment.EndSearchStart | Project/Src/Actions/MiscActions.cs:446-448 | the forward search starts `|commentEnd| - 1` characters before the selection start, or at the selection start when that would be negative |
| BlockComment.EndAfter | Project/Src/Actions/MiscActions.cs:443-452 | the first end token from that start to the end of the text, or -1 exactly when there is none |
| BlockComment.FindSelectedCommentRegion | Project/Src/Actions/MiscActions.cs:398-459 | corrected search: none on an empty text; tokens occur at the region's offsets, the end follows the start token, the start is the first start token inside the selection, and the region is not closed before the selection |
| BlockComment.FindsPairInSelection | Project/Src/Actions/MiscActions.cs:398-422 | a start token followed by an end token, both inside the selection, is always found: the region starts no later than that start token and ends no later than that end token |
| BlockComment.StartBeforeAsWritten | Project/Src/Actions/MiscActions.cs:425-438 | as written, the backward search fails with a negative count exactly when the start token found lies after the selection start; otherwise it agrees with the corrected search |
| BlockComment.AsWrittenAgrees | Project/Src/Actions/MiscActions.cs:398-459 | where the code as written completes, it agrees with the corrected search, except that it also reports regions whose end comes before the start token's end |
| BlockComment.SetCommentAt | Project/Src/Actions/MiscActions.cs:461-465 | the end token goes in after the selection and the start token before it, the text between them unchanged |
| BlockComment.RemoveComment | Project/Src/Actions/MiscActions.cs:467-471 | for a well-ordered region inside the text, both tokens are taken out and the text around them is kept |
| BlockComment.RemoveBoth | Project/Src/Actions/MiscActions.cs:469-470 | removing the later piece first and then the earlier one leaves the three surrounding pieces |
| BlockComment.ToggleBlockComment | Project/Src/Actions/MiscActions.cs:355-396 | no-op on a read-only document or a missing or empty token; a region found loses its two tokens; otherwise a selection is wrapped, and the caret alone changes nothing |
| BlockComment.ApplyToggle | Project/Src/Actions/MiscActions.cs:387-391 | a region found loses exactly its two tokens; otherwise a selection is wrapped in them; otherwise the text is kept |
| BlockComment.RemoveUndoesSet | Project/Src/Actions/MiscActions.cs:461-471 | removing the region `(s, e + |commentStart|)` right after wrapping `[s, e)` restores the text |
| BlockComment.FindAfterSet | Project/Src/Actions/MiscActions.cs:398-459 | with the wrapped span selected, the search finds exactly the region just created, provided the wrapped text held no end token |
| BlockComment.ToggleTwiceRestores | Project/Src/Actions/MiscActions.cs:385-391 | wrapping a selection that lies in no comment and toggling the wrapped span again gives the text back |
| BlockComment.ToggleWraps | Project/Src/Actions/MiscActions.cs:385-391 | a selection the search finds in no comment is wrapped by the toggle |
| BlockComment.ToggleUnwraps | Project/Src/Actions/MiscActions.cs:385-391 | toggling a span that was just wrapped, with the whole span selected, gives the text back |
| BlockComment.NegativeCountCounterexample | Project/Src/Actions/MiscActions.cs:435 | in "a/*b*/" with [0, 2) selected, the search as written fails, while the corrected one finds the comment at (1, 4) |
| BlockComment.EndBeforeStartCounterexample | Project/Src/Actions/MiscActions.cs:443-452 | in "*/*" with [1, 3) selected, the search as written reports the region (1, 0), whose removal runs past the end of the text; the corrected search reports none |
| BlockComment.SilentRemovalCounterexample | Project/Src/Actions/MiscActions.cs:443-470 | in "*/*xyz" with [1, 3) selected, the search as written reports the region (1, 0), and its removal succeeds but leaves "*z", taking the wrong characters; the corrected toggle wraps the selection instead, giving "*/*/**/xyz" |
| ToggleComment.SelectionSpan | Project/Src/Actions/MiscActions.cs:374-383 | from the first selection's offset to the last one's end, covering every selection, or none when nothing is selected |
| ToggleComment.SpanCovers | Project/Src/Actions/MiscActions.cs:376-377 | selections in document order lie between the first one's start and the last one's end |
| ToggleComment.ToggleComment | Project/Src/Actions/MiscActions.cs:215-224 | no change on a read-only document or with no comment syntax; a declared line comment wins, and the result is exactly `ToggleLineComment`; otherwise exactly `ToggleBlockComment` at the caret offset over the span of the selections |
| ToggleComment.ToggleCommentTwice | Project/Src/Actions/MiscActions.cs:215-224 | with a line comment declared, two toggles of an uncommented caret line give the document back, whatever block comment is declared |
| Deletion.Cut | Project/Src/Actions/MiscActions.cs:543-551 | removing from p to q deletes exactly the text between their offsets, puts the caret at p, and keeps the document well formed |
| Deletion.DeleteSelection | Project/Src/Actions/MiscActions.cs:564-574 | no change over a read-only selection; otherwise exactly the selected text goes and the caret lands at the selection start; the caret is never read, so it may lie beyond its line's end |
| Deletion.BackspaceAtCaret | Project/Src/Actions/MiscActions.cs:531-557 | no-op at offset 0 or when the offset before the caret is read-only; otherwise one character, or the previous line's whole terminator, goes, and the caret takes one step left |
| Deletion.CutLineBreakAbove | Project/Src/Actions/MiscActions.cs:537-545 | at a line start, the terminator of the line above goes in full and the caret lands at the end of that line's content |
| Deletion.CutCharBefore | Project/Src/Actions/MiscActions.cs:547-551 | inside a line, the one character before the caret goes and the caret moves back one column |
| Deletion.DeleteAtCaret | Project/Src/Actions/MiscActions.cs:588-614 | no-op at the text end or on a read-only offset; otherwise one character, or the line's whole terminator, goes, and the caret stays |
| Deletion.WordBackspaceInLine | Project/Src/Actions/MiscActions.cs:764-777 | the text from the previous word start to the caret goes when it is non-empty and not read-only, otherwise nothing changes |
| Deletion.JoinWithLineAbove | Project/Src/Actions/MiscActions.cs:780-796 | at the start of a line with one above, the whole line break above goes exactly when it is not read-only, as `CutLineBreakAbove` does it; anywhere else nothing changes |
| Deletion.JoinWithLineAboveStops | Project/Src/Actions/MiscActions.cs:780-796 | after the join the caret stands at the end of the content of the line above, at the offset where that content ended |
| Deletion.WordBackspaceAtCaret | Project/Src/Actions/MiscActions.cs:759-796 | one contiguous range ending at the caret goes, reaching back at least to the previous word start when that part was allowed, and the caret stays on its line or ends the line above |
| Deletion.WordBackspaceAtCaretStops | Project/Src/Actions/MiscActions.cs:759-796 | the caret ends at the cut point on its own line; when the cut reached the line start and the line break above is writable, the two lines merge and the caret ends at the end of the line above |
| Deletion.DeletesInSequence | Project/Src/Actions/MiscActions.cs:772-792 | the two removals of `WordBackspace` together remove one contiguous range |
| Deletion.DeleteWordAtCaret | Project/Src/Actions/MiscActions.cs:828-843 | at a line's content end it is `Delete`; otherwise exactly the text up to the next word start goes when non-empty and not read-only; the caret stays |
| Deletion.DeleteLine | Project/Src/Actions/MiscActions.cs:855-867 | unless the content is read-only, the line's whole segment goes (the terminator's read-only state is not checked), the caret lands at its old offset, and the last line leaves an empty line behind |
| Deletion.CutInnerLine | Project/Src/Actions/MiscActions.cs:861-862 | a line with a successor goes with its terminator, the other lines are kept in order, and the caret lands at the line's old offset |
| Deletion.ClearLastLine | Project/Src/Actions/MiscActions.cs:861-862 | the last line loses its content and an empty line stays in its place |
| Deletion.DeleteToLineEnd | Project/Src/Actions/MiscActions.cs:938-950 | caret to content end goes unless that range is empty or read-only; the line keeps its head and terminator |
| Deletion.Backspace | Project/Src/Actions/MiscActions.cs:523-559 | a selection is deleted with `DeleteSelection`; otherwise the caret rule applies; the caret must lie inside its line only when nothing is selected |
| Deletion.Delete | Project/Src/Actions/MiscActions.cs:580-617 | a selection is deleted with `DeleteSelection`; otherwise the caret rule applies; the caret must lie inside its line only when nothing is selected |
| Deletion.WordBackspace | Project/Src/Actions/MiscActions.cs:750-803 | a selection is deleted with `DeleteSelection`; otherwise the word rule applies; the caret (and the word boundary) must lie inside its line only when nothing is selected |
| Deletion.DeleteWord | Project/Src/Actions/MiscActions.cs:818-850 | a selection is deleted with `DeleteSelection`; otherwise the word rule applies; the caret (and the word boundary) must lie inside its line only when nothing is selected |
| Deletion.ReinsertUndoesDeletion | Project/Src/Actions/MiscActions.cs:543-551 | putting the removed text back where it was restores the text, so every deletion can be undone |
| Deletion.DeleteIsBackspaceFromTheRight | Project/Src/Actions/MiscActions.cs:531-612 | `Delete` at a caret and `Backspace` one step to its right produce the same document |
| Deletion.DeleteCuts | Project/Src/Actions/MiscActions.cs:588-612 | `Delete` removes the range from the caret to one step right |
| Deletion.BackspaceCuts | Project/Src/Actions/MiscActions.cs:531-554 | `Backspace` removes the range from one step left to the caret |
| Deletion.DeleteToLineEndIdempotent | Project/Src/Actions/MiscActions.cs:938-950 | a second `DeleteToLineEnd` changes nothing |
| Deletion.RemoveAdjacent | Project/Src/Actions/MiscActions.cs:772-792 | removing `[b, c)` and then `[a, b)` is removing `[a, c)` |
| MoveLine.Switched | Project/Src/Actions/MiscActions.cs:915-920 | the lines trade places; when the second is the last line, the first line's terminator stays in front and the document still ends without one |
| MoveLine.TrySwitchLines | Project/Src/Actions/MiscActions.cs:898-934 | false and no change on a read-only document or an index outside `[0, lines - 2]`; otherwise the two contents trade places, the rest is unchanged, and the text is the old one with the two lines' span replaced by the new content |
| MoveLine.SwitchedText | Project/Src/Actions/MiscActions.cs:909-921 | the text after the swap is the old text with exactly the two lines' span replaced |
| MoveLine.SwitchedValid | Project/Src/Actions/MiscActions.cs:915-920 | the swap keeps the document well formed |
| MoveLine.SwitchTwice | Project/Src/Actions/MiscActions.cs:898-926 | swapping the same pair twice gives the document back, the last line without a terminator included |
| MoveLine.SwitchAtTwice | Project/Src/Actions/MiscActions.cs:909-921 | the pair swap applied twice to the same index is the identity, with the length kept |
| MoveLine.MoveLineUp | Project/Src/Actions/MiscActions.cs:870-881 | the document is the pair swap of the caret's line with the one above, unchanged when that swap is refused; the caret's line goes one up with the caret, in the same column, exactly when the document is writable and the line is not the first |
| MoveLine.MoveLineDown | Project/Src/Actions/MiscActions.cs:883-894 | the document is the pair swap of the caret's line with the one below, unchanged when that swap is refused; the caret's line goes one down with the caret, in the same column, exactly when the document is writable and the line is not the last |
| MoveLine.DownThenUpRestores | Project/Src/Actions/MiscActions.cs:870-894 | moving a line down and then up restores the document and the caret |
| MoveLine.UpThenDownRestores | Project/Src/Actions/MiscActions.cs:870-894 | moving a line up and then down restores the document and the caret |
| CaretActions.CollapseToEdge | Project/Src/Actions/CaretActions.cs:23-32 | the move is consumed exactly when collapse to edge is on and something is selected, and the target is the first selection's start (left) or end (right) |
| CaretActions.FindFirst | Project/Src/Actions/CaretActions.cs:58-63 | the first folding in iteration order that matches, or none when no folding matches |
| CaretActions.StepLeft | Project/Src/Actions/CaretActions.cs:72-80 | back one column when the column is positive; at column 0 below the first line, the end of the line above; unchanged exactly at (0, 0), and strictly earlier otherwise |
| CaretActions.StepRight | Project/Src/Actions/CaretActions.cs:125-133 | forward one column inside the line, or anywhere when the caret may pass the line end; otherwise the start of the next line; unchanged exactly at the end of the last line when the caret may not pass the line end |
| CaretActions.CaretLeft | Project/Src/Actions/CaretActions.cs:48-84 | collapse to the selection's start when that applies; otherwise the start of the first folded folding, in iteration order, that ends at the caret; with no such folding the plain step left; never a move right |
| CaretActions.CaretRight | Project/Src/Actions/CaretActions.cs:99-137 | collapse to the selection's end when that applies; otherwise the end of the first folded folding, in iteration order, that starts at the caret; with no such folding the plain step right; never a move left |
| CaretActions.FoldAround | Project/Src/Actions/CaretActions.cs:206-214 | the first folded marker around the position, or none |
| CaretActions.WordRightTarget | Project/Src/Actions/CaretActions.cs:194-202 | at or past the line end, the start of the next line; otherwise the position of the scanner's word end, never before the caret |
| CaretActions.WordRight | Project/Src/Actions/CaretActions.cs:189-218 | outside a collapsed folding the target is kept; inside the first one it snaps to the folding's end exactly when the caret stood on its start, and to its start otherwise |
| CaretActions.WordLeft | Project/Src/Actions/CaretActions.cs:223-253 | at column 0 it is a non-collapsing `CaretLeft`; otherwise it goes to the previous word start, not after the caret, snapping out of the first collapsed folding around it |
| CaretActions.WordRightForward | Project/Src/Actions/CaretActions.cs:189-218 | with the caret inside no collapsed folding, `WordRight` never moves left, and a target that snaps out of a folding does not end strictly inside it |
| CaretActions.WordLeftBackward | Project/Src/Actions/CaretActions.cs:223-253 | with well-nested foldings and the caret inside no collapsed one, `WordLeft` never moves right, and a target that snaps out of a folding does not end strictly inside it |
| CaretActions.OffsetToPosNotBefore | Project/Src/Actions/CaretActions.cs:200-201 | the position of an offset at or after the caret is not before the caret |
| CaretActions.OffsetToPosNotAfter | Project/Src/Actions/CaretActions.cs:234-236 | the position of an offset at or before the caret is not after the caret |
| CaretActions.CaretRightThenLeft | Project/Src/Actions/CaretActions.cs:72-133 | with no collapsed folding, right then left returns to the start, except at the end of the text |
| CaretActions.CaretLeftThenRight | Project/Src/Actions/CaretActions.cs:72-133 | with no collapsed folding, left then right returns to the start, except at (0, 0) |
| CaretActions.CaretRightOffset | Project/Src/Actions/CaretActions.cs:125-133 | a plain step right advances the offset by one character, or by the whole terminator at a line end |
| CaretActions.CaretLeftOffset | Project/Src/Actions/CaretActions.cs:72-80 | a plain step left moves the offset back by one character, or by the previous line's whole terminator |
| CaretActions.FoldJumpRoundTrip | Project/Src/Actions/CaretActions.cs:56-121 | jumping left over a collapsed folding and then right again returns to the caret |
| CaretActions.WordRightPastLastLine | Project/Src/Actions/CaretActions.cs:194-197 | at the end of the last line, `WordRight` targets line `lines`, which is not a valid position |

## Left out

- `CaretUp`, `CaretDown`, `MovePageUp`, `MovePageDown`, `ScrollLineUp`, `ScrollLineDown`: these are view geometry and scrollbar state, not text logic.
- `Return`, `ToggleEditMode`, `Undo`, `Redo`, `GotoMatchingBrace`: they forward to the formatting strategy, the undo stack or a bracket search, none of which is part of this model.
- Repaint and undo plumbing (`BeginUpdate`, `EndUpdate`, `RequestUpdate`, `CommitUpdate`, `UpdateQueue`, `ScrollToCaret`, `UpdateMatchingBracket`, `AutoClearSelection`, `StartUndoGroup`/`EndUndoGroup`, `SetDesiredColumn`, `SetCaretToDesiredColumn`): none of it changes text or the logical caret.
- `BlockCommentRegion.GetHashCode`: overflowing hash arithmetic with no effect on behaviour.
- The word scanners `FindPrevWordStart`, `FindNextWordStart` and `FindScintillaWordEnd` are not part of this model. Their answers are parameters bounded by the caret's line and offset.
- The folding manager's queries are not part of this model. `GetFoldingsFromPosition` is taken to report the foldings that strictly enclose the position, in sequence order.
- The caret's visual column depends on tab expansion in the view. It is a parameter of `Indentation.Tab`.
- String comparison is ordinal. The culture-sensitive `StartsWith` and `IndexOf` of the platform are not modelled.
- Read-only segments are modelled as a fixed set of offsets. They are not moved by the edits.
- Document-level re-splitting of lines is not modelled. When an edit joins a lone "\r" to a following "\n", the real line tracker would make one "\r\n" terminator, but the model keeps the line structure the edit produced.
- Selection ends lie inside their lines' content in this model (`ValidSelection` in editor_state.dfy). A selection end in the virtual space beyond a line's end has no document offset here.
- `Deletion.Backspace`, `Deletion.Delete`, `Deletion.WordBackspace`, `Deletion.DeleteWord`: these require at most one selection, because `SelectionManager.RemoveSelectedText` over several selections is not part of this model.
- `Deletion.BackspaceAtCaret`, `Deletion.DeleteAtCaret`, `Deletion.WordBackspaceAtCaret`, `Deletion.DeleteWordAtCaret`, `Deletion.DeleteToLineEnd`, `CaretActions.WordLeft`: these require the caret inside its line's content. A caret beyond the line end (allowed by `AllowCaretBeyondEOL`) has no document offset in this model.
- `Indentation.Tab`: requires a positive `IndentationSize` when tabs are converted to spaces and the insertion at the caret runs (nothing selected, or some selection on a single line). Only that path divides by the size (MiscActions.cs:32), and with size 0 the source throws there. The block path builds `new string(' ', 0)` and needs no bound.
- `Indentation.ShiftTab`: requires a positive `IndentationSize` when nothing is selected, for the same reason. It returns the desired column, and moving the caret to it depends on the view.
- `LineComment.ToggleLineComment`: requires a token without line breaks, which keeps the line structure unchanged.
- `LineComment.UncommentUndoesComment`, `LineComment.ToggleTwiceRestoresCaretLine`, `LineComment.ToggleTwiceRestoresSelection`: these require a token with no white space at its ends. For other tokens, `Trim` can strip part of the token and the round trip does not hold.
- `LineComment.SetCommentAt`: skipping the last line of a selection is modelled as "the selection ends at column 0 of that line". The source compares the line's offset with the selection's end offset, and the two tests agree on a well-formed document.
- `ToggleComment.ToggleComment`: requires the selections in document order, so that the first one's start is not after the last one's end. It also requires the caret inside its line's content, because the block branch uses the caret's offset, and a caret beyond the line end has none in this model.
- `BlockComment.ToggleBlockComment`: runs the corrected region search, so it differs from the code as written wherever the two searches differ. One case is a start token found after the selection start, where the code as written throws (first "## Findings" row) and the model uncomments. The other is every input where the search as written reports an end token that begins before the start token ends, which is the case `BlockComment.AsWrittenAgrees` leaves out. There the code as written throws or silently removes the wrong characters: "*/*xyz" with [1, 3) selected becomes "*z" (`BlockComment.SilentRemovalCounterexample`). The model instead wraps the selection, or leaves the text alone when nothing is selected.
- `Indentation.InsertTabAtCaret`: `TextArea.InsertString` and `TextArea.ReplaceChar`, which MiscActions.cs:67-77 calls, are not part of this model. They are taken to insert at the caret with no read-only test of their own, and to leave a single-line selection in place (MiscActions.cs:105-108).
- `MoveLine.TrySwitchLines`: the `catch` branch cannot be reached in the model, because every index it uses is checked first.
- `BlockComment.EndSearchStart`: when `selectionStart + 1 - |commentEnd|` is negative, the source starts the forward search at the selection start rather than at 0. The model keeps that behaviour.

## Findings

| source | as written | input that shows it | evidently intended | confidence | as-written member | corrected member |
|---|---|---|---|---|---|---|
| Project/Src/Actions/MiscActions.cs:435 | the test for an end token between the found start token and the selection start passes `selectionStart - commentStart` as the count, which is negative when the start token found lies after the selection start | text "a/*b*/", tokens "/*" and "*/", selection [0, 2): the backward search finds "/*" at 1, and the count is -1, so `IndexOf` throws | run the test only for a start token that begins before the selection, so the comment at (1, 4) is found | not executed | BlockComment.NegativeCountCounterexample | BlockComment.FindSelectedCommentRegion |
| Project/Src/Actions/MiscActions.cs:443-452 | the fallback search for an end token starts before the selection and can find one that lies before the start token; the region is then removed with stale offsets, which throws or removes the wrong characters | text "*/*", tokens "/*" and "*/", selection [1, 3): the region reported is (1, 0), and `RemoveComment` then removes past the end of the text. With text "*/*xyz" nothing throws and the result is "*z" (`BlockComment.SilentRemovalCounterexample`) | report a region only when the end token follows the start token | not executed | BlockComment.EndBeforeStartCounterexample | BlockComment.FindSelectedCommentRegion |
