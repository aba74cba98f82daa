/**
 * `ToggleLineComment`: one shared decision, comment or uncomment, for every
 * line touched by the selections (or the caret's line), then the token is
 * inserted at, or removed from, each of those lines.
 */
module LineComment {
  import opened Wrappers
  import opened Document
  import opened EditorState
  import opened Strings

  /** The lines a toggle touches: `first..last`, where the last is left out when the selection ends at its start. */
  datatype LineRange = LineRange(sel: Option<Selection>, first: nat, last: nat)

  predicate RangeFits(d: seq<Line>, rg: LineRange) {
    && rg.first <= rg.last < |d|
    && (rg.sel.Some? ==> rg.sel.value.end.line == rg.last)
  }

  predicate Included(rg: LineRange, k: int) {
    rg.first <= k <= rg.last && !(rg.sel.Some? && k == rg.last && rg.sel.value.end.col == 0)
  }

  /** `lineText.Trim().StartsWith(comment)` (see `Strings.TrimStartsWithIsTrim`). */
  predicate IsCommented(l: Line, comment: string) {
    TrimStartsWith(l.content, comment)
  }

  /**
   * The test `line.Offset == selection.Offset + selection.Length`, made on the
   * range's last line; there the selection ends at the line's start exactly
   * when its end column is 0.
   */
  predicate SkipsAt(rg: LineRange, i: int) {
    rg.sel.Some? && i == rg.last && rg.sel.value.end.col == 0
  }

  /** `ShouldComment` from line `i` down: some included line is not commented yet. */
  function ShouldCommentDown(d: seq<Line>, comment: string, rg: LineRange, i: int): (r: bool)
    requires RangeFits(d, rg) && rg.first - 1 <= i <= rg.last
    ensures r <==> exists k :: rg.first <= k <= i && Included(rg, k) && !IsCommented(d[k], comment)
    decreases i - rg.first + 1
  {
    if i < rg.first then false
    else if SkipsAt(rg, i) then ShouldCommentDown(d, comment, rg, i - 1)
    else if !IsCommented(d[i], comment) then true
    else ShouldCommentDown(d, comment, rg, i - 1)
  }

  function ShouldComment(d: seq<Line>, comment: string, rg: LineRange): (r: bool)
    requires RangeFits(d, rg)
    ensures r <==> exists k :: Included(rg, k) && !IsCommented(d[k], comment)
  {
    ShouldCommentDown(d, comment, rg, rg.last)
  }

  /** `SetCommentAt` from line `i` down. */
  function SetCommentDown(d: seq<Line>, comment: string, rg: LineRange, i: int): (r: seq<Line>)
    requires RangeFits(d, rg) && rg.first - 1 <= i <= rg.last
    ensures |r| == |d|
    ensures forall k :: 0 <= k < |d| ==>
      r[k] == if rg.first <= k <= i && Included(rg, k) then Line(comment + d[k].content, d[k].delim) else d[k]
    decreases i - rg.first + 1
  {
    if i < rg.first then d
    else if SkipsAt(rg, i) then SetCommentDown(d, comment, rg, i - 1)
    else SetCommentDown(d[i := Line(comment + d[i].content, d[i].delim)], comment, rg, i - 1)
  }

  /** `SetCommentAt`: the token goes in front of every included line, whatever it holds. */
  function SetCommentAt(d: seq<Line>, comment: string, rg: LineRange): (r: seq<Line>)
    requires RangeFits(d, rg)
    ensures |r| == |d|
    ensures forall k :: 0 <= k < |d| ==>
      r[k] == if Included(rg, k) then Line(comment + d[k].content, d[k].delim) else d[k]
  {
    SetCommentDown(d, comment, rg, rg.last)
  }

  /** A commented line holds the token, so `IndexOf` finds it. */
  lemma CommentedHasToken(c: string, comment: string)
    requires TrimStartsWith(c, comment)
    ensures IndexOf(c, comment) >= 0
  {
    var at := TrimStartsWithOccurs(c, comment);
  }

  /** An uncommented line: the first occurrence of the token is taken out. */
  function Uncomment(l: Line, comment: string): (r: Line)
    requires IsCommented(l, comment)
    ensures r.delim == l.delim
    ensures exists at :: (0 <= at && OccursAt(l.content, comment, at)
      && (forall k :: 0 <= k < at ==> !OccursAt(l.content, comment, k))
      && r.content == l.content[..at] + l.content[at + |comment|..])
  {
    CommentedHasToken(l.content, comment);
    var at := IndexOf(l.content, comment);
    Line(l.content[..at] + l.content[at + |comment|..], l.delim)
  }

  /** `RemoveCommentAt` from line `i` down. */
  function RemoveCommentDown(d: seq<Line>, comment: string, rg: LineRange, i: int): (r: seq<Line>)
    requires RangeFits(d, rg) && rg.first - 1 <= i <= rg.last
    ensures |r| == |d|
    ensures forall k :: 0 <= k < |d| ==>
      r[k] == if rg.first <= k <= i && Included(rg, k) && IsCommented(d[k], comment) then Uncomment(d[k], comment) else d[k]
    decreases i - rg.first + 1
  {
    if i < rg.first then d
    else if SkipsAt(rg, i) || !IsCommented(d[i], comment) then RemoveCommentDown(d, comment, rg, i - 1)
    else RemoveCommentDown(d[i := Uncomment(d[i], comment)], comment, rg, i - 1)
  }

  /** `RemoveCommentAt`: only included lines whose trimmed text starts with the token change. */
  function RemoveCommentAt(d: seq<Line>, comment: string, rg: LineRange): (r: seq<Line>)
    requires RangeFits(d, rg)
    ensures |r| == |d|
    ensures forall k :: 0 <= k < |d| ==>
      r[k] == if Included(rg, k) && IsCommented(d[k], comment) then Uncomment(d[k], comment) else d[k]
  {
    RemoveCommentDown(d, comment, rg, rg.last)
  }

  /** The range a selection covers. */
  function SelectionRange(sel: Selection): LineRange {
    LineRange(Some(sel), sel.start.line, sel.end.line)
  }

  predicate SelectionsFit(d: seq<Line>, sels: seq<Selection>) {
    forall j :: 0 <= j < |sels| ==> RangeFits(d, SelectionRange(sels[j]))
  }

  /** The decision loop of `Execute`: comment unless some selection's lines are all commented already. */
  function DecideComment(d: seq<Line>, comment: string, sels: seq<Selection>, k: nat): (r: bool)
    requires SelectionsFit(d, sels) && k <= |sels|
    ensures r <==> forall j :: k <= j < |sels| ==> ShouldComment(d, comment, SelectionRange(sels[j]))
    decreases |sels| - k
  {
    if k == |sels| then true
    else if !ShouldComment(d, comment, SelectionRange(sels[k])) then false
    else DecideComment(d, comment, sels, k + 1)
  }

  /** Line `i` belongs to none of the selections from the `k`-th on. */
  predicate Untouched(sels: seq<Selection>, k: nat, i: int) {
    forall j :: k <= j < |sels| ==> !Included(SelectionRange(sels[j]), i)
  }

  /** What one selection's edit does to one of its lines: the token added in front, or the first one taken out. */
  function ToggledOnce(l: Line, comment: string, doComment: bool): Line {
    if doComment then Line(comment + l.content, l.delim)
    else if IsCommented(l, comment) then Uncomment(l, comment)
    else l
  }

  /** A line after `n` selections covering it have each been edited in turn. */
  function ToggledTimes(l: Line, comment: string, doComment: bool, n: nat): Line
    decreases n
  {
    if n == 0 then l else ToggledTimes(ToggledOnce(l, comment, doComment), comment, doComment, n - 1)
  }

  /** How many of the selections from the `k`-th on include line `i`. */
  function CoverCount(sels: seq<Selection>, k: nat, i: int): (n: nat)
    requires k <= |sels|
    ensures n == 0 <==> Untouched(sels, k, i)
    decreases |sels| - k
  {
    if k == |sels| then 0
    else (if Included(SelectionRange(sels[k]), i) then 1 else 0) + CoverCount(sels, k + 1, i)
  }

  /**
   * The edit loop of `Execute`: the same decision applied to every selection
   * in turn, so each line is edited once for every selection that includes it.
   */
  function ApplyToSelections(d: seq<Line>, comment: string, sels: seq<Selection>, k: nat, doComment: bool): (r: seq<Line>)
    requires ValidDoc(d) && NoLineBreak(comment) && SelectionsFit(d, sels) && k <= |sels|
    ensures ValidDoc(r) && |r| == |d|
    ensures forall i :: 0 <= i < |d| && Untouched(sels, k, i) ==> r[i] == d[i]
    decreases |sels| - k
  {
    if k == |sels| then d
    else
      var d' := EditRange(d, comment, SelectionRange(sels[k]), doComment);
      forall j | 0 <= j < |sels| ensures RangeFits(d', SelectionRange(sels[j])) {
        assert RangeFits(d, SelectionRange(sels[j]));
      }
      ApplyToSelections(d', comment, sels, k + 1, doComment)
  }

  /** One selection's edit: every included line edited once, the other lines untouched. */
  function EditRange(d: seq<Line>, comment: string, rg: LineRange, doComment: bool): (r: seq<Line>)
    requires ValidDoc(d) && NoLineBreak(comment) && RangeFits(d, rg)
    ensures ValidDoc(r) && |r| == |d|
    ensures forall i :: 0 <= i < |d| ==> r[i] == if Included(rg, i) then ToggledOnce(d[i], comment, doComment) else d[i]
  {
    CommentKeepsValid(d, comment, rg);
    UncommentKeepsValid(d, comment, rg);
    if doComment then SetCommentAt(d, comment, rg) else RemoveCommentAt(d, comment, rg)
  }

  /**
   * `ToggleLineComment.Execute`.  `comment` is the `LineComment` property of
   * the highlighting, when declared.
   */
  function ToggleLineComment(d: seq<Line>, caret: Pos, sels: seq<Selection>, comment: Option<string>, docReadOnly: bool): (r: seq<Line>)
    requires ValidDoc(d) && caret.line < |d| && ValidSelections(d, sels)
    requires comment.Some? ==> NoLineBreak(comment.value)
    ensures ValidDoc(r) && |r| == |d|
    ensures docReadOnly || comment.None? || comment.value == [] ==> r == d
    ensures sels != [] ==> forall i :: 0 <= i < |d| && Untouched(sels, 0, i) ==> r[i] == d[i]
    ensures !docReadOnly && comment.Some? && comment.value != [] && sels != [] ==>
      && SelectionsFit(d, sels)
      && EditedPerLine(d, r, comment.value, sels, 0, DecideComment(d, comment.value, sels, 0))
    ensures !docReadOnly && comment.Some? && comment.value != [] && sels == [] ==>
      var rg := LineRange(None, caret.line, caret.line);
      r == if ShouldComment(d, comment.value, rg) then SetCommentAt(d, comment.value, rg)
           else RemoveCommentAt(d, comment.value, rg)
  {
    if docReadOnly || comment.None? || comment.value == [] then d
    else if |sels| > 0 then
      SelectionsFitLines(d, sels);
      ApplyToSelectionsLines(d, comment.value, sels, 0, DecideComment(d, comment.value, sels, 0));
      ApplyToSelections(d, comment.value, sels, 0, DecideComment(d, comment.value, sels, 0))
    else
      var rg := LineRange(None, caret.line, caret.line);
      CommentKeepsValid(d, comment.value, rg);
      UncommentKeepsValid(d, comment.value, rg);
      if ShouldComment(d, comment.value, rg) then SetCommentAt(d, comment.value, rg)
      else RemoveCommentAt(d, comment.value, rg)
  }

  // ---------------------------------------------------------------------
  // Lemmas

  lemma SelectionsFitLines(d: seq<Line>, sels: seq<Selection>)
    requires ValidDoc(d) && ValidSelections(d, sels)
    ensures SelectionsFit(d, sels)
  {
    forall j | 0 <= j < |sels| ensures RangeFits(d, SelectionRange(sels[j])) {
      var sel := sels[j];
      if sel.end.line < sel.start.line {
        OffsetMonotone(d, sel.end.line + 1, sel.start.line);
        ContentEndBeforeNext(d, sel.end.line);
      }
    }
  }

  lemma CommentKeepsValid(d: seq<Line>, comment: string, rg: LineRange)
    requires ValidDoc(d) && NoLineBreak(comment) && RangeFits(d, rg)
    ensures ValidDoc(SetCommentAt(d, comment, rg))
  {
    forall k | 0 <= k < |d| {
      NoLineBreakConcat(comment, d[k].content);
    }
  }

  lemma UncommentKeepsValid(d: seq<Line>, comment: string, rg: LineRange)
    requires ValidDoc(d) && RangeFits(d, rg)
    ensures ValidDoc(RemoveCommentAt(d, comment, rg))
  {
    var r := RemoveCommentAt(d, comment, rg);
    forall k | 0 <= k < |d| && Included(rg, k) && IsCommented(d[k], comment)
      ensures NoLineBreak(r[k].content)
    {
      UncommentNoLineBreak(d[k], comment);
    }
  }

  lemma UncommentNoLineBreak(l: Line, comment: string)
    requires IsCommented(l, comment) && NoLineBreak(l.content)
    ensures NoLineBreak(Uncomment(l, comment).content)
  {
    CommentedHasToken(l.content, comment);
    var c := l.content;
    var at := IndexOf(c, comment);
    NoLineBreakConcat(c[..at], c[at + |comment|..]);
  }

  /** A token whose first and last characters are not white space. */
  predicate TightToken(comment: string) {
    |comment| > 0 && !IsWhiteSpace(comment[0]) && !IsWhiteSpace(comment[|comment| - 1])
  }

  /** Uncommenting a line that was just commented gives the line back. */
  lemma UncommentCommented(l: Line, comment: string)
    requires TightToken(comment)
    ensures IsCommented(Line(comment + l.content, l.delim), comment)
    ensures Uncomment(Line(comment + l.content, l.delim), comment) == l
  {
    var c := comment + l.content;
    TrimKeepsToken(comment, l.content);
    TrimStartsWithIsTrim(c, comment);
    assert OccursAt(c, comment, 0);
    var at :| 0 <= at && OccursAt(c, comment, at)
      && (forall k :: 0 <= k < at ==> !OccursAt(c, comment, k))
      && Uncomment(Line(c, l.delim), comment).content == c[..at] + c[at + |comment|..];
    assert at == 0;
  }

  /** After commenting, every included line starts with the token, so the next toggle uncomments. */
  lemma {:induction false} CommentedRangeNeedsNoComment(d: seq<Line>, comment: string, rg: LineRange)
    requires RangeFits(d, rg) && TightToken(comment)
    ensures !ShouldComment(SetCommentAt(d, comment, rg), comment, rg)
  {
    var r := SetCommentAt(d, comment, rg);
    forall k | Included(rg, k) ensures IsCommented(r[k], comment) {
      UncommentCommented(d[k], comment);
    }
  }

  /** Commenting a range and then uncommenting it restores every line exactly. */
  lemma {:induction false} UncommentUndoesComment(d: seq<Line>, comment: string, rg: LineRange)
    requires RangeFits(d, rg) && TightToken(comment)
    ensures RemoveCommentAt(SetCommentAt(d, comment, rg), comment, rg) == d
  {
    var c := SetCommentAt(d, comment, rg);
    var r := RemoveCommentAt(c, comment, rg);
    forall k | 0 <= k < |d| ensures r[k] == d[k] {
      if Included(rg, k) {
        UncommentCommented(d[k], comment);
      }
    }
  }

  /** Toggling the caret's line twice restores the document when the line was not commented. */
  lemma ToggleTwiceRestoresCaretLine(d: seq<Line>, caret: Pos, comment: string)
    requires ValidDoc(d) && caret.line < |d| && NoLineBreak(comment) && TightToken(comment)
    requires !IsCommented(d[caret.line], comment)
    ensures var once := ToggleLineComment(d, caret, [], Some(comment), false);
      ToggleLineComment(once, caret, [], Some(comment), false) == d
  {
    var rg := LineRange(None, caret.line, caret.line);
    assert Included(rg, caret.line);
    var once := SetCommentAt(d, comment, rg);
    CommentedRangeNeedsNoComment(d, comment, rg);
    UncommentUndoesComment(d, comment, rg);
  }

  /**
   * With one selection, toggling twice restores the document when some line
   * of the selection was not commented: the first toggle comments every line,
   * the second takes exactly those tokens out.
   */
  lemma ToggleTwiceRestoresSelection(d: seq<Line>, caret: Pos, sel: Selection, comment: string)
    requires ValidDoc(d) && caret.line < |d| && ValidSelection(d, sel) && NoLineBreak(comment) && TightToken(comment)
    requires RangeFits(d, SelectionRange(sel)) && ShouldComment(d, comment, SelectionRange(sel))
    ensures var once := ToggleLineComment(d, caret, [sel], Some(comment), false);
      |once| == |d| && ValidSelection(once, sel)
      && ToggleLineComment(once, caret, [sel], Some(comment), false) == d
  {
    var rg := SelectionRange(sel);
    var once := SetCommentAt(d, comment, rg);
    OneSelection(d, caret, sel, comment);
    CommentKeepsValid(d, comment, rg);
    SelectionStillValid(d, once, sel, comment);
    CommentedRangeNeedsNoComment(d, comment, rg);
    OneSelection(once, caret, sel, comment);
    UncommentUndoesComment(d, comment, rg);
  }

  /** With one selection, the toggle is the shared test applied to that selection's range. */
  lemma OneSelection(d: seq<Line>, caret: Pos, sel: Selection, comment: string)
    requires ValidDoc(d) && caret.line < |d| && ValidSelection(d, sel) && NoLineBreak(comment) && |comment| > 0
    requires RangeFits(d, SelectionRange(sel))
    ensures ToggleLineComment(d, caret, [sel], Some(comment), false) ==
      if ShouldComment(d, comment, SelectionRange(sel)) then SetCommentAt(d, comment, SelectionRange(sel))
      else RemoveCommentAt(d, comment, SelectionRange(sel))
  {
    SelectionsFitLines(d, [sel]);
    var rg := SelectionRange(sel);
    assert DecideComment(d, comment, [sel], 0) == ShouldComment(d, comment, rg);
    ApplyOne(d, comment, sel, ShouldComment(d, comment, rg));
  }

  /** The edit loop over a single selection is that selection's edit. */
  lemma ApplyOne(d: seq<Line>, comment: string, sel: Selection, doComment: bool)
    requires ValidDoc(d) && NoLineBreak(comment) && RangeFits(d, SelectionRange(sel))
    ensures SelectionsFit(d, [sel])
    ensures ApplyToSelections(d, comment, [sel], 0, doComment) ==
      if doComment then SetCommentAt(d, comment, SelectionRange(sel)) else RemoveCommentAt(d, comment, SelectionRange(sel))
  {
    var rg := SelectionRange(sel);
    var d' := if doComment then SetCommentAt(d, comment, rg) else RemoveCommentAt(d, comment, rg);
    CommentKeepsValid(d, comment, rg);
    UncommentKeepsValid(d, comment, rg);
    assert SelectionsFit(d', [sel]);
    assert ApplyToSelections(d', comment, [sel], 1, doComment) == d';
  }

  /** Lines that only grew at the front keep a selection on them valid. */
  lemma SelectionStillValid(d: seq<Line>, r: seq<Line>, sel: Selection, comment: string)
    requires ValidDoc(d) && ValidSelection(d, sel) && RangeFits(d, SelectionRange(sel))
    requires r == SetCommentAt(d, comment, SelectionRange(sel))
    ensures ValidSelection(r, sel)
  {
    assert ValidPos(r, sel.start) && ValidPos(r, sel.end);
    if sel.start.line < sel.end.line {
      OffsetNext(r, sel.start.line);
      OffsetMonotone(r, sel.start.line + 1, sel.end.line);
    }
  }

  /**
   * What the edit loop does to each line: line `i` is edited once for every
   * selection from the `k`-th on that includes it, in selection order.
   */
  lemma {:induction false} ApplyToSelectionsLines(d: seq<Line>, comment: string, sels: seq<Selection>, k: nat, doComment: bool)
    requires ValidDoc(d) && NoLineBreak(comment) && SelectionsFit(d, sels) && k <= |sels|
    ensures EditedPerLine(d, ApplyToSelections(d, comment, sels, k, doComment), comment, sels, k, doComment)
    decreases |sels| - k
  {
    if k < |sels| {
      var d' := EditRange(d, comment, SelectionRange(sels[k]), doComment);
      SameLengthFits(d, d', sels);
      ApplyToSelectionsLines(d', comment, sels, k + 1, doComment);
      EditedPerLineStep(d, d', ApplyToSelections(d', comment, sels, k + 1, doComment), comment, sels, k, doComment);
    }
  }

  /** Every line of `r` is line `i` of `d` edited once per selection from the `k`-th on that includes it. */
  predicate EditedPerLine(d: seq<Line>, r: seq<Line>, comment: string, sels: seq<Selection>, k: nat, doComment: bool)
    requires k <= |sels|
  {
    |r| == |d| && forall i :: 0 <= i < |d| ==> r[i] == ToggledTimes(d[i], comment, doComment, CoverCount(sels, k, i))
  }

  /** Selections that fit a document fit any document with as many lines. */
  lemma SameLengthFits(d: seq<Line>, e: seq<Line>, sels: seq<Selection>)
    requires SelectionsFit(d, sels) && |e| == |d|
    ensures SelectionsFit(e, sels)
  {
    forall j | 0 <= j < |sels| ensures RangeFits(e, SelectionRange(sels[j])) {
      assert RangeFits(d, SelectionRange(sels[j]));
    }
  }

  /** The inductive step of `ApplyToSelectionsLines`: selection `k`'s edit followed by the rest. */
  lemma EditedPerLineStep(d: seq<Line>, d': seq<Line>, r: seq<Line>, comment: string, sels: seq<Selection>, k: nat, doComment: bool)
    requires k < |sels| && |d'| == |d|
    requires forall i :: 0 <= i < |d| ==>
      d'[i] == if Included(SelectionRange(sels[k]), i) then ToggledOnce(d[i], comment, doComment) else d[i]
    requires EditedPerLine(d', r, comment, sels, k + 1, doComment)
    ensures EditedPerLine(d, r, comment, sels, k, doComment)
  {
    var rg := SelectionRange(sels[k]);
    forall i | 0 <= i < |d| ensures r[i] == ToggledTimes(d[i], comment, doComment, CoverCount(sels, k, i)) {
      ToggledStep(d[i], d'[i], r[i], comment, doComment, Included(rg, i), CoverCount(sels, k + 1, i));
    }
  }

  /** Editing a line once more before `n` further edits is `n + 1` edits. */
  lemma ToggledStep(l: Line, l': Line, x: Line, comment: string, doComment: bool, included: bool, n: nat)
    requires l' == if included then ToggledOnce(l, comment, doComment) else l
    requires x == ToggledTimes(l', comment, doComment, n)
    ensures x == ToggledTimes(l, comment, doComment, n + if included then 1 else 0)
  {
  }
}
