/**
 * `ToggleComment`: the generic comment command.  It runs the line-comment
 * toggle when the highlighting declares a line comment, and the block-comment
 * toggle otherwise, when it declares a block comment start.
 */
module ToggleComment {
  import opened Wrappers
  import opened Document
  import opened EditorState
  import LineComment
  import BlockComment

  /** The comment properties of the highlighting definition; `None` where the key is absent. */
  datatype CommentProps = CommentProps(lineComment: Option<string>, blockBegin: Option<string>, blockEnd: Option<string>)

  /** What the command did: nothing, a line-wise toggle, or a toggle on the whole text. */
  datatype Outcome = Unchanged | LinesToggled(lines: seq<Line>) | BlockToggled(text: string)

  /** The selections, in document order, each starting no later than the next one ends. */
  predicate InDocumentOrder(d: seq<Line>, sels: seq<Selection>)
    requires ValidSelections(d, sels)
  {
    forall i :: 0 <= i < |sels| - 1 ==> SelEnd(d, sels[i]) <= SelStart(d, sels[i + 1])
  }

  /** The span from the first selection's offset to the last selection's end, when something is selected. */
  function SelectionSpan(d: seq<Line>, sels: seq<Selection>): (r: Option<BlockComment.Span>)
    requires ValidDoc(d) && ValidSelections(d, sels) && InDocumentOrder(d, sels)
    ensures r.None? <==> sels == []
    ensures r.Some? ==> r.value.start <= r.value.end <= Length(d)
    ensures r.Some? ==> r.value.start == SelStart(d, sels[0]) && r.value.end == SelEnd(d, sels[|sels| - 1])
    ensures r.Some? ==> forall i :: 0 <= i < |sels| ==> r.value.start <= SelStart(d, sels[i]) && SelEnd(d, sels[i]) <= r.value.end
  {
    if sels == [] then None
    else
      SpanCovers(d, sels);
      TextBefore(d, sels[|sels| - 1].end);
      Some(BlockComment.Span(SelStart(d, sels[0]), SelEnd(d, sels[|sels| - 1])))
  }

  /** Selections in document order lie between the first one's start and the last one's end. */
  lemma {:induction false} SpanCovers(d: seq<Line>, sels: seq<Selection>)
    requires ValidSelections(d, sels) && InDocumentOrder(d, sels) && sels != []
    ensures forall i :: 0 <= i < |sels| ==> SelStart(d, sels[0]) <= SelStart(d, sels[i]) && SelEnd(d, sels[i]) <= SelEnd(d, sels[|sels| - 1])
    decreases |sels|
  {
    if |sels| > 1 {
      var tail := sels[1..];
      assert forall i :: 0 <= i < |tail| ==> tail[i] == sels[i + 1];
      SpanCovers(d, tail);
      forall i | 0 <= i < |sels|
        ensures SelStart(d, sels[0]) <= SelStart(d, sels[i]) && SelEnd(d, sels[i]) <= SelEnd(d, sels[|sels| - 1])
      {
        if i > 0 {
          assert SelStart(d, sels[1]) <= SelStart(d, tail[i - 1]);
          assert SelEnd(d, tail[i - 1]) <= SelEnd(d, tail[|tail| - 1]);
        } else {
          assert SelEnd(d, sels[0]) <= SelStart(d, sels[1]) <= SelEnd(d, sels[1]) <= SelEnd(d, tail[|tail| - 1]);
        }
      }
    }
  }

  /** `ToggleComment.Execute`. */
  function ToggleComment(d: seq<Line>, caret: Pos, sels: seq<Selection>, props: CommentProps, docReadOnly: bool): (r: Outcome)
    requires ValidDoc(d) && ValidPos(d, caret) && ValidSelections(d, sels) && InDocumentOrder(d, sels)
    requires props.lineComment.Some? ==> NoLineBreak(props.lineComment.value)
    ensures r.Unchanged? <==> docReadOnly || (props.lineComment.None? && props.blockBegin.None?)
    ensures r.LinesToggled? <==> !docReadOnly && props.lineComment.Some?
    ensures r.LinesToggled? ==> ValidDoc(r.lines) && |r.lines| == |d|
    ensures r.BlockToggled? && (props.blockEnd.None? || props.blockBegin.value == [] || props.blockEnd.value == []) ==> r.text == Text(d)
    ensures r.LinesToggled? ==> r.lines == LineComment.ToggleLineComment(d, caret, sels, props.lineComment, false)
    ensures r.BlockToggled? ==>
      && ToOffset(d, caret) <= |Text(d)|
      && r.text == BlockComment.ToggleBlockComment(Text(d), ToOffset(d, caret), SelectionSpan(d, sels),
                                                   props.blockBegin, props.blockEnd, false)
  {
    if docReadOnly then Unchanged
    else if props.lineComment.Some? then
      LinesToggled(LineComment.ToggleLineComment(d, caret, sels, props.lineComment, false))
    else if props.blockBegin.Some? then
      TextBefore(d, caret);
      BlockToggled(BlockComment.ToggleBlockComment(Text(d), ToOffset(d, caret), SelectionSpan(d, sels),
                                                   props.blockBegin, props.blockEnd, false))
    else Unchanged
  }

  /**
   * With a line comment declared, a second toggle of the caret's line undoes
   * the first when the line was not commented, whatever block comment is
   * declared besides.
   */
  lemma ToggleCommentTwice(d: seq<Line>, caret: Pos, props: CommentProps)
    requires ValidDoc(d) && ValidPos(d, caret)
    requires props.lineComment.Some? && NoLineBreak(props.lineComment.value) && LineComment.TightToken(props.lineComment.value)
    requires !LineComment.IsCommented(d[caret.line], props.lineComment.value)
    ensures var once := ToggleComment(d, caret, [], props, false);
      once.LinesToggled? && ValidPos(once.lines, caret) && ToggleComment(once.lines, caret, [], props, false) == LinesToggled(d)
  {
    var once := LineComment.ToggleLineComment(d, caret, [], props.lineComment, false);
    LineComment.ToggleTwiceRestoresCaretLine(d, caret, props.lineComment.value);
    var rg := LineComment.LineRange(None, caret.line, caret.line);
    assert LineComment.Included(rg, caret.line);
    assert once[caret.line].content == props.lineComment.value + d[caret.line].content;
  }
}
