/**
 * `MoveLineUp`, `MoveLineDown` and the `MoveLine.TrySwitchLines` they share:
 * two neighbouring lines change places, terminators included, except that
 * the last line keeps having no terminator.
 */
module MoveLine {
  import opened Document
  import opened EditorState

  /** The two lines that replace `first` and `second` (its successor). */
  function Switched(first: Line, second: Line): (r: seq<Line>)
    ensures |r| == 2
    ensures second.delim != [] ==> r == [second, first]
    ensures second.delim == [] ==> r[0].content == second.content && r[1].content == first.content
    ensures second.delim == [] ==> r[0].delim == first.delim && r[1].delim == []
  {
    if second.delim != [] then [second, first]
    else [Line(second.content, first.delim), Line(first.content, "")]
  }

  /** The text `TrySwitchLines` writes over the two lines' segments. */
  function NewContent(first: Line, second: Line): string {
    if second.delim != [] then Total(second) + Total(first)
    else second.content + first.delim + first.content
  }

  /** `document.Replace(offset, length, s)`. */
  function Replace(t: string, off: nat, len: nat, s: string): string
    requires off + len <= |t|
  {
    t[..off] + s + t[off + len..]
  }

  /**
   * `MoveLine.TrySwitchLines`: lines `i` and `i + 1` change places, unless the
   * document is read-only or there is no such pair; the flag says whether
   * anything happened.
   */
  function TrySwitchLines(d: seq<Line>, i: int, docReadOnly: bool): (r: (bool, seq<Line>))
    requires ValidDoc(d)
    ensures ValidDoc(r.1) && |r.1| == |d|
    ensures r.0 <==> !docReadOnly && 0 <= i < |d| - 1
    ensures !r.0 ==> r.1 == d
    ensures r.0 ==> r.1[..i] == d[..i] && r.1[i + 2..] == d[i + 2..]
    ensures r.0 ==> r.1[i].content == d[i + 1].content && r.1[i + 1].content == d[i].content
    ensures r.0 ==> (Offset(d, i) + |Total(d[i])| + |Total(d[i + 1])| <= Length(d)
      && Text(r.1) == Replace(Text(d), Offset(d, i), |Total(d[i])| + |Total(d[i + 1])|, NewContent(d[i], d[i + 1])))
  {
    if docReadOnly || i >= |d| - 1 || i < 0 then (false, d)
    else
      SwitchedValid(d, i);
      SwitchedText(d, i);
      (true, SwitchAt(d, i))
  }

  lemma SwitchedValid(d: seq<Line>, i: nat)
    requires ValidDoc(d) && i < |d| - 1
    ensures ValidDoc(d[..i] + Switched(d[i], d[i + 1]) + d[i + 2..])
  {
    var r := d[..i] + Switched(d[i], d[i + 1]) + d[i + 2..];
    assert forall k :: 0 <= k < |r| ==> r[k] == if k < i then d[k] else if k < i + 2 then Switched(d[i], d[i + 1])[k - i] else d[k];
  }

  /** Both texts are the lines before `i`, the two lines' segments, and the lines after them. */
  lemma SwitchedText(d: seq<Line>, i: nat)
    requires i < |d| - 1
    ensures Offset(d, i) + |Total(d[i])| + |Total(d[i + 1])| <= Length(d)
    ensures Text(d[..i] + Switched(d[i], d[i + 1]) + d[i + 2..])
      == Replace(Text(d), Offset(d, i), |Total(d[i])| + |Total(d[i + 1])|, NewContent(d[i], d[i + 1]))
  {
    var pre, post := Text(d[..i]), Text(d[i + 2..]);
    var f, s := d[i], d[i + 1];
    var sw := Switched(f, s);
    assert d == d[..i] + [f, s] + d[i + 2..];
    TextPair(f, s);
    TextPair(sw[0], sw[1]);
    assert sw == [sw[0], sw[1]];
    assert Text(sw) == NewContent(f, s);
    TextAppend(d[..i] + [f, s], d[i + 2..]);
    TextAppend(d[..i], [f, s]);
    TextAppend(d[..i] + sw, d[i + 2..]);
    TextAppend(d[..i], sw);
    ReplaceMiddle(pre, Total(f) + Total(s), post, NewContent(f, s));
  }

  lemma TextPair(a: Line, b: Line)
    ensures Text([a, b]) == Total(a) + Total(b)
  {
    assert [a, b][..1] == [a];
    assert [a][..0] == [];
    assert Text([a]) == Text([a][..0]) + Total(a) == Total(a);
    assert Text([a, b]) == Text([a, b][..1]) + Total(b);
  }

  lemma ReplaceMiddle(pre: string, mid: string, post: string, s: string)
    ensures Replace(pre + mid + post, |pre|, |mid|, s) == pre + s + post
  {
    var t := pre + mid + post;
    assert t[..|pre|] == pre;
    assert t[|pre| + |mid|..] == post;
  }

  /** `MoveLineUp`: the caret's line trades places with the one above, and the caret goes with it. */
  function MoveLineUp(d: seq<Line>, caret: Pos, docReadOnly: bool): (r: LineEdit)
    requires ValidDoc(d) && caret.line < |d|
    ensures ValidDoc(r.doc) && r.caret.line < |r.doc|
    ensures ValidPos(d, caret) ==> ValidPos(r.doc, r.caret)
    ensures r.doc == TrySwitchLines(d, caret.line - 1, docReadOnly).1
    ensures r.doc[r.caret.line].content == d[caret.line].content && r.caret.col == caret.col
    ensures r.caret != caret <==> !docReadOnly && caret.line > 0
    ensures r.caret != caret ==> r.caret.line + 1 == caret.line
  {
    var (ok, doc) := TrySwitchLines(d, caret.line - 1, docReadOnly);
    if ok then LineEdit(doc, Pos(caret.col, caret.line - 1)) else LineEdit(d, caret)
  }

  /** `MoveLineDown`: the caret's line trades places with the one below, and the caret goes with it. */
  function MoveLineDown(d: seq<Line>, caret: Pos, docReadOnly: bool): (r: LineEdit)
    requires ValidDoc(d) && caret.line < |d|
    ensures ValidDoc(r.doc) && r.caret.line < |r.doc|
    ensures ValidPos(d, caret) ==> ValidPos(r.doc, r.caret)
    ensures r.doc == TrySwitchLines(d, caret.line, docReadOnly).1
    ensures r.doc[r.caret.line].content == d[caret.line].content && r.caret.col == caret.col
    ensures r.caret != caret <==> !docReadOnly && caret.line + 1 < |d|
    ensures r.caret != caret ==> r.caret.line == caret.line + 1
  {
    var (ok, doc) := TrySwitchLines(d, caret.line, docReadOnly);
    if ok then LineEdit(doc, Pos(caret.col, caret.line + 1)) else LineEdit(d, caret)
  }

  // ---------------------------------------------------------------------
  // Lemmas

  /** Switching the same pair twice gives the document back, the terminator-less last line included. */
  lemma {:induction false} SwitchTwice(d: seq<Line>, i: nat)
    requires ValidDoc(d) && i < |d| - 1
    ensures TrySwitchLines(TrySwitchLines(d, i, false).1, i, false).1 == d
  {
    SwitchAtTwice(d, i);
  }

  /** The pair at `i` switched, by itself. */
  function SwitchAt(d: seq<Line>, i: nat): seq<Line>
    requires i < |d| - 1
  {
    d[..i] + Switched(d[i], d[i + 1]) + d[i + 2..]
  }

  lemma SwitchAtTwice(d: seq<Line>, i: nat)
    requires ValidDoc(d) && i < |d| - 1
    ensures |SwitchAt(d, i)| == |d| && SwitchAt(SwitchAt(d, i), i) == d
  {
    var sw := Switched(d[i], d[i + 1]);
    var once := SwitchAt(d, i);
    assert once[i] == sw[0] && once[i + 1] == sw[1];
    assert once[..i] == d[..i] && once[i + 2..] == d[i + 2..];
    SwitchedTwice(d[i], d[i + 1]);
    assert d == d[..i] + [d[i], d[i + 1]] + d[i + 2..];
  }

  /** Two lines switched twice are the two lines again, when the first one has a terminator. */
  lemma SwitchedTwice(first: Line, second: Line)
    requires first.delim != []
    ensures var sw := Switched(first, second); Switched(sw[0], sw[1]) == [first, second]
  {
  }

  /** Moving a line down and then up again restores the document and the caret. */
  lemma DownThenUpRestores(d: seq<Line>, caret: Pos)
    requires ValidDoc(d) && caret.line + 1 < |d|
    ensures var down := MoveLineDown(d, caret, false);
      MoveLineUp(down.doc, down.caret, false) == LineEdit(d, caret)
  {
    SwitchTwice(d, caret.line);
  }

  /** Moving a line up and then down again restores the document and the caret. */
  lemma UpThenDownRestores(d: seq<Line>, caret: Pos)
    requires ValidDoc(d) && 0 < caret.line < |d|
    ensures var up := MoveLineUp(d, caret, false);
      MoveLineDown(up.doc, up.caret, false) == LineEdit(d, caret)
  {
    SwitchTwice(d, caret.line - 1);
  }
}
