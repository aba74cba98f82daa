/**
 * The deleting actions: `Backspace`, `Delete`, `WordBackspace`, `DeleteWord`,
 * `DeleteLine`, `DeleteToLineEnd`, and `Delete.DeleteSelection`, which the
 * first four run instead when something is selected.  Each one removes one
 * contiguous range of text; the model states which range, where the caret
 * ends up, and what the lines look like afterwards.
 */
module Deletion {
  import opened Document
  import opened EditorState
  import opened CaretActions

  /** `r` is `d` with exactly the text between offsets `a` and `b` removed. */
  predicate DeletesBetween(d: seq<Line>, r: LineEdit, a: nat, b: nat) {
    a <= b <= Length(d) && Text(r.doc) == Remove(Text(d), a, b - a)
  }

  /** A well-formed document with the caret inside a line's content. */
  predicate Wellformed(e: LineEdit) {
    ValidDoc(e.doc) && ValidPos(e.doc, e.caret)
  }

  /** The range from `p` to `q` removed, with the caret put at `p`. */
  function Cut(d: seq<Line>, p: Pos, q: Pos): (r: LineEdit)
    requires ValidDoc(d) && ValidPos(d, p) && ValidPos(d, q) && NotAfter(p, q)
    ensures Wellformed(r) && r.caret == p
    ensures DeletesBetween(d, r, ToOffset(d, p), ToOffset(d, q)) && ToOffset(r.doc, p) == ToOffset(d, p)
  {
    RemoveRangeText(d, p, q);
    RemoveRangeValid(d, p, q);
    LineEdit(RemoveRange(d, p, q), p)
  }

  lemma FirstLineAtZero(d: seq<Line>)
    requires |d| >= 1
    ensures Offset(d, 0) == 0
  {
    assert d[..0] == [];
  }

  /**
   * `Delete.DeleteSelection`: nothing happens over a read-only selection;
   * otherwise its text goes and the caret moves to its start.  The caret is
   * never read, so it may lie anywhere, beyond its line's end included.
   */
  function DeleteSelection(d: seq<Line>, caret: Pos, sel: Selection, g: Guard): (r: LineEdit)
    requires ValidDoc(d) && ValidSelection(d, sel)
    ensures ValidDoc(r.doc)
    ensures ValidPos(d, caret) ==> Wellformed(r)
    ensures SelectionReadOnly(g, d, [sel]) ==> r == LineEdit(d, caret)
    ensures !SelectionReadOnly(g, d, [sel]) ==>
      Wellformed(r) && r.caret == sel.start && DeletesBetween(d, r, SelStart(d, sel), SelEnd(d, sel))
      && ToOffset(r.doc, r.caret) == SelStart(d, sel)
  {
    if SelectionReadOnly(g, d, [sel]) then LineEdit(d, caret)
    else
      OffsetOrderIsPosOrder(d, sel.start, sel.end);
      Cut(d, sel.start, sel.end)
  }

  /**
   * `Backspace` without a selection: the character before the caret, or the
   * line break before the caret's line, is removed unless that offset is
   * read-only; the caret goes where a step left would take it.
   */
  function BackspaceAtCaret(d: seq<Line>, caret: Pos, g: Guard): (r: LineEdit)
    requires ValidDoc(d) && ValidPos(d, caret)
    ensures Wellformed(r)
    ensures var o := ToOffset(d, caret);
      if o > 0 && !ReadOnlyAt(g, o - 1) then
        && r.caret == StepLeft(d, caret)
        && ToOffset(r.doc, r.caret) < o
        && DeletesBetween(d, r, ToOffset(r.doc, r.caret), o)
        && (caret.col > 0 ==> ToOffset(r.doc, r.caret) == o - 1)
        && (caret.col == 0 ==> o - ToOffset(r.doc, r.caret) == |d[caret.line - 1].delim|)
      else r == LineEdit(d, caret)
  {
    var o := ToOffset(d, caret);
    if o > 0 && !ReadOnlyAt(g, o - 1) then
      if caret.col == 0 then
        FirstLineAtZero(d);
        CutLineBreakAbove(d, caret)
      else
        CutCharBefore(d, caret)
    else LineEdit(d, caret)
  }

  /** The terminator of the line above the caret's goes; the caret ends up at the end of that line's content. */
  function CutLineBreakAbove(d: seq<Line>, caret: Pos): (r: LineEdit)
    requires ValidDoc(d) && ValidPos(d, caret) && caret.col == 0 && caret.line > 0
    ensures Wellformed(r) && r.caret == Pos(|d[caret.line - 1].content|, caret.line - 1)
    ensures ToOffset(r.doc, r.caret) + |d[caret.line - 1].delim| == ToOffset(d, caret)
    ensures DeletesBetween(d, r, ToOffset(r.doc, r.caret), ToOffset(d, caret))
  {
    var k := caret.line;
    OffsetNext(d, k - 1);
    Cut(d, Pos(|d[k - 1].content|, k - 1), caret)
  }

  /** The character before the caret, in its line, goes; the caret moves back one column. */
  function CutCharBefore(d: seq<Line>, caret: Pos): (r: LineEdit)
    requires ValidDoc(d) && ValidPos(d, caret) && caret.col > 0
    ensures Wellformed(r) && r.caret == Pos(caret.col - 1, caret.line)
    ensures ToOffset(r.doc, r.caret) + 1 == ToOffset(d, caret)
    ensures DeletesBetween(d, r, ToOffset(r.doc, r.caret), ToOffset(d, caret))
  {
    Cut(d, Pos(caret.col - 1, caret.line), caret)
  }

  /**
   * `Delete` without a selection: unless the caret's offset is read-only, the
   * character after the caret, or the line break ending its line, is removed;
   * the caret stays.  At the end of the text nothing happens.
   */
  function DeleteAtCaret(d: seq<Line>, caret: Pos, g: Guard): (r: LineEdit)
    requires ValidDoc(d) && ValidPos(d, caret)
    ensures Wellformed(r)
    ensures var o := ToOffset(d, caret);
      if ReadOnlyAt(g, o) || o == Length(d) then r == LineEdit(d, caret)
      else
        var q := StepRight(d, caret, false);
        && r.caret == caret && ValidPos(d, q) && o < ToOffset(d, q)
        && DeletesBetween(d, r, o, ToOffset(d, q))
        && ToOffset(r.doc, r.caret) == o
  {
    var o := ToOffset(d, caret);
    LastLineEndsText(d);
    TextBefore(d, caret);
    if ReadOnlyAt(g, o) then LineEdit(d, caret)
    else if o < Length(d) then
      var k := caret.line;
      if ContentEnd(d, k) == o then
        // The test that a next line exists always holds here: the last line ends the text.
        assert k + 1 < |d|;
        OffsetNext(d, k);
        Cut(d, caret, Pos(0, k + 1))
      else
        Cut(d, caret, Pos(caret.col + 1, k))
    else LineEdit(d, caret)
  }

  /**
   * `WordBackspace` without a selection.  `prevWordStart` is what
   * `TextUtilities.FindPrevWordStart` answers for the caret offset: an offset
   * of the caret's line, not after the caret.  The text back to it is
   * removed unless read-only; then, if the caret is at the start of a line
   * that has one above, the line break before it is removed unless read-only.
   */
  function WordBackspaceAtCaret(d: seq<Line>, caret: Pos, g: Guard, prevWordStart: nat): (r: LineEdit)
    requires ValidDoc(d) && ValidPos(d, caret)
    requires Offset(d, caret.line) <= prevWordStart <= ToOffset(d, caret)
    ensures Wellformed(r)
    ensures ToOffset(r.doc, r.caret) <= ToOffset(d, caret)
    ensures DeletesBetween(d, r, ToOffset(r.doc, r.caret), ToOffset(d, caret))
    ensures r.caret.line == caret.line || (r.caret.line + 1 == caret.line && r.caret.col == |d[r.caret.line].content|)
    ensures var o := ToOffset(d, caret);
      prevWordStart < o && !ReadOnlyRange(g, prevWordStart, o - prevWordStart) ==> ToOffset(r.doc, r.caret) <= prevWordStart
  {
    var first := WordBackspaceInLine(d, caret, g, prevWordStart);
    var r := JoinWithLineAbove(first, g);
    DeletesInSequence(d, first, r, ToOffset(d, caret));
    r
  }

  /**
   * Where `WordBackspaceAtCaret` leaves the caret: the in-line removal stops
   * at `cut`; when that is the start of a line below the first and the
   * terminator above is writable, the terminator goes too and the caret ends
   * at the end of the line above.  With `DeletesBetween` this fixes the text.
   */
  lemma WordBackspaceAtCaretStops(d: seq<Line>, caret: Pos, g: Guard, prevWordStart: nat)
    requires ValidDoc(d) && ValidPos(d, caret)
    requires Offset(d, caret.line) <= prevWordStart <= ToOffset(d, caret)
    ensures var r := WordBackspaceAtCaret(d, caret, g, prevWordStart);
      var k := caret.line;
      var o := ToOffset(d, caret);
      var cut := if prevWordStart < o && !ReadOnlyRange(g, prevWordStart, o - prevWordStart) then prevWordStart else o;
      var joins := cut == Offset(d, k) && k > 0 && !ReadOnlyRange(g, ContentEnd(d, k - 1), |d[k - 1].delim|);
      && (joins ==> r.caret == Pos(|d[k - 1].content|, k - 1) && ToOffset(r.doc, r.caret) == ContentEnd(d, k - 1))
      && (!joins ==> r.caret.line == k && ToOffset(r.doc, r.caret) == cut)
  {
    var first := WordBackspaceInLine(d, caret, g, prevWordStart);
    var k := caret.line;
    var o := ToOffset(d, caret);
    var cut := if prevWordStart < o && !ReadOnlyRange(g, prevWordStart, o - prevWordStart) then prevWordStart else o;
    assert ToOffset(first.doc, first.caret) == cut;
    if k > 0 {
      SamePrefixSameOffset(d, first.doc, k);
      if first.caret.col == 0 {
        JoinWithLineAboveStops(first, g);
      } else {
        assert cut != Offset(d, k);
      }
    }
  }

  /** Lines before `k` that are unchanged keep their offsets and terminator positions. */
  lemma SamePrefixSameOffset(d: seq<Line>, e: seq<Line>, k: nat)
    requires 0 < k <= |d| && k <= |e| && e[..k] == d[..k]
    ensures e[k - 1] == d[k - 1]
    ensures Offset(e, k - 1) == Offset(d, k - 1) && ContentEnd(e, k - 1) == ContentEnd(d, k - 1)
    ensures Offset(e, k) == Offset(d, k)
  {
    assert e[k - 1] == e[..k][k - 1];
    assert e[..k - 1] == e[..k][..k - 1];
    assert d[..k - 1] == d[..k][..k - 1];
  }

  /** The first half of `WordBackspace`: the text back to the start of the word, inside the caret's line. */
  function WordBackspaceInLine(d: seq<Line>, caret: Pos, g: Guard, prevWordStart: nat): (r: LineEdit)
    requires ValidDoc(d) && ValidPos(d, caret)
    requires Offset(d, caret.line) <= prevWordStart <= ToOffset(d, caret)
    ensures Wellformed(r) && r.caret.line == caret.line && r.doc[..caret.line] == d[..caret.line]
    ensures ToOffset(r.doc, r.caret) <= ToOffset(d, caret)
    ensures DeletesBetween(d, r, ToOffset(r.doc, r.caret), ToOffset(d, caret))
    ensures var o := ToOffset(d, caret);
      if prevWordStart < o && !ReadOnlyRange(g, prevWordStart, o - prevWordStart) then ToOffset(r.doc, r.caret) == prevWordStart
      else r == LineEdit(d, caret)
  {
    var o := ToOffset(d, caret);
    var k := caret.line;
    TextBefore(d, caret);
    if o > Offset(d, k) && prevWordStart < o && !ReadOnlyRange(g, prevWordStart, o - prevWordStart) then
      Cut(d, Pos(prevWordStart - Offset(d, k), k), caret)
    else
      DeletesNothing(d, o);
      LineEdit(d, caret)
  }

  /** Leaving the document alone deletes the empty range at any offset. */
  lemma DeletesNothing(d: seq<Line>, o: nat)
    requires o <= Length(d)
    ensures forall r: LineEdit {:trigger DeletesBetween(d, r, o, o)} :: r.doc == d ==> DeletesBetween(d, r, o, o)
  {
    assert Text(d)[..o] + Text(d)[o..] == Text(d);
  }

  /** The second half of `WordBackspace`: at the start of a line with one above, the line break before it goes, unless read-only. */
  function JoinWithLineAbove(e: LineEdit, g: Guard): (r: LineEdit)
    requires Wellformed(e)
    ensures Wellformed(r)
    ensures ToOffset(r.doc, r.caret) <= ToOffset(e.doc, e.caret)
    ensures DeletesBetween(e.doc, r, ToOffset(r.doc, r.caret), ToOffset(e.doc, e.caret))
    ensures r.caret.line == e.caret.line || (r.caret.line + 1 == e.caret.line && r.caret.col == |e.doc[r.caret.line].content|)
    ensures e.caret.col != 0 || e.caret.line == 0 ==> r == e
    ensures e.caret.col == 0 && e.caret.line > 0 ==>
      var k := e.caret.line;
      if ReadOnlyRange(g, ContentEnd(e.doc, k - 1), |e.doc[k - 1].delim|) then r == e
      else r == CutLineBreakAbove(e.doc, e.caret)
  {
    var k := e.caret.line;
    if e.caret.col == 0 && k > 0 && !ReadOnlyRange(g, ContentEnd(e.doc, k - 1), |e.doc[k - 1].delim|) then
      CutLineBreakAbove(e.doc, e.caret)
    else
      TextBefore(e.doc, e.caret);
      DeletesNothing(e.doc, ToOffset(e.doc, e.caret));
      e
  }
  /** A join at column 0 below the first line puts the caret where the line above's terminator began. */
  lemma JoinWithLineAboveStops(e: LineEdit, g: Guard)
    requires Wellformed(e) && e.caret.col == 0 && e.caret.line > 0
    ensures var k := e.caret.line;
      var r := JoinWithLineAbove(e, g);
      !ReadOnlyRange(g, ContentEnd(e.doc, k - 1), |e.doc[k - 1].delim|) ==>
        r.caret == Pos(|e.doc[k - 1].content|, k - 1) && ToOffset(r.doc, r.caret) == ContentEnd(e.doc, k - 1)
  {
    OffsetNext(e.doc, e.caret.line - 1);
  }


  /** Two deletions in a row, the second ending where the first began, delete one range. */
  lemma DeletesInSequence(d: seq<Line>, e: LineEdit, r: LineEdit, o: nat)
    requires Wellformed(e) && Wellformed(r)
    requires DeletesBetween(d, e, ToOffset(e.doc, e.caret), o)
    requires DeletesBetween(e.doc, r, ToOffset(r.doc, r.caret), ToOffset(e.doc, e.caret))
    ensures DeletesBetween(d, r, ToOffset(r.doc, r.caret), o)
  {
    RemoveAdjacent(Text(d), ToOffset(r.doc, r.caret), ToOffset(e.doc, e.caret), o);
  }

  /** Two removals that meet: removing `[b, c)` and then `[a, b)` removes `[a, c)`. */
  lemma RemoveAdjacent(t: string, a: nat, b: nat, c: nat)
    requires a <= b <= c <= |t|
    ensures Remove(Remove(t, b, c - b), a, b - a) == Remove(t, a, c - a)
  {
    var t1 := Remove(t, b, c - b);
    assert t1[..a] == t[..a];
    assert t1[b..] == t[c..];
  }

  /**
   * `DeleteWord` without a selection.  At the end of the caret's line it is
   * `Delete`; otherwise `nextWordStart`, what `TextUtilities.FindNextWordStart`
   * answers (an offset of the caret's line, not before the caret), bounds the
   * text removed, unless read-only.  The caret stays.
   */
  function DeleteWordAtCaret(d: seq<Line>, caret: Pos, g: Guard, nextWordStart: nat): (r: LineEdit)
    requires ValidDoc(d) && ValidPos(d, caret)
    requires ToOffset(d, caret) <= nextWordStart <= ContentEnd(d, caret.line)
    ensures Wellformed(r) && r.caret == caret && ToOffset(r.doc, r.caret) == ToOffset(d, caret)
    ensures ToOffset(d, caret) == ContentEnd(d, caret.line) ==> r == DeleteAtCaret(d, caret, g)
    ensures var o := ToOffset(d, caret);
      o < ContentEnd(d, caret.line) ==>
        if o < nextWordStart && !ReadOnlyRange(g, o, nextWordStart - o) then DeletesBetween(d, r, o, nextWordStart)
        else r == LineEdit(d, caret)
  {
    var o := ToOffset(d, caret);
    var k := caret.line;
    if o == ContentEnd(d, k) then DeleteAtCaret(d, caret, g)
    else if nextWordStart > o && !ReadOnlyRange(g, o, nextWordStart - o) then
      Cut(d, caret, Pos(nextWordStart - Offset(d, k), k))
    else LineEdit(d, caret)
  }

  /**
   * `DeleteLine`: unless the line's content is read-only, the caret's line is
   * removed with its terminator and the caret goes to column 0 of the line
   * now at that index.  The last line has no terminator: deleting it leaves
   * an empty last line behind.
   */
  function DeleteLine(d: seq<Line>, caret: Pos, g: Guard): (r: LineEdit)
    requires ValidDoc(d) && caret.line < |d|
    ensures ValidDoc(r.doc)
    ensures var k := caret.line;
      if ReadOnlyRange(g, Offset(d, k), |d[k].content|) then r == LineEdit(d, caret)
      else
        && r.caret == Pos(0, k) && ValidPos(r.doc, r.caret) && ToOffset(r.doc, r.caret) == Offset(d, k)
        && DeletesBetween(d, r, Offset(d, k), Offset(d, k) + |Total(d[k])|)
        && r.doc == if k + 1 < |d| then d[..k] + d[k + 1..] else d[..k] + [Line("", "")]
  {
    var k := caret.line;
    if ReadOnlyRange(g, Offset(d, k), |d[k].content|) then LineEdit(d, caret)
    else if k + 1 < |d| then CutInnerLine(d, k)
    else ClearLastLine(d)
  }

  /** A line followed by another one goes with its delimiter. */
  function CutInnerLine(d: seq<Line>, k: nat): (r: LineEdit)
    requires ValidDoc(d) && k + 1 < |d|
    ensures ValidDoc(r.doc) && r.caret == Pos(0, k) && ValidPos(r.doc, r.caret) && ToOffset(r.doc, r.caret) == Offset(d, k)
    ensures DeletesBetween(d, r, Offset(d, k), Offset(d, k) + |Total(d[k])|)
    ensures r.doc == d[..k] + d[k + 1..]
  {
    OffsetNext(d, k);
    RemoveWholeLine(d, k);
    assert ToOffset(d, Pos(0, k + 1)) == Offset(d, k) + |Total(d[k])|;
    Cut(d, Pos(0, k), Pos(0, k + 1))
  }

  lemma RemoveWholeLine(d: seq<Line>, k: nat)
    requires k + 1 < |d|
    ensures RemoveRange(d, Pos(0, k), Pos(0, k + 1)) == d[..k] + d[k + 1..]
  {
    assert d[k].content[..0] + d[k + 1].content[0..] == d[k + 1].content;
    assert d[k + 1..] == [d[k + 1]] + d[k + 2..];
  }

  /** The last line has no delimiter: its content goes and an empty line stays. */
  function ClearLastLine(d: seq<Line>): (r: LineEdit)
    requires ValidDoc(d)
    ensures var k := |d| - 1;
      && ValidDoc(r.doc) && r.caret == Pos(0, k) && ValidPos(r.doc, r.caret) && ToOffset(r.doc, r.caret) == Offset(d, k)
      && DeletesBetween(d, r, Offset(d, k), Offset(d, k) + |Total(d[k])|)
      && r.doc == d[..k] + [Line("", "")]
  {
    var k := |d| - 1;
    OffsetNext(d, k);
    LastLineEndsText(d);
    var r := Cut(d, Pos(0, k), Pos(|d[k].content|, k));
    assert d[k].content[..0] + d[k].content[|d[k].content|..] == "";
    r
  }

  /** `DeleteToLineEnd`: the rest of the caret's line, unless empty or read-only, is removed; the caret stays. */
  function DeleteToLineEnd(d: seq<Line>, caret: Pos, g: Guard): (r: LineEdit)
    requires ValidDoc(d) && ValidPos(d, caret)
    ensures Wellformed(r) && r.caret == caret
    ensures var o := ToOffset(d, caret);
      var n := ContentEnd(d, caret.line) - o;
      if n > 0 && !ReadOnlyRange(g, o, n) then
        && DeletesBetween(d, r, o, ContentEnd(d, caret.line))
        && r.doc == d[caret.line := Line(d[caret.line].content[..caret.col], d[caret.line].delim)]
      else r == LineEdit(d, caret)
  {
    var o := ToOffset(d, caret);
    var k := caret.line;
    var n := ContentEnd(d, k) - o;
    if n > 0 && !ReadOnlyRange(g, o, n) then
      var r := Cut(d, caret, Pos(|d[k].content|, k));
      assert d[k].content[..caret.col] + d[k].content[|d[k].content|..] == d[k].content[..caret.col];
      assert r.doc == d[k := Line(d[k].content[..caret.col], d[k].delim)];
      r
    else LineEdit(d, caret)
  }

  // ---------------------------------------------------------------------
  // The actions, with `Delete.DeleteSelection` taking over when something is
  // selected.  The editor keeps at most one selection here.  The caret, and
  // the word boundary found from it, are read only when nothing is selected.

  function Backspace(d: seq<Line>, caret: Pos, sels: seq<Selection>, g: Guard): (r: LineEdit)
    requires ValidDoc(d) && ValidSelections(d, sels) && |sels| <= 1
    requires sels == [] ==> ValidPos(d, caret)
    ensures ValidDoc(r.doc)
    ensures ValidPos(d, caret) ==> Wellformed(r)
    ensures |sels| == 1 ==> r == DeleteSelection(d, caret, sels[0], g)
    ensures sels == [] ==> r == BackspaceAtCaret(d, caret, g)
  {
    if |sels| > 0 then DeleteSelection(d, caret, sels[0], g) else BackspaceAtCaret(d, caret, g)
  }

  function Delete(d: seq<Line>, caret: Pos, sels: seq<Selection>, g: Guard): (r: LineEdit)
    requires ValidDoc(d) && ValidSelections(d, sels) && |sels| <= 1
    requires sels == [] ==> ValidPos(d, caret)
    ensures ValidDoc(r.doc)
    ensures ValidPos(d, caret) ==> Wellformed(r)
    ensures |sels| == 1 ==> r == DeleteSelection(d, caret, sels[0], g)
    ensures sels == [] ==> r == DeleteAtCaret(d, caret, g)
  {
    if |sels| > 0 then DeleteSelection(d, caret, sels[0], g) else DeleteAtCaret(d, caret, g)
  }

  function WordBackspace(d: seq<Line>, caret: Pos, sels: seq<Selection>, g: Guard, prevWordStart: nat): (r: LineEdit)
    requires ValidDoc(d) && ValidSelections(d, sels) && |sels| <= 1
    requires sels == [] ==> ValidPos(d, caret) && Offset(d, caret.line) <= prevWordStart <= ToOffset(d, caret)
    ensures ValidDoc(r.doc)
    ensures ValidPos(d, caret) ==> Wellformed(r)
    ensures |sels| == 1 ==> r == DeleteSelection(d, caret, sels[0], g)
    ensures sels == [] ==> r == WordBackspaceAtCaret(d, caret, g, prevWordStart)
  {
    if |sels| > 0 then DeleteSelection(d, caret, sels[0], g) else WordBackspaceAtCaret(d, caret, g, prevWordStart)
  }

  function DeleteWord(d: seq<Line>, caret: Pos, sels: seq<Selection>, g: Guard, nextWordStart: nat): (r: LineEdit)
    requires ValidDoc(d) && ValidSelections(d, sels) && |sels| <= 1
    requires sels == [] ==> ValidPos(d, caret) && ToOffset(d, caret) <= nextWordStart <= ContentEnd(d, caret.line)
    ensures ValidDoc(r.doc)
    ensures ValidPos(d, caret) ==> Wellformed(r)
    ensures |sels| == 1 ==> r == DeleteSelection(d, caret, sels[0], g)
    ensures sels == [] ==> r == DeleteWordAtCaret(d, caret, g, nextWordStart)
  {
    if |sels| > 0 then DeleteSelection(d, caret, sels[0], g) else DeleteWordAtCaret(d, caret, g, nextWordStart)
  }

  // ---------------------------------------------------------------------
  // Lemmas

  /** Putting the removed text back where it was restores the text: every deletion can be undone. */
  lemma ReinsertUndoesDeletion(d: seq<Line>, r: LineEdit, a: nat, b: nat)
    requires DeletesBetween(d, r, a, b)
    ensures a <= |Text(r.doc)|
    ensures Insert(Text(r.doc), a, Text(d)[a..b]) == Text(d)
  {
    var t := Text(d);
    assert Text(r.doc) == t[..a] + t[b..];
    assert Text(r.doc)[..a] == t[..a];
    assert Text(r.doc)[a..] == t[b..];
    assert t[..a] + t[a..b] + t[b..] == t;
  }

  /**
   * `Delete` at a caret and `Backspace` one step to the right of it remove the
   * same text, when neither offset they test is read-only.
   */
  lemma DeleteIsBackspaceFromTheRight(d: seq<Line>, caret: Pos, g: Guard)
    requires ValidDoc(d) && ValidPos(d, caret) && ToOffset(d, caret) < Length(d)
    requires ValidPos(d, StepRight(d, caret, false))
    requires !ReadOnlyAt(g, ToOffset(d, caret)) && !ReadOnlyAt(g, ToOffset(d, StepRight(d, caret, false)) - 1)
    ensures DeleteAtCaret(d, caret, g).doc == BackspaceAtCaret(d, StepRight(d, caret, false), g).doc
  {
    var q := StepRight(d, caret, false);
    StepLeftUndoesStepRight(d, caret);
    DeleteCuts(d, caret, g);
    BackspaceCuts(d, q, g);
  }

  lemma StepLeftUndoesStepRight(d: seq<Line>, caret: Pos)
    requires ValidDoc(d) && ValidPos(d, caret) && ToOffset(d, caret) < Length(d)
    ensures StepRight(d, caret, false).line < |d| && StepLeft(d, StepRight(d, caret, false)) == caret
  {
    LastLineEndsText(d);
    if caret.col == |d[caret.line].content| {
      OffsetNext(d, caret.line);
    }
  }

  lemma DeleteCuts(d: seq<Line>, caret: Pos, g: Guard)
    requires ValidDoc(d) && ValidPos(d, caret) && ToOffset(d, caret) < Length(d) && !ReadOnlyAt(g, ToOffset(d, caret))
    ensures ValidPos(d, StepRight(d, caret, false)) && NotAfter(caret, StepRight(d, caret, false))
    ensures DeleteAtCaret(d, caret, g).doc == RemoveRange(d, caret, StepRight(d, caret, false))
  {
    LastLineEndsText(d);
  }

  lemma BackspaceCuts(d: seq<Line>, q: Pos, g: Guard)
    requires ValidDoc(d) && ValidPos(d, q) && ToOffset(d, q) > 0 && !ReadOnlyAt(g, ToOffset(d, q) - 1)
    ensures ValidPos(d, StepLeft(d, q)) && NotAfter(StepLeft(d, q), q)
    ensures BackspaceAtCaret(d, q, g).doc == RemoveRange(d, StepLeft(d, q), q)
  {
    FirstLineAtZero(d);
  }

  /** A second `DeleteToLineEnd` changes nothing. */
  lemma DeleteToLineEndIdempotent(d: seq<Line>, caret: Pos, g: Guard)
    requires ValidDoc(d) && ValidPos(d, caret)
    ensures var once := DeleteToLineEnd(d, caret, g);
      DeleteToLineEnd(once.doc, once.caret, g) == once
  {
    var once := DeleteToLineEnd(d, caret, g);
    var k := caret.line;
    if once.doc != d {
      assert |once.doc[k].content| == caret.col;
    }
  }
}
