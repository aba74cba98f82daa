/**
 * The editor state an action reads besides the text: selections, foldings and
 * the read-only policy.
 */
module EditorState {
  import opened Document

  /** A document and the caret after an edit. */
  datatype LineEdit = LineEdit(doc: seq<Line>, caret: Pos)

  /** A selected range between two logical positions. */
  datatype Selection = Selection(start: Pos, end: Pos)

  /** A folding: a region between two positions that is collapsed when `folded`. */
  datatype FoldMarker = FoldMarker(start: Pos, end: Pos, folded: bool)

  /**
   * The read-only policy: the whole document may be read-only, and single
   * offsets may be locked by read-only segments.
   */
  datatype Guard = Guard(docReadOnly: bool, locked: nat -> bool)

  predicate ValidSelection(d: seq<Line>, s: Selection) {
    ValidPos(d, s.start) && ValidPos(d, s.end) && ToOffset(d, s.start) <= ToOffset(d, s.end)
  }

  predicate ValidSelections(d: seq<Line>, sels: seq<Selection>) {
    forall i :: 0 <= i < |sels| ==> ValidSelection(d, sels[i])
  }

  /** `ISelection.Offset`. */
  function SelStart(d: seq<Line>, s: Selection): nat
    requires ValidSelection(d, s)
  {
    ToOffset(d, s.start)
  }

  /** `ISelection.EndOffset` (equal to `Offset + Length`). */
  function SelEnd(d: seq<Line>, s: Selection): nat
    requires ValidSelection(d, s)
  {
    ToOffset(d, s.end)
  }

  /** `TextArea.IsReadOnly(offset)`. */
  predicate ReadOnlyAt(g: Guard, o: nat) {
    g.docReadOnly || g.locked(o)
  }

  /** `TextArea.IsReadOnly(offset, length)`: some offset of the range is locked. */
  predicate ReadOnlyRange(g: Guard, o: nat, n: nat) {
    g.docReadOnly || exists k :: o <= k < o + n && g.locked(k)
  }

  /** `SelectionManager.SelectionIsReadonly`. */
  predicate SelectionReadOnly(g: Guard, d: seq<Line>, sels: seq<Selection>)
    requires ValidSelections(d, sels)
  {
    g.docReadOnly
    || exists i :: 0 <= i < |sels| && ReadOnlyRange(g, SelStart(d, sels[i]), SelEnd(d, sels[i]) - SelStart(d, sels[i]))
  }

  /** Document order on logical positions. */
  predicate Before(p: Pos, q: Pos) {
    p.line < q.line || (p.line == q.line && p.col < q.col)
  }

  /** A position strictly between a folding's endpoints. */
  predicate Inside(fm: FoldMarker, p: Pos) {
    Before(fm.start, p) && Before(p, fm.end)
  }
}
