/**
 * Horizontal caret movement: `CaretLeft`, `CaretRight`, `WordLeft`,
 * `WordRight`, with collapse-to-edge of a selection and jumps across
 * collapsed foldings.  Only logical positions are involved.
 */
module CaretActions {
  import opened Wrappers
  import opened Document
  import opened EditorState

  /** Foldings are well formed when no folding ends before it starts. */
  predicate WellFormedFoldings(fs: seq<FoldMarker>) {
    forall i :: 0 <= i < |fs| ==> !Before(fs[i].end, fs[i].start)
  }

  /** The index of the first folding, in iteration order, that satisfies `matches`. */
  function FindFirst(fs: seq<FoldMarker>, matches: FoldMarker -> bool, from: nat): (r: Option<nat>)
    requires from <= |fs|
    ensures r.Some? ==> from <= r.value < |fs| && matches(fs[r.value])
    ensures r.Some? ==> forall j :: from <= j < r.value ==> !matches(fs[j])
    ensures r.None? ==> forall j :: from <= j < |fs| ==> !matches(fs[j])
    decreases |fs| - from
  {
    if from == |fs| then None
    else if matches(fs[from]) then Some(from)
    else FindFirst(fs, matches, from + 1)
  }

  /** A collapsed folding whose end is exactly at `p` (`GetFoldedFoldingsWithEnd` filtered on the column). */
  predicate FoldedEndingAt(fm: FoldMarker, p: Pos) {
    fm.folded && fm.end == p
  }

  /** A collapsed folding whose start is exactly at `p`. */
  predicate FoldedStartingAt(fm: FoldMarker, p: Pos) {
    fm.folded && fm.start == p
  }

  /** No collapsed folding before index `i` ends at `p`. */
  predicate FirstEndingAt(fs: seq<FoldMarker>, p: Pos, i: nat)
    requires i <= |fs|
  {
    forall j :: 0 <= j < i ==> !FoldedEndingAt(fs[j], p)
  }

  /** No collapsed folding before index `i` starts at `p`. */
  predicate FirstStartingAt(fs: seq<FoldMarker>, p: Pos, i: nat)
    requires i <= |fs|
  {
    forall j :: 0 <= j < i ==> !FoldedStartingAt(fs[j], p)
  }

  /** A collapsed folding that `GetFoldingsFromPosition` reports for `p`. */
  predicate FoldedAround(fm: FoldMarker, p: Pos) {
    fm.folded && Inside(fm, p)
  }

  /**
   * `HandleCollapseToEdge`: with collapse-to-edge enabled and something
   * selected, the move is consumed by placing the caret on the first
   * selection's start (moving left) or end (moving right).
   */
  function CollapseToEdge(sels: seq<Selection>, collapsible: bool, left: bool): (r: Option<Pos>)
    ensures r.Some? <==> collapsible && |sels| > 0
    ensures r.Some? && left ==> r.value == sels[0].start
    ensures r.Some? && !left ==> r.value == sels[0].end
  {
    if collapsible && |sels| > 0 then Some(if left then sels[0].start else sels[0].end) else None
  }

  /** One step left without foldings: back one column, or to the end of the previous line. */
  function StepLeft(d: seq<Line>, p: Pos): (r: Pos)
    requires p.line < |d|
    ensures r.line < |d|
    ensures p == Pos(0, 0) <==> r == p
    ensures r != p ==> Before(r, p)
    ensures p.col > 0 ==> r == Pos(p.col - 1, p.line)
    ensures p.col == 0 && p.line > 0 ==> r == Pos(|d[p.line - 1].content|, p.line - 1)
  {
    if p.col > 0 then Pos(p.col - 1, p.line)
    else if p.line > 0 then Pos(|d[p.line - 1].content|, p.line - 1)
    else p
  }

  /** One step right without foldings: forward one column, or to the start of the next line. */
  function StepRight(d: seq<Line>, p: Pos, beyondEol: bool): (r: Pos)
    requires p.line < |d|
    ensures r.line < |d|
    ensures r == p <==> !beyondEol && p.col >= |d[p.line].content| && p.line == |d| - 1
    ensures r != p ==> Before(p, r)
    ensures p.col < |d[p.line].content| || beyondEol ==> r == Pos(p.col + 1, p.line)
    ensures !beyondEol && p.col >= |d[p.line].content| && p.line + 1 < |d| ==> r == Pos(0, p.line + 1)
  {
    if p.col < |d[p.line].content| || beyondEol then Pos(p.col + 1, p.line)
    else if p.line + 1 < |d| then Pos(0, p.line + 1)
    else p
  }

  /**
   * `CaretLeft`: collapse to the selection's start; else jump to the start of
   * the first collapsed folding that ends at the caret; else one step left.
   */
  function CaretLeft(d: seq<Line>, caret: Pos, sels: seq<Selection>, collapsible: bool, fs: seq<FoldMarker>): (r: Pos)
    requires caret.line < |d|
    ensures collapsible && |sels| > 0 ==> r == sels[0].start
    ensures !(collapsible && |sels| > 0) ==>
      forall i :: 0 <= i < |fs| && FoldedEndingAt(fs[i], caret) && FirstEndingAt(fs, caret, i) ==> r == fs[i].start
    ensures !(collapsible && |sels| > 0) && (forall i :: 0 <= i < |fs| ==> !FoldedEndingAt(fs[i], caret)) ==>
      r == StepLeft(d, caret)
    ensures !(collapsible && |sels| > 0) && WellFormedFoldings(fs) ==> r == caret || Before(r, caret)
  {
    match CollapseToEdge(sels, collapsible, true)
    case Some(target) => target
    case None =>
      match FindFirst(fs, fm => FoldedEndingAt(fm, caret), 0)
      case Some(i) => fs[i].start
      case None => StepLeft(d, caret)
  }

  /**
   * `CaretRight`: collapse to the selection's end; else jump to the end of
   * the first collapsed folding that starts at the caret; else one step right.
   */
  function CaretRight(d: seq<Line>, caret: Pos, sels: seq<Selection>, collapsible: bool, fs: seq<FoldMarker>, beyondEol: bool): (r: Pos)
    requires caret.line < |d|
    ensures collapsible && |sels| > 0 ==> r == sels[0].end
    ensures !(collapsible && |sels| > 0) ==>
      forall i :: 0 <= i < |fs| && FoldedStartingAt(fs[i], caret) && FirstStartingAt(fs, caret, i) ==> r == fs[i].end
    ensures !(collapsible && |sels| > 0) && (forall i :: 0 <= i < |fs| ==> !FoldedStartingAt(fs[i], caret)) ==>
      r == StepRight(d, caret, beyondEol)
    ensures !(collapsible && |sels| > 0) && WellFormedFoldings(fs) ==> r == caret || Before(caret, r)
  {
    match CollapseToEdge(sels, collapsible, false)
    case Some(target) => target
    case None =>
      match FindFirst(fs, fm => FoldedStartingAt(fm, caret), 0)
      case Some(i) => fs[i].end
      case None => StepRight(d, caret, beyondEol)
  }

  /** The collapsed folding, if any, that the first match of `GetFoldingsFromPosition` gives for `p`. */
  function FoldAround(fs: seq<FoldMarker>, p: Pos): (r: Option<nat>)
    ensures r.Some? ==> r.value < |fs| && FoldedAround(fs[r.value], p)
    ensures r.Some? ==> forall j :: 0 <= j < r.value ==> !FoldedAround(fs[j], p)
    ensures r.None? ==> forall j :: 0 <= j < |fs| ==> !FoldedAround(fs[j], p)
  {
    FindFirst(fs, fm => FoldedAround(fm, p), 0)
  }

  /** The position `OffsetToPosition` gives for an offset at or after the caret is not before the caret. */
  lemma OffsetToPosNotBefore(d: seq<Line>, p: Pos, o: nat)
    requires ValidDoc(d) && ValidPos(d, p) && ToOffset(d, p) <= o
    ensures !Before(OffsetToPos(d, o), p)
  {
    var r := OffsetToPos(d, o);
    if r.line < p.line {
      OffsetMonotone(d, r.line + 1, p.line);
    }
  }

  /** The position `OffsetToPosition` gives for an offset at or before the caret is not after the caret. */
  lemma OffsetToPosNotAfter(d: seq<Line>, p: Pos, o: nat)
    requires ValidDoc(d) && ValidPos(d, p) && o <= ToOffset(d, p)
    ensures !Before(p, OffsetToPos(d, o))
  {
    var r := OffsetToPos(d, o);
    if p.line < r.line {
      OffsetMonotone(d, p.line + 1, r.line);
      if p.line < |d| - 1 {
        ContentEndBeforeNext(d, p.line);
      }
    }
  }

  /**
   * Where `WordRight` goes before foldings are considered: the start of the
   * next line when the caret is at or beyond the end of its line, otherwise
   * the position of the scanner's word end `wordEnd`.
   */
  function WordRightTarget(d: seq<Line>, caret: Pos, wordEnd: nat): (r: Pos)
    requires ValidDoc(d) && caret.line < |d|
    requires caret.col < |d[caret.line].content| ==> Offset(d, caret.line) + caret.col <= wordEnd
    ensures caret.col >= |d[caret.line].content| ==> r == Pos(0, caret.line + 1)
    ensures caret.col < |d[caret.line].content| ==> r.line < |d| && Offset(d, r.line) + r.col == wordEnd
    ensures !Before(r, caret)
  {
    if caret.col >= |d[caret.line].content| then Pos(0, caret.line + 1)
    else
      OffsetToPosNotBefore(d, caret, wordEnd);
      OffsetToPos(d, wordEnd)
  }

  /**
   * `WordRight`: a target inside a collapsed folding snaps to that folding's
   * end when the caret stood on its start, and to its start otherwise.
   */
  function WordRight(d: seq<Line>, caret: Pos, fs: seq<FoldMarker>, wordEnd: nat): (r: Pos)
    requires ValidDoc(d) && caret.line < |d|
    requires caret.col < |d[caret.line].content| ==> Offset(d, caret.line) + caret.col <= wordEnd
    ensures var t := WordRightTarget(d, caret, wordEnd);
      match FoldAround(fs, t)
      case None => r == t
      case Some(i) => (r == fs[i].end <==> caret == fs[i].start) && (r == fs[i].end || r == fs[i].start)
  {
    var target := WordRightTarget(d, caret, wordEnd);
    match FoldAround(fs, target)
    case Some(i) => if caret == fs[i].start then fs[i].end else fs[i].start
    case None => target
  }

  /**
   * `WordLeft`: at column 0 it is a plain `CaretLeft` (no collapse to edge);
   * otherwise it goes to the scanner's previous word start `prevWordStart`,
   * snapping out of a collapsed folding to its start when the caret stood on
   * its end and to its end otherwise.
   */
  function WordLeft(d: seq<Line>, caret: Pos, fs: seq<FoldMarker>, prevWordStart: nat): (r: Pos)
    requires ValidDoc(d) && ValidPos(d, caret)
    requires prevWordStart <= ToOffset(d, caret)
    ensures caret.col == 0 ==> r == CaretLeft(d, caret, [], false, fs)
    ensures caret.col != 0 ==> var t := OffsetToPos(d, prevWordStart);
      && Offset(d, t.line) + t.col == prevWordStart && !Before(caret, t)
      && match FoldAround(fs, t)
         case None => r == t
         case Some(i) => (r == fs[i].start <==> caret == fs[i].end) && (r == fs[i].end || r == fs[i].start)
  {
    if caret.col == 0 then CaretLeft(d, caret, [], false, fs)
    else
      var target := OffsetToPos(d, prevWordStart);
      OffsetToPosNotAfter(d, caret, prevWordStart);
      match FoldAround(fs, target)
      case Some(i) => if caret == fs[i].end then fs[i].start else fs[i].end
      case None => target
  }

  predicate NoFoldedFoldings(fs: seq<FoldMarker>) {
    forall i :: 0 <= i < |fs| ==> !fs[i].folded
  }

  /** Without foldings, a step right followed by a step left returns to the start, except at the end of the text. */
  lemma CaretRightThenLeft(d: seq<Line>, p: Pos, fs: seq<FoldMarker>)
    requires ValidDoc(d) && ValidPos(d, p) && NoFoldedFoldings(fs)
    requires p.col < |d[p.line].content| || p.line < |d| - 1
    ensures CaretLeft(d, CaretRight(d, p, [], false, fs, false), [], false, fs) == p
  {
    var q := CaretRight(d, p, [], false, fs, false);
    assert q == StepRight(d, p, false);
    assert CaretLeft(d, q, [], false, fs) == StepLeft(d, q);
  }

  /** Without foldings, a step left followed by a step right returns to the start, except at the start of the text. */
  lemma CaretLeftThenRight(d: seq<Line>, p: Pos, fs: seq<FoldMarker>)
    requires ValidDoc(d) && ValidPos(d, p) && NoFoldedFoldings(fs)
    requires p != Pos(0, 0)
    ensures CaretRight(d, CaretLeft(d, p, [], false, fs), [], false, fs, false) == p
  {
    var q := CaretLeft(d, p, [], false, fs);
    assert q == StepLeft(d, p);
    assert CaretRight(d, q, [], false, fs, false) == StepRight(d, q, false);
  }

  /** A plain step right advances the offset by one character, or over the line terminator at the end of a line. */
  lemma CaretRightOffset(d: seq<Line>, p: Pos, fs: seq<FoldMarker>)
    requires ValidDoc(d) && ValidPos(d, p) && NoFoldedFoldings(fs)
    requires p.col < |d[p.line].content| || p.line < |d| - 1
    ensures var q := CaretRight(d, p, [], false, fs, false);
      ValidPos(d, q)
      && ToOffset(d, q) == ToOffset(d, p) + (if p.col < |d[p.line].content| then 1 else |d[p.line].delim|)
  {
    var q := CaretRight(d, p, [], false, fs, false);
    assert q == StepRight(d, p, false);
    OffsetNext(d, p.line);
  }

  /** A plain step left moves the offset back by one character, or over the previous line's terminator at a line start. */
  lemma CaretLeftOffset(d: seq<Line>, p: Pos, fs: seq<FoldMarker>)
    requires ValidDoc(d) && ValidPos(d, p) && NoFoldedFoldings(fs)
    requires p != Pos(0, 0)
    ensures var q := CaretLeft(d, p, [], false, fs);
      ValidPos(d, q)
      && ToOffset(d, q) + (if p.col > 0 then 1 else |d[p.line - 1].delim|) == ToOffset(d, p)
  {
    var q := CaretLeft(d, p, [], false, fs);
    assert q == StepLeft(d, p);
    if p.col == 0 {
      OffsetNext(d, p.line - 1);
    }
  }

  /**
   * Jumping left across a collapsed folding and then right again returns to
   * the caret, when that folding is also the first collapsed one starting
   * where it starts.
   */
  lemma FoldJumpRoundTrip(d: seq<Line>, caret: Pos, fs: seq<FoldMarker>, i: nat)
    requires caret.line < |d| && i < |fs|
    requires FoldedEndingAt(fs[i], caret) && fs[i].start.line < |d|
    requires forall j :: 0 <= j < i ==> !FoldedEndingAt(fs[j], caret)
    requires forall j :: 0 <= j < i ==> !FoldedStartingAt(fs[j], fs[i].start)
    ensures CaretLeft(d, caret, [], false, fs) == fs[i].start
    ensures CaretRight(d, fs[i].start, [], false, fs, false) == caret
  {
    var l := FindFirst(fs, fm => FoldedEndingAt(fm, caret), 0);
    assert l == Some(i);
    var r := FindFirst(fs, fm => FoldedStartingAt(fm, fs[i].start), 0);
    assert r == Some(i);
  }

  /**
   * `WordRight` has no bound check on the last line: at the end of the last
   * line its target is the start of a line that does not exist.
   */
  lemma WordRightPastLastLine(d: seq<Line>, fs: seq<FoldMarker>, wordEnd: nat)
    requires ValidDoc(d) && NoFoldedFoldings(fs)
    ensures var caret := Pos(|d[|d| - 1].content|, |d| - 1);
      WordRight(d, caret, fs, wordEnd) == Pos(0, |d|) && !ValidPos(d, WordRight(d, caret, fs, wordEnd))
  {
    var caret := Pos(|d[|d| - 1].content|, |d| - 1);
    var t := WordRightTarget(d, caret, wordEnd);
    assert forall j :: 0 <= j < |fs| ==> !FoldedAround(fs[j], t);
  }

  /**
   * From a caret that is not hidden inside a collapsed folding, `WordRight`
   * never moves backwards, and where it snapped out of a folding it lands on
   * one of that folding's edges, never strictly inside it.
   */
  lemma WordRightForward(d: seq<Line>, caret: Pos, fs: seq<FoldMarker>, wordEnd: nat)
    requires ValidDoc(d) && caret.line < |d|
    requires caret.col < |d[caret.line].content| ==> Offset(d, caret.line) + caret.col <= wordEnd
    requires forall i :: 0 <= i < |fs| ==> !FoldedAround(fs[i], caret)
    ensures !Before(WordRight(d, caret, fs, wordEnd), caret)
    ensures var t := WordRightTarget(d, caret, wordEnd);
      FoldAround(fs, t).Some? ==> !Inside(fs[FoldAround(fs, t).value], WordRight(d, caret, fs, wordEnd))
  {
    var t := WordRightTarget(d, caret, wordEnd);
    match FoldAround(fs, t)
    case None =>
    case Some(i) =>
      assert !FoldedAround(fs[i], caret);
  }

  /**
   * The mirror of `WordRightForward`: with well-formed foldings and a caret
   * not hidden inside a collapsed one, `WordLeft` never moves forwards, and
   * never lands strictly inside the folding it snapped out of.
   */
  lemma WordLeftBackward(d: seq<Line>, caret: Pos, fs: seq<FoldMarker>, prevWordStart: nat)
    requires ValidDoc(d) && ValidPos(d, caret)
    requires prevWordStart <= ToOffset(d, caret)
    requires WellFormedFoldings(fs)
    requires forall i :: 0 <= i < |fs| ==> !FoldedAround(fs[i], caret)
    ensures !Before(caret, WordLeft(d, caret, fs, prevWordStart))
    ensures var t := OffsetToPos(d, prevWordStart);
      caret.col != 0 && FoldAround(fs, t).Some? ==> !Inside(fs[FoldAround(fs, t).value], WordLeft(d, caret, fs, prevWordStart))
  {
    if caret.col != 0 {
      var t := OffsetToPos(d, prevWordStart);
      match FoldAround(fs, t)
      case None =>
      case Some(i) =>
        assert !FoldedAround(fs[i], caret);
    }
  }
}
