/**
 * `Tab` and `ShiftTab`: inserting and removing one indentation unit at the
 * start of every selected line, or at the caret.
 */
module Indentation {
  import opened Wrappers
  import opened Document
  import opened EditorState
  import opened Strings

  /** The indentation settings of `TextEditorProperties`. */
  datatype Props = Props(convertTabsToSpaces: bool, indentationSize: nat)

  datatype CaretMode = InsertMode | OverwriteMode

  predicate AllSpaces(s: string) {
    forall k :: 0 <= k < |s| ==> s[k] == ' '
  }

  /** `GetIndentationString(document)`: the fixed unit used for block indentation. */
  function IndentUnit(props: Props): (r: string)
    ensures !props.convertTabsToSpaces ==> r == "\t"
    ensures props.convertTabsToSpaces ==> |r| == props.indentationSize && AllSpaces(r)
    ensures NoLineBreak(r)
  {
    if props.convertTabsToSpaces then Spaces(props.indentationSize) else "\t"
  }

  function Spaces(n: nat): (r: string)
    ensures |r| == n && AllSpaces(r)
  {
    if n == 0 then [] else Spaces(n - 1) + " "
  }

  /**
   * `GetIndentationString(document, textArea)`: at the caret, spaces reach
   * the next multiple of the indentation size after the caret's visual column.
   */
  function IndentUnitAt(props: Props, visualColumn: nat): (r: string)
    requires props.convertTabsToSpaces ==> props.indentationSize >= 1
    ensures !props.convertTabsToSpaces ==> r == "\t"
    ensures props.convertTabsToSpaces ==>
      && AllSpaces(r) && 1 <= |r| <= props.indentationSize
      && (visualColumn + |r|) % props.indentationSize == 0
    ensures NoLineBreak(r)
  {
    if props.convertTabsToSpaces then
      var size := props.indentationSize;
      var n := size - visualColumn % size;
      NextStop(visualColumn, size);
      Spaces(n)
    else "\t"
  }

  /** `PositionToOffset` for a position on an existing line. */
  function PositionToOffset(d: seq<Line>, p: Pos): nat
    requires p.line < |d|
  {
    Offset(d, p.line) + p.col
  }

  /** Whether line `k` takes part in a block (un)indent of `sel`: the last line is left out when the selection ends at its column 0. */
  predicate InBlock(sel: Selection, k: int) {
    sel.start.line <= k <= sel.end.line && !(k == sel.end.line && sel.end.col == 0)
  }

  predicate BlockSelection(d: seq<Line>, sel: Selection) {
    sel.start.line <= sel.end.line < |d|
  }

  // ---------------------------------------------------------------------
  // Tab

  /** The loop of `InsertTabs` from line `i` down to the selection's first line. */
  function InsertTabsDown(d: seq<Line>, sel: Selection, i: int, unit: string): (r: seq<Line>)
    requires BlockSelection(d, sel) && sel.start.line - 1 <= i <= sel.end.line
    ensures |r| == |d|
    ensures forall k :: 0 <= k < |d| ==>
      r[k] == if sel.start.line <= k <= i && InBlock(sel, k) then Line(unit + d[k].content, d[k].delim) else d[k]
    decreases i - sel.start.line + 1
  {
    if i < sel.start.line then d
    else
      var line := d[i];
      var d' := if i == sel.end.line && sel.end.col == 0 then d else d[i := Line(unit + line.content, line.delim)];
      InsertTabsDown(d', sel, i - 1, unit)
  }

  /** `InsertTabs`: the unit goes in front of every line of the block and nowhere else. */
  function InsertTabs(d: seq<Line>, sel: Selection, unit: string): (r: seq<Line>)
    requires BlockSelection(d, sel)
    ensures |r| == |d|
    ensures forall k :: 0 <= k < |d| ==>
      r[k] == if InBlock(sel, k) then Line(unit + d[k].content, d[k].delim) else d[k]
  {
    InsertTabsDown(d, sel, sel.end.line, unit)
  }

  /**
   * `InsertTabAtCaretPosition`: the unit is inserted at the caret (in
   * overwrite mode its first character replaces the character under the
   * caret, if any) and the caret moves past it.
   */
  function InsertTabAtCaret(d: seq<Line>, caret: Pos, mode: CaretMode, unit: string): (r: LineEdit)
    requires ValidPos(d, caret) && |unit| >= 1
    ensures |r.doc| == |d| && r.caret == Pos(caret.col + |unit|, caret.line)
    ensures forall k :: 0 <= k < |d| && k != caret.line ==> r.doc[k] == d[k]
    ensures var c := d[caret.line].content;
      var overwritten := if mode == OverwriteMode && caret.col < |c| then 1 else 0;
      r.doc[caret.line] == Line(c[..caret.col] + unit + c[caret.col + overwritten..], d[caret.line].delim)
  {
    var line := d[caret.line];
    var c := line.content;
    var content :=
      match mode
      case InsertMode => c[..caret.col] + unit + c[caret.col..]
      case OverwriteMode =>
        var replaced := if caret.col < |c| then c[..caret.col] + [unit[0]] + c[caret.col + 1..]
                        else c[..caret.col] + [unit[0]] + c[caret.col..];
        replaced[..caret.col + 1] + unit[1..] + replaced[caret.col + 1..];
    assert [unit[0]] + unit[1..] == unit;
    LineEdit(d[caret.line := Line(content, line.delim)], Pos(caret.col + |unit|, caret.line))
  }

  /** `unit` written `n` times. */
  function Repeat(unit: string, n: nat): (r: string)
    ensures |r| == n * |unit|
  {
    if n == 0 then [] else Repeat(unit, n - 1) + unit
  }

  /** Whether selection `sel` spans more than one line; `Tab` block-indents only those. */
  predicate MultiLine(sel: Selection) {
    sel.start.line != sel.end.line
  }

  /** Every selection from index `k` up to `m` spans several lines. */
  predicate MultiLineFrom(sels: seq<Selection>, k: nat, m: nat)
    requires k <= m <= |sels|
  {
    forall j :: k <= j < m ==> MultiLine(sels[j])
  }

  /** How many of the selections from index `k` up to `m` take line `i` into their block. */
  function BlockCount(sels: seq<Selection>, k: nat, m: nat, i: int): (n: nat)
    requires k <= m <= |sels|
    ensures n <= m - k
    decreases m - k
  {
    if k == m then 0 else (if InBlock(sels[k], i) then 1 else 0) + BlockCount(sels, k + 1, m, i)
  }

  /** The document after the selections from `k` up to `m` have each been block-indented once. */
  function Indented(d: seq<Line>, sels: seq<Selection>, k: nat, m: nat, unit: string): (r: seq<Line>)
    requires k <= m <= |sels|
    ensures |r| == |d|
    ensures forall i :: 0 <= i < |d| ==>
      r[i] == Line(Repeat(unit, BlockCount(sels, k, m, i)) + d[i].content, d[i].delim)
  {
    seq(|d|, i requires 0 <= i < |d| => Line(Repeat(unit, BlockCount(sels, k, m, i)) + d[i].content, d[i].delim))
  }

  /** `content` with `n` indentation units taken off its front, one `RemovalCount` at a time. */
  function StripUnits(content: string, n: nat, size: nat): string
  {
    if n == 0 then content else StripUnits(content[RemovalCount(content, size)..], n - 1, size)
  }

  /** The document after the selections from `k` on have each been unindented once. */
  function Unindented(d: seq<Line>, sels: seq<Selection>, k: nat, size: nat): (r: seq<Line>)
    requires k <= |sels|
    ensures |r| == |d|
    ensures forall i :: 0 <= i < |d| ==>
      r[i] == Line(StripUnits(d[i].content, BlockCount(sels, k, |sels|, i), size), d[i].delim)
  {
    seq(|d|, i requires 0 <= i < |d| => Line(StripUnits(d[i].content, BlockCount(sels, k, |sels|, i), size), d[i].delim))
  }

  /**
   * The index where the selection loop of `Tab` from `k` stops: the first
   * single-line selection, or `|sels|` when every one spans several lines.
   */
  function FirstSingleLine(sels: seq<Selection>, k: nat): (m: nat)
    requires k <= |sels|
    ensures k <= m <= |sels| && MultiLineFrom(sels, k, m)
    ensures m < |sels| ==> !MultiLine(sels[m])
    decreases |sels| - k
  {
    if k == |sels| || !MultiLine(sels[k]) then k else FirstSingleLine(sels, k + 1)
  }

  /** The loop stops at the first single-line selection and nowhere else. */
  lemma FirstSingleLineAt(sels: seq<Selection>, k: nat, m: nat)
    requires k <= m <= |sels| && MultiLineFrom(sels, k, m)
    requires m < |sels| ==> !MultiLine(sels[m])
    ensures FirstSingleLine(sels, k) == m
  {
  }

  /** The block part of the selection loop of `Tab`: selections `k` up to `m` are block-indented in turn. */
  function IndentBlocks(d: seq<Line>, sels: seq<Selection>, k: nat, m: nat, unit: string): (r: seq<Line>)
    requires ValidDoc(d) && NoLineBreak(unit) && k <= m <= |sels|
    requires forall j :: 0 <= j < |sels| ==> BlockSelection(d, sels[j])
    ensures ValidDoc(r) && |r| == |d|
    decreases m - k
  {
    if k == m then d
    else
      var d' := InsertTabs(d, sels[k], unit);
      IndentPreservesValid(d, sels[k], unit);
      forall j | 0 <= j < |sels| ensures BlockSelection(d', sels[j]) {
        assert BlockSelection(d, sels[j]);
      }
      IndentBlocks(d', sels, k + 1, m, unit)
  }

  /**
   * What the block part of the loop computes: each line gains one unit per
   * block, among selections `k` up to `m`, that takes it in.
   */
  lemma {:induction false} IndentBlocksIndents(d: seq<Line>, sels: seq<Selection>, k: nat, m: nat, unit: string)
    requires ValidDoc(d) && NoLineBreak(unit) && k <= m <= |sels|
    requires forall j :: 0 <= j < |sels| ==> BlockSelection(d, sels[j])
    ensures IndentBlocks(d, sels, k, m, unit) == Indented(d, sels, k, m, unit)
    decreases m - k
  {
    NothingIndented(d, sels, k, unit);
    if k < m {
      var d' := InsertTabs(d, sels[k], unit);
      IndentPreservesValid(d, sels[k], unit);
      forall j | 0 <= j < |sels| ensures BlockSelection(d', sels[j]) {
        assert BlockSelection(d, sels[j]);
      }
      IndentedStep(d, sels, k, m, unit);
      IndentBlocksIndents(d', sels, k + 1, m, unit);
    }
  }

  /** Block indentation only lengthens lines, so a caret inside its line stays inside it. */
  lemma {:induction false} IndentBlocksKeepPos(d: seq<Line>, sels: seq<Selection>, k: nat, m: nat, unit: string, caret: Pos)
    requires ValidDoc(d) && NoLineBreak(unit) && k <= m <= |sels|
    requires forall j :: 0 <= j < |sels| ==> BlockSelection(d, sels[j])
    requires ValidPos(d, caret)
    ensures ValidPos(IndentBlocks(d, sels, k, m, unit), caret)
    decreases m - k
  {
    if k < m {
      var d' := InsertTabs(d, sels[k], unit);
      IndentPreservesValid(d, sels[k], unit);
      IndentKeepsPos(d, sels[k], unit, caret);
      forall j | 0 <= j < |sels| ensures BlockSelection(d', sels[j]) {
        assert BlockSelection(d, sels[j]);
      }
      IndentBlocksKeepPos(d', sels, k + 1, m, unit, caret);
    }
  }

  /**
   * The document `Tab.Execute` leaves after its selection loop has stopped at
   * `m`: the multi-line selections before `m` indented, then the insertion at
   * the caret when `m` is a single-line selection.
   */
  function TabStoppedAt(d: seq<Line>, caret: Pos, mode: CaretMode, sels: seq<Selection>,
                        props: Props, visualColumn: nat, m: nat): (r: LineEdit)
    requires ValidDoc(d) && caret.line < |d| && ValidSelections(d, sels)
    requires m <= |sels| && MultiLineFrom(sels, 0, m)
    requires m < |sels| ==> ValidPos(d, caret) && (props.convertTabsToSpaces ==> props.indentationSize >= 1)
    ensures ValidDoc(r.doc) && |r.doc| == |d|
    ensures m < |sels| ==> ValidPos(Indented(d, sels, 0, m, IndentUnit(props)), caret)
    ensures m < |sels| ==> r == InsertTabAtCaret(Indented(d, sels, 0, m, IndentUnit(props)), caret, mode, IndentUnitAt(props, visualColumn))
    ensures m == |sels| ==> r == LineEdit(Indented(d, sels, 0, m, IndentUnit(props)), caret)
  {
    assert forall j :: 0 <= j < |sels| ==> BlockSelection(d, sels[j]) by {
      forall j | 0 <= j < |sels| ensures BlockSelection(d, sels[j]) {
        SelectionLinesOrdered(d, sels[j]);
      }
    }
    var unit := IndentUnit(props);
    var d' := IndentBlocks(d, sels, 0, m, unit);
    IndentBlocksIndents(d, sels, 0, m, unit);
    if m < |sels| then
      IndentBlocksKeepPos(d, sels, 0, m, unit, caret);
      InsertAtCaretPreservesValid(d', caret, mode, IndentUnitAt(props, visualColumn));
      InsertTabAtCaret(d', caret, mode, IndentUnitAt(props, visualColumn))
    else
      LineEdit(d', caret)
  }

  /**
   * The selection branch of `Tab.Execute`: indent every multi-line selection
   * in order until the first single-line one, which instead gets the
   * insertion at the caret and ends the loop.
   */
  function TabOverSelections(d: seq<Line>, caret: Pos, mode: CaretMode, sels: seq<Selection>,
                             props: Props, visualColumn: nat): (r: LineEdit)
    requires ValidDoc(d) && caret.line < |d| && ValidSelections(d, sels) && sels != []
    requires forall m :: 0 <= m < |sels| && !MultiLine(sels[m]) ==> ValidPos(d, caret) && (props.convertTabsToSpaces ==> props.indentationSize >= 1)
    ensures ValidDoc(r.doc) && |r.doc| == |d|
    ensures MultiLineFrom(sels, 0, |sels|) ==> r == LineEdit(Indented(d, sels, 0, |sels|, IndentUnit(props)), caret)
    ensures forall m :: 0 <= m < |sels| && !MultiLine(sels[m]) && MultiLineFrom(sels, 0, m) ==>
      && ValidPos(Indented(d, sels, 0, m, IndentUnit(props)), caret)
      && r == InsertTabAtCaret(Indented(d, sels, 0, m, IndentUnit(props)), caret, mode, IndentUnitAt(props, visualColumn))
    ensures |sels| == 1 && MultiLine(sels[0]) ==>
      BlockSelection(d, sels[0]) && r == LineEdit(InsertTabs(d, sels[0], IndentUnit(props)), caret)
  {
    var m := FirstSingleLine(sels, 0);
    forall m' | 0 <= m' < |sels| && !MultiLine(sels[m']) && MultiLineFrom(sels, 0, m') ensures m' == m {
      FirstSingleLineAt(sels, 0, m');
    }
    if m == |sels| && |sels| == 1 then
      SelectionLinesOrdered(d, sels[0]);
      SingleBlockIndented(d, sels, IndentUnit(props));
      TabStoppedAt(d, caret, mode, sels, props, visualColumn, m)
    else
      TabStoppedAt(d, caret, mode, sels, props, visualColumn, m)
  }

  /**
   * `Tab.Execute`.  The caret's visual column (which depends on tab expansion
   * in the view) is a parameter.  The caret, and the indentation size as a
   * divisor, are used only when the insertion at the caret runs: with nothing
   * selected, or when a single-line selection stops the loop.
   */
  function Tab(d: seq<Line>, caret: Pos, mode: CaretMode, sels: seq<Selection>, g: Guard,
               props: Props, visualColumn: nat): (r: LineEdit)
    requires ValidDoc(d) && caret.line < |d| && ValidSelections(d, sels)
    requires sels == [] ==> ValidPos(d, caret) && (props.convertTabsToSpaces ==> props.indentationSize >= 1)
    requires forall m :: 0 <= m < |sels| && !MultiLine(sels[m]) ==> ValidPos(d, caret) && (props.convertTabsToSpaces ==> props.indentationSize >= 1)
    ensures SelectionReadOnly(g, d, sels) ==> r == LineEdit(d, caret)
    ensures ValidDoc(r.doc) && |r.doc| == |d|
    ensures !SelectionReadOnly(g, d, sels) && sels == [] ==>
      r == InsertTabAtCaret(d, caret, mode, IndentUnitAt(props, visualColumn))
    ensures !SelectionReadOnly(g, d, sels) && sels != [] && MultiLineFrom(sels, 0, |sels|) ==>
      r == LineEdit(Indented(d, sels, 0, |sels|, IndentUnit(props)), caret)
    ensures !SelectionReadOnly(g, d, sels) ==>
      forall m :: 0 <= m < |sels| && !MultiLine(sels[m]) && MultiLineFrom(sels, 0, m) ==>
        && ValidPos(Indented(d, sels, 0, m, IndentUnit(props)), caret)
        && r == InsertTabAtCaret(Indented(d, sels, 0, m, IndentUnit(props)), caret, mode, IndentUnitAt(props, visualColumn))
    ensures !SelectionReadOnly(g, d, sels) && |sels| == 1 && MultiLine(sels[0]) ==>
      BlockSelection(d, sels[0]) && r == LineEdit(InsertTabs(d, sels[0], IndentUnit(props)), caret)
  {
    if SelectionReadOnly(g, d, sels) then LineEdit(d, caret)
    else if sels != [] then TabOverSelections(d, caret, mode, sels, props, visualColumn)
    else
      InsertAtCaretPreservesValid(d, caret, mode, IndentUnitAt(props, visualColumn));
      InsertTabAtCaret(d, caret, mode, IndentUnitAt(props, visualColumn))
  }

  // ---------------------------------------------------------------------
  // ShiftTab

  /**
   * How many characters `RemoveTabs` takes off the front of a line: a leading
   * tab; or a full indentation of spaces; or fewer spaces together with the
   * tab after them; or just the leading spaces.
   */
  function RemovalCount(c: string, size: nat): (n: nat)
    ensures n <= |c|
    ensures forall k :: 0 <= k < n ==> c[k] == ' ' || c[k] == '\t'
    ensures c == [] || (c[0] != ' ' && c[0] != '\t') ==> n == 0
    ensures |c| > 0 && c[0] == '\t' ==> n == 1
    ensures |c| > 0 && c[0] == ' ' ==>
      var spaces := LeadingSpaces(c);
      n == if spaces >= size then size
           else if spaces < |c| && c[spaces] == '\t' then spaces + 1
           else spaces
  {
    if |c| == 0 then 0
    else if c[0] == '\t' then 1
    else if c[0] == ' ' then
      var spaces := LeadingSpaces(c);
      if spaces >= size then size
      else if |c| > spaces && c[spaces] == '\t' then spaces + 1
      else spaces
    else 0
  }

  /** The loop of `RemoveTabs` from line `i` down to the selection's first line. */
  function RemoveTabsDown(d: seq<Line>, sel: Selection, i: int, size: nat): (r: seq<Line>)
    requires BlockSelection(d, sel) && sel.start.line - 1 <= i <= sel.end.line
    ensures |r| == |d|
    ensures forall k :: 0 <= k < |d| ==>
      r[k] == if sel.start.line <= k <= i && InBlock(sel, k)
              then Line(d[k].content[RemovalCount(d[k].content, size)..], d[k].delim) else d[k]
    decreases i - sel.start.line + 1
  {
    if i < sel.start.line then d
    else
      var line := d[i];
      var skip := i == sel.end.line && Offset(d, i) == PositionToOffset(d, sel.end);
      var n := RemovalCount(line.content, size);
      var d' := if skip || n == 0 then d else d[i := Line(line.content[n..], line.delim)];
      assert n == 0 ==> line.content[n..] == line.content;
      RemoveTabsDown(d', sel, i - 1, size)
  }

  /** `RemoveTabs`: every line of the block loses its leading indentation unit, and nothing else changes. */
  function RemoveTabs(d: seq<Line>, sel: Selection, size: nat): (r: seq<Line>)
    requires BlockSelection(d, sel)
    ensures |r| == |d|
    ensures forall k :: 0 <= k < |d| ==>
      r[k] == if InBlock(sel, k) then Line(d[k].content[RemovalCount(d[k].content, size)..], d[k].delim) else d[k]
  {
    RemoveTabsDown(d, sel, sel.end.line, size)
  }

  /** The selection loop of `ShiftTab`. */
  function ShiftTabSelections(d: seq<Line>, sels: seq<Selection>, k: nat, size: nat): (r: seq<Line>)
    requires ValidDoc(d) && k <= |sels|
    requires forall j :: 0 <= j < |sels| ==> BlockSelection(d, sels[j])
    ensures ValidDoc(r) && |r| == |d|
    ensures r == Unindented(d, sels, k, size)
    decreases |sels| - k
  {
    if k == |sels| then
      assert Unindented(d, sels, k, size) == d;
      d
    else
      var d' := RemoveTabs(d, sels[k], size);
      UnindentPreservesValid(d, sels[k], size);
      forall j | 0 <= j < |sels| ensures BlockSelection(d', sels[j]) {
        assert BlockSelection(d, sels[j]);
      }
      UnindentedStep(d, sels, k, size);
      ShiftTabSelections(d', sels, k + 1, size)
  }

  /**
   * The column `ShiftTab` moves the caret back to when nothing is selected:
   * the previous multiple of the indentation size, stopping at column 0.
   */
  function ShiftTabColumn(col: nat, size: nat): (r: nat)
    requires size >= 1
    ensures r % size == 0 && r <= col
    ensures col == 0 ==> r == 0
    ensures col > 0 ==> r < col && col - r <= size
  {
    var remainder := col % size;
    PreviousStop(col, size);
    if remainder == 0 then (if col >= size then col - size else 0)
    else col - remainder
  }

  /** What `ShiftTab` produces: the new document, and with nothing selected the caret's new desired column. */
  datatype ShiftTabResult = ShiftTabResult(doc: seq<Line>, desiredColumn: Option<nat>)

  /** `ShiftTab.Execute`. */
  function ShiftTab(d: seq<Line>, caret: Pos, sels: seq<Selection>, size: nat): (r: ShiftTabResult)
    requires ValidDoc(d) && ValidSelections(d, sels)
    requires sels == [] ==> size >= 1
    ensures ValidDoc(r.doc) && |r.doc| == |d|
    ensures sels == [] ==> r.doc == d && r.desiredColumn == Some(ShiftTabColumn(caret.col, size))
    ensures sels != [] ==> r.desiredColumn.None?
    ensures sels != [] ==> r.doc == Unindented(d, sels, 0, size)
    ensures |sels| == 1 ==> BlockSelection(d, sels[0]) && r.doc == RemoveTabs(d, sels[0], size)
  {
    if |sels| > 0 then
      assert forall j :: 0 <= j < |sels| ==> BlockSelection(d, sels[j]) by {
        forall j | 0 <= j < |sels| ensures BlockSelection(d, sels[j]) {
          SelectionLinesOrdered(d, sels[j]);
        }
      }
      if |sels| == 1 then
        SingleBlockUnindented(d, sels, size);
        ShiftTabResult(ShiftTabSelections(d, sels, 0, size), None)
      else
        ShiftTabResult(ShiftTabSelections(d, sels, 0, size), None)
    else
      ShiftTabResult(d, Some(ShiftTabColumn(caret.col, size)))
  }

  // ---------------------------------------------------------------------
  // Lemmas

  lemma MulNonNeg(a: int, b: int)
    requires a >= 0 && b >= 0
    ensures a * b >= 0
  {
  }

  lemma MulGap(a: int, b: int, size: int)
    requires size >= 1
    ensures a < b ==> a * size + size <= b * size
  {
    if a < b {
      var k := b - a - 1;
      MulNonNeg(k, size);
      assert b * size == a * size + k * size + size;
    }
  }

  /** Division with remainder is unique. */
  lemma ModUnique(x: int, size: int, q: int, r: int)
    requires size >= 1 && x == q * size + r && 0 <= r < size
    ensures x % size == r
  {
    MulGap(q, x / size, size);
    MulGap(x / size, q, size);
  }

  lemma NextStop(col: nat, size: nat)
    requires size >= 1
    ensures (col + (size - col % size)) % size == 0
  {
    var q := col / size;
    assert col + (size - col % size) == (q + 1) * size;
    ModUnique(col + (size - col % size), size, q + 1, 0);
  }

  lemma PreviousStop(col: nat, size: nat)
    requires size >= 1
    ensures (col - col % size) % size == 0
    ensures col % size == 0 && col >= size ==> (col - size) % size == 0
  {
    var q := col / size;
    assert col - col % size == q * size;
    ModUnique(col - col % size, size, q, 0);
    if col % size == 0 && col >= size {
      assert col - size == (q - 1) * size;
      ModUnique(col - size, size, q - 1, 0);
    }
  }

  /** A selection that is ordered by offset is ordered by line. */
  lemma SelectionLinesOrdered(d: seq<Line>, sel: Selection)
    requires ValidDoc(d) && ValidSelection(d, sel)
    ensures BlockSelection(d, sel)
  {
    if sel.end.line < sel.start.line {
      OffsetMonotone(d, sel.end.line + 1, sel.start.line);
      ContentEndBeforeNext(d, sel.end.line);
    }
  }

  lemma IndentPreservesValid(d: seq<Line>, sel: Selection, unit: string)
    requires ValidDoc(d) && BlockSelection(d, sel) && NoLineBreak(unit)
    ensures ValidDoc(InsertTabs(d, sel, unit))
  {
    forall k | 0 <= k < |d| {
      NoLineBreakConcat(unit, d[k].content);
    }
  }

  lemma UnindentPreservesValid(d: seq<Line>, sel: Selection, size: nat)
    requires ValidDoc(d) && BlockSelection(d, sel)
    ensures ValidDoc(RemoveTabs(d, sel, size))
  {
    var r := RemoveTabs(d, sel, size);
    forall i | 0 <= i < |d| ensures NoLineBreak(r[i].content) && r[i].delim == d[i].delim {
      if InBlock(sel, i) {
        NoLineBreakSuffix(d[i].content, RemovalCount(d[i].content, size));
      }
    }
  }

  lemma NoLineBreakSuffix(c: string, n: nat)
    requires NoLineBreak(c) && n <= |c|
    ensures NoLineBreak(c[n..])
  {
    assert forall j :: 0 <= j < |c[n..]| ==> c[n..][j] == c[n + j];
  }

  lemma InsertAtCaretPreservesValid(d: seq<Line>, caret: Pos, mode: CaretMode, unit: string)
    requires ValidDoc(d) && ValidPos(d, caret) && |unit| >= 1 && NoLineBreak(unit)
    ensures ValidDoc(InsertTabAtCaret(d, caret, mode, unit).doc)
  {
    var c := d[caret.line].content;
    var m := if mode == OverwriteMode && caret.col < |c| then 1 else 0;
    NoLineBreakConcat(c[..caret.col], unit);
    NoLineBreakConcat(c[..caret.col] + unit, c[caret.col + m..]);
  }

  /** `ShiftTab` undoes `Tab` on a block: every indented line loses exactly the unit it gained. */
  lemma {:induction false} UnindentUndoesIndent(d: seq<Line>, sel: Selection, props: Props)
    requires BlockSelection(d, sel)
    requires props.convertTabsToSpaces ==> props.indentationSize >= 1
    ensures RemoveTabs(InsertTabs(d, sel, IndentUnit(props)), sel, props.indentationSize) == d
  {
    var unit := IndentUnit(props);
    var d' := InsertTabs(d, sel, unit);
    var r := RemoveTabs(d', sel, props.indentationSize);
    forall k | 0 <= k < |d|
      ensures r[k] == d[k]
    {
      if InBlock(sel, k) {
        UnitRemovalCount(unit + d[k].content, d[k].content, props);
      }
    }
  }

  /** Unindenting a line that starts with the block unit removes exactly that unit. */
  lemma UnitRemovalCount(s: string, rest: string, props: Props)
    requires props.convertTabsToSpaces ==> props.indentationSize >= 1
    requires s == IndentUnit(props) + rest
    ensures RemovalCount(s, props.indentationSize) == |IndentUnit(props)|
    ensures s[|IndentUnit(props)|..] == rest
  {
    var unit := IndentUnit(props);
    if props.convertTabsToSpaces {
      assert s[0] == unit[0] == ' ';
      assert LeadingSpaces(s) >= props.indentationSize;
    } else {
      assert s[0] == '\t';
    }
  }

  /** Indenting a block only lengthens lines, so a caret inside its line stays inside it. */
  lemma IndentKeepsPos(d: seq<Line>, sel: Selection, unit: string, caret: Pos)
    requires BlockSelection(d, sel) && ValidPos(d, caret)
    ensures ValidPos(InsertTabs(d, sel, unit), caret)
  {
  }

  lemma NothingIndented(d: seq<Line>, sels: seq<Selection>, k: nat, unit: string)
    requires k <= |sels|
    ensures Indented(d, sels, k, k, unit) == d
  {
    var r := Indented(d, sels, k, k, unit);
    forall i | 0 <= i < |d| ensures r[i] == d[i] {
      assert [] + d[i].content == d[i].content;
    }
  }

  /** Indenting selection `k` and then the ones after it is indenting them all from `k`. */
  lemma IndentedStep(d: seq<Line>, sels: seq<Selection>, k: nat, m: nat, unit: string)
    requires k < m <= |sels| && BlockSelection(d, sels[k])
    ensures Indented(InsertTabs(d, sels[k], unit), sels, k + 1, m, unit) == Indented(d, sels, k, m, unit)
  {
    var d' := InsertTabs(d, sels[k], unit);
    var a := Indented(d', sels, k + 1, m, unit);
    var b := Indented(d, sels, k, m, unit);
    forall i | 0 <= i < |d| ensures a[i] == b[i] {
      var n := BlockCount(sels, k + 1, m, i);
      if InBlock(sels[k], i) {
        assert Repeat(unit, n + 1) == Repeat(unit, n) + unit;
        assert Repeat(unit, n) + (unit + d[i].content) == Repeat(unit, n) + unit + d[i].content;
      }
    }
  }

  /** Unindenting selection `k` and then the ones after it is unindenting them all from `k`. */
  lemma UnindentedStep(d: seq<Line>, sels: seq<Selection>, k: nat, size: nat)
    requires k < |sels| && BlockSelection(d, sels[k])
    ensures Unindented(RemoveTabs(d, sels[k], size), sels, k + 1, size) == Unindented(d, sels, k, size)
  {
    UnindentedStepLines(d, RemoveTabs(d, sels[k], size), sels, k, size);
  }

  lemma UnindentedStepLines(d: seq<Line>, d': seq<Line>, sels: seq<Selection>, k: nat, size: nat)
    requires k < |sels| && |d'| == |d|
    requires forall i :: 0 <= i < |d| ==>
      d'[i] == if InBlock(sels[k], i) then Line(d[i].content[RemovalCount(d[i].content, size)..], d[i].delim) else d[i]
    ensures Unindented(d', sels, k + 1, size) == Unindented(d, sels, k, size)
  {
    var a := Unindented(d', sels, k + 1, size);
    var b := Unindented(d, sels, k, size);
    forall i | 0 <= i < |d| ensures a[i] == b[i] {
      StripStep(d[i].content, d'[i].content, size, InBlock(sels[k], i), BlockCount(sels, k + 1, |sels|, i));
    }
  }

  /** Stripping one unit before `n` further strips is `n + 1` strips. */
  lemma StripStep(c: string, c': string, size: nat, included: bool, n: nat)
    requires c' == if included then c[RemovalCount(c, size)..] else c
    ensures StripUnits(c', n, size) == StripUnits(c, n + if included then 1 else 0, size)
  {
  }


  /** One block selection indented on its own is `InsertTabs` of it. */
  lemma SingleBlockIndented(d: seq<Line>, sels: seq<Selection>, unit: string)
    requires |sels| == 1 && BlockSelection(d, sels[0])
    ensures Indented(d, sels, 0, 1, unit) == InsertTabs(d, sels[0], unit)
  {
    IndentedStep(d, sels, 0, 1, unit);
    NothingIndented(InsertTabs(d, sels[0], unit), sels, 1, unit);
  }

  /** One block selection unindented on its own is `RemoveTabs` of it. */
  lemma SingleBlockUnindented(d: seq<Line>, sels: seq<Selection>, size: nat)
    requires |sels| == 1 && BlockSelection(d, sels[0])
    ensures Unindented(d, sels, 0, size) == RemoveTabs(d, sels[0], size)
  {
    UnindentedStep(d, sels, 0, size);
    var d' := RemoveTabs(d, sels[0], size);
    assert Unindented(d', sels, 1, size) == d';
  }

  /**
   * `ShiftTab` undoes `Tab` on one writable multi-line selection: the
   * selection is still valid in the indented document, and unindenting it
   * gives back the original lines.
   */
  lemma ShiftTabUndoesTab(d: seq<Line>, caret: Pos, mode: CaretMode, sel: Selection, g: Guard,
                          props: Props, visualColumn: nat)
    requires ValidDoc(d) && caret.line < |d| && ValidSelection(d, sel) && MultiLine(sel)
    requires !SelectionReadOnly(g, d, [sel])
    requires props.convertTabsToSpaces ==> props.indentationSize >= 1
    ensures ShiftTabRestores(Tab(d, caret, mode, [sel], g, props, visualColumn), sel, props.indentationSize, d)
  {
    SelectionLinesOrdered(d, sel);
    BlockRestored(d, caret, sel, props);
  }

  /** The block step of `ShiftTabUndoesTab`, stated on the indented document. */
  lemma BlockRestored(d: seq<Line>, caret: Pos, sel: Selection, props: Props)
    requires ValidDoc(d) && ValidSelection(d, sel) && BlockSelection(d, sel) && MultiLine(sel)
    requires props.convertTabsToSpaces ==> props.indentationSize >= 1
    ensures ShiftTabRestores(LineEdit(InsertTabs(d, sel, IndentUnit(props)), caret), sel, props.indentationSize, d)
  {
    var e := InsertTabs(d, sel, IndentUnit(props));
    IndentPreservesValid(d, sel, IndentUnit(props));
    IndentKeepsSelection(d, sel, IndentUnit(props));
    UnindentUndoesIndent(d, sel, props);
    assert ShiftTab(e, caret, [sel], props.indentationSize).doc == RemoveTabs(e, sel, props.indentationSize);
  }

  /** `sel` is still a valid selection of the edited document, and `ShiftTab` over it gives back `d`. */
  predicate ShiftTabRestores(t: LineEdit, sel: Selection, size: nat, d: seq<Line>) {
    && ValidDoc(t.doc) && ValidSelection(t.doc, sel)
    && ShiftTab(t.doc, t.caret, [sel], size).doc == d
  }

  /** Indenting a multi-line block keeps its selection valid: lines only grow at their front. */
  lemma IndentKeepsSelection(d: seq<Line>, sel: Selection, unit: string)
    requires ValidSelection(d, sel) && BlockSelection(d, sel) && MultiLine(sel)
    ensures ValidSelection(InsertTabs(d, sel, unit), sel)
  {
    var e := InsertTabs(d, sel, unit);
    assert ValidPos(e, sel.start) && ValidPos(e, sel.end);
    ToOffsetOrder(e, sel.start, sel.end);
  }
}
