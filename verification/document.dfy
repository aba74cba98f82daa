/**
 * The line/offset model of the editor's document.
 *
 * A document is a non-empty sequence of lines, each a content string and a
 * terminator ("delimiter").  Only the last line has an empty terminator, so the
 * line segments tile the text by construction: the text is the concatenation of
 * every line's content followed by its terminator.
 */
module Document {

  datatype Line = Line(content: string, delim: string)

  /** A logical position: column `col` of line `line` (columns count characters). */
  datatype Pos = Pos(col: nat, line: nat)

  predicate IsLineBreakChar(c: char) {
    c == '\n' || c == '\r'
  }

  /** The three terminators the document's line tracker recognises. */
  predicate IsDelimiter(s: string) {
    s == "\n" || s == "\r\n" || s == "\r"
  }

  predicate NoLineBreak(s: string) {
    forall k :: 0 <= k < |s| ==> !IsLineBreakChar(s[k])
  }

  predicate ValidDoc(d: seq<Line>) {
    && |d| >= 1
    && (forall i :: 0 <= i < |d| - 1 ==> IsDelimiter(d[i].delim))
    && d[|d| - 1].delim == []
    && (forall i :: 0 <= i < |d| ==> NoLineBreak(d[i].content))
  }

  /** The characters a line occupies, terminator included (`TotalLength`). */
  function Total(l: Line): string {
    l.content + l.delim
  }

  function Text(d: seq<Line>): string
    decreases |d|
  {
    if d == [] then [] else Text(d[..|d| - 1]) + Total(d[|d| - 1])
  }

  /** Offset of the first character of line `i` (or the text length for `i == |d|`). */
  function Offset(d: seq<Line>, i: nat): nat
    requires i <= |d|
  {
    |Text(d[..i])|
  }

  /** Offset just past line `i`'s content, where its terminator begins. */
  function ContentEnd(d: seq<Line>, i: nat): nat
    requires i < |d|
  {
    Offset(d, i) + |d[i].content|
  }

  function Length(d: seq<Line>): nat {
    |Text(d)|
  }

  predicate ValidPos(d: seq<Line>, p: Pos) {
    p.line < |d| && p.col <= |d[p.line].content|
  }

  /** `PositionToOffset` for positions inside a line's content. */
  function ToOffset(d: seq<Line>, p: Pos): nat
    requires ValidPos(d, p)
  {
    Offset(d, p.line) + p.col
  }

  // ---------------------------------------------------------------------
  // Raw text primitives of the document (Insert, Remove, Replace).

  function Remove(t: string, off: nat, len: nat): string
    requires off + len <= |t|
  {
    t[..off] + t[off + len..]
  }

  function Insert(t: string, off: nat, s: string): string
    requires off <= |t|
  {
    t[..off] + s + t[off..]
  }

  // ---------------------------------------------------------------------
  // Tiling of the text by the line segments.

  lemma {:induction false} TextAppend(a: seq<Line>, b: seq<Line>)
    ensures Text(a + b) == Text(a) + Text(b)
    decreases |b|
  {
    if b == [] {
      assert a + b == a;
    } else {
      var b' := b[..|b| - 1];
      assert (a + b)[..|a + b| - 1] == a + b';
      TextAppend(a, b');
    }
  }

  /** The first `i + 1` lines are the first `i` lines followed by line `i`. */
  lemma TextSnoc(d: seq<Line>, i: nat)
    requires i < |d|
    ensures Text(d[..i + 1]) == Text(d[..i]) + d[i].content + d[i].delim
  {
    assert d[..i + 1][..i] == d[..i];
  }

  /** The text is the lines before `i`, then line `i`, then the lines after it. */
  lemma Decompose(d: seq<Line>, i: nat)
    requires i < |d|
    ensures Text(d) == Text(d[..i]) + d[i].content + d[i].delim + Text(d[i + 1..])
  {
    assert d == d[..i + 1] + d[i + 1..];
    TextAppend(d[..i + 1], d[i + 1..]);
    TextSnoc(d, i);
  }

  /** Line segments tile the text: line `i` starts where line `i - 1` ends. */
  lemma OffsetNext(d: seq<Line>, i: nat)
    requires i < |d|
    ensures Offset(d, i + 1) == Offset(d, i) + |d[i].content| + |d[i].delim|
  {
    assert d[..i + 1][..i] == d[..i];
  }

  lemma OffsetLast(d: seq<Line>)
    ensures Offset(d, |d|) == Length(d)
  {
    assert d[..|d|] == d;
  }

  lemma {:induction false} OffsetMonotone(d: seq<Line>, i: nat, j: nat)
    requires i <= j <= |d|
    ensures Offset(d, i) <= Offset(d, j)
    decreases j - i
  {
    if i < j {
      OffsetMonotone(d, i, j - 1);
      OffsetNext(d, j - 1);
    }
  }

  /** Slicing a four-part concatenation at its seams gives the parts back. */
  lemma SliceParts(t: string, a: string, b: string, c: string, e: string)
    requires t == a + b + c + e
    ensures t[..|a|] == a
    ensures t[|a|..|a| + |b|] == b
    ensures t[|a| + |b|..|a| + |b| + |c|] == c
  {
    assert t[..|a|] == a;
    assert t[|a|..|a| + |b|] == b;
    assert t[|a| + |b|..|a| + |b| + |c|] == c;
  }

  /** The segment of line `i` holds exactly its content followed by its terminator. */
  lemma LineSlices(d: seq<Line>, i: nat)
    requires i < |d|
    ensures ContentEnd(d, i) + |d[i].delim| == Offset(d, i + 1) <= |Text(d)|
    ensures Text(d)[..Offset(d, i)] == Text(d[..i])
    ensures Text(d)[Offset(d, i)..ContentEnd(d, i)] == d[i].content
    ensures Text(d)[ContentEnd(d, i)..Offset(d, i + 1)] == d[i].delim
  {
    Decompose(d, i);
    OffsetNext(d, i);
    SliceParts(Text(d), Text(d[..i]), d[i].content, d[i].delim, Text(d[i + 1..]));
  }

  /** A non-last line ends strictly before the next line begins. */
  lemma ContentEndBeforeNext(d: seq<Line>, i: nat)
    requires ValidDoc(d) && i < |d| - 1
    ensures ContentEnd(d, i) < Offset(d, i + 1)
  {
    OffsetNext(d, i);
  }

  lemma LastLineEndsText(d: seq<Line>)
    requires ValidDoc(d)
    ensures ContentEnd(d, |d| - 1) == Length(d)
  {
    OffsetNext(d, |d| - 1);
    OffsetLast(d);
  }

  // ---------------------------------------------------------------------
  // Offset to position.

  function LineOfFrom(d: seq<Line>, o: nat, i: nat): (r: nat)
    requires i < |d| && Offset(d, i) <= o
    ensures i <= r < |d| && Offset(d, r) <= o
    ensures r == |d| - 1 || o < Offset(d, r + 1)
    decreases |d| - i
  {
    if i == |d| - 1 || o < Offset(d, i + 1) then i else LineOfFrom(d, o, i + 1)
  }

  /** `GetLineNumberForOffset`: the line whose segment holds offset `o`; the text end belongs to the last line. */
  function LineOf(d: seq<Line>, o: nat): (r: nat)
    requires |d| >= 1
    ensures r < |d| && Offset(d, r) <= o
    ensures r == |d| - 1 || o < Offset(d, r + 1)
  {
    assert d[..0] == [];
    LineOfFrom(d, o, 0)
  }

  /** `OffsetToPosition`: the column is the distance from the start of the line's segment. */
  function OffsetToPos(d: seq<Line>, o: nat): (p: Pos)
    requires |d| >= 1
    ensures p.line < |d| && Offset(d, p.line) + p.col == o
  {
    var r := LineOf(d, o);
    Pos(o - Offset(d, r), r)
  }

  /** The line containing an offset is unique: any line whose segment holds `o` is the one found. */
  lemma LineOfUnique(d: seq<Line>, o: nat, k: nat)
    requires ValidDoc(d) && k < |d| && Offset(d, k) <= o
    requires k == |d| - 1 || o < Offset(d, k + 1)
    ensures LineOf(d, o) == k
  {
    var r := LineOf(d, o);
    if r < k {
      OffsetMonotone(d, r + 1, k);
    } else if r > k {
      OffsetMonotone(d, k + 1, r);
    }
  }

  /** Position to offset and back is the identity on positions inside a line's content. */
  lemma PosRoundTrip(d: seq<Line>, p: Pos)
    requires ValidDoc(d) && ValidPos(d, p)
    ensures OffsetToPos(d, ToOffset(d, p)) == p
  {
    if p.line < |d| - 1 {
      ContentEndBeforeNext(d, p.line);
    }
    LineOfUnique(d, ToOffset(d, p), p.line);
  }

  // ---------------------------------------------------------------------
  // Removing a range of text, stated on lines.

  /** Position `p` does not come after position `q`. */
  predicate NotAfter(p: Pos, q: Pos) {
    p.line < q.line || (p.line == q.line && p.col <= q.col)
  }

  /**
   * The document with the text from `p` to `q` removed: the head of `p`'s line
   * joins the tail of `q`'s line, and the lines between disappear.
   */
  function RemoveRange(d: seq<Line>, p: Pos, q: Pos): seq<Line>
    requires ValidPos(d, p) && ValidPos(d, q) && NotAfter(p, q)
  {
    d[..p.line] + [Line(d[p.line].content[..p.col] + d[q.line].content[q.col..], d[q.line].delim)] + d[q.line + 1..]
  }

  /** Cutting a four-part concatenation inside its second part. */
  lemma CutInside(pre: string, c: string, dl: string, post: string, n: nat)
    requires n <= |c|
    ensures (pre + c + dl + post)[..|pre| + n] == pre + c[..n]
    ensures (pre + c + dl + post)[|pre| + n..] == c[n..] + dl + post
  {
    var t := pre + c + dl + post;
    assert t[..|pre| + n] == pre + c[..n];
    assert t[|pre| + n..] == c[n..] + dl + post;
  }

  lemma ToOffsetOrder(d: seq<Line>, p: Pos, q: Pos)
    requires ValidPos(d, p) && ValidPos(d, q) && NotAfter(p, q)
    ensures ToOffset(d, p) <= ToOffset(d, q)
  {
    if p.line < q.line {
      OffsetNext(d, p.line);
      OffsetMonotone(d, p.line + 1, q.line);
    }
  }

  /** Positions inside line contents compare in the same order as their offsets. */
  lemma OffsetOrderIsPosOrder(d: seq<Line>, p: Pos, q: Pos)
    requires ValidDoc(d) && ValidPos(d, p) && ValidPos(d, q)
    ensures NotAfter(p, q) <==> ToOffset(d, p) <= ToOffset(d, q)
  {
    if NotAfter(p, q) {
      ToOffsetOrder(d, p, q);
    } else if q.line < p.line {
      ContentEndBeforeNext(d, q.line);
      OffsetMonotone(d, q.line + 1, p.line);
    }
  }

  /** The text before a position: the lines above it and the head of its line. */
  lemma TextBefore(d: seq<Line>, p: Pos)
    requires ValidPos(d, p)
    ensures ToOffset(d, p) <= Length(d)
    ensures Text(d)[..ToOffset(d, p)] == Text(d[..p.line]) + d[p.line].content[..p.col]
  {
    Decompose(d, p.line);
    CutInside(Text(d[..p.line]), d[p.line].content, d[p.line].delim, Text(d[p.line + 1..]), p.col);
  }

  /** The text from a position on: the tail of its line and the lines below it. */
  lemma TextFrom(d: seq<Line>, q: Pos)
    requires ValidPos(d, q)
    ensures ToOffset(d, q) <= Length(d)
    ensures Text(d)[ToOffset(d, q)..] == d[q.line].content[q.col..] + d[q.line].delim + Text(d[q.line + 1..])
  {
    Decompose(d, q.line);
    CutInside(Text(d[..q.line]), d[q.line].content, d[q.line].delim, Text(d[q.line + 1..]), q.col);
  }

  lemma RemoveRangeShape(d: seq<Line>, p: Pos, q: Pos)
    requires ValidPos(d, p) && ValidPos(d, q) && NotAfter(p, q)
    ensures Text(RemoveRange(d, p, q)) ==
      Text(d[..p.line]) + (d[p.line].content[..p.col] + d[q.line].content[q.col..]) + d[q.line].delim + Text(d[q.line + 1..])
    ensures Offset(RemoveRange(d, p, q), p.line) == Offset(d, p.line)
  {
    var r := RemoveRange(d, p, q);
    assert r[..p.line] == d[..p.line];
    assert r[p.line + 1..] == d[q.line + 1..];
    Decompose(r, p.line);
  }

  /** `RemoveRange` removes exactly the characters between the offsets of `p` and `q`; `p` keeps its offset. */
  lemma RemoveRangeText(d: seq<Line>, p: Pos, q: Pos)
    requires ValidPos(d, p) && ValidPos(d, q) && NotAfter(p, q)
    ensures ToOffset(d, p) <= ToOffset(d, q) <= Length(d)
    ensures Text(RemoveRange(d, p, q)) == Remove(Text(d), ToOffset(d, p), ToOffset(d, q) - ToOffset(d, p))
    ensures ValidPos(RemoveRange(d, p, q), p) && ToOffset(RemoveRange(d, p, q), p) == ToOffset(d, p)
  {
    var pre, post := Text(d[..p.line]), Text(d[q.line + 1..]);
    var head, tail, dl := d[p.line].content[..p.col], d[q.line].content[q.col..], d[q.line].delim;
    ToOffsetOrder(d, p, q);
    TextBefore(d, p);
    TextFrom(d, q);
    RemoveRangeShape(d, p, q);
    RemoveByParts(Text(d), ToOffset(d, p), ToOffset(d, q), pre + head, tail + dl + post);
    JoinAssoc(pre, head, tail, dl, post);
  }

  lemma RemoveByParts(t: string, a: nat, b: nat, x: string, y: string)
    requires a <= b <= |t| && t[..a] == x && t[b..] == y
    ensures Remove(t, a, b - a) == x + y
  {
  }

  lemma JoinAssoc(pre: string, head: string, tail: string, dl: string, post: string)
    ensures (pre + head) + (tail + dl + post) == pre + (head + tail) + dl + post
  {
  }

  /** Removing a range keeps the document well formed; the lines between `p` and `q` are gone. */
  lemma RemoveRangeValid(d: seq<Line>, p: Pos, q: Pos)
    requires ValidDoc(d) && ValidPos(d, p) && ValidPos(d, q) && NotAfter(p, q)
    ensures ValidDoc(RemoveRange(d, p, q))
    ensures |RemoveRange(d, p, q)| == |d| - (q.line - p.line)
  {
    var r := RemoveRange(d, p, q);
    var joined := Line(d[p.line].content[..p.col] + d[q.line].content[q.col..], d[q.line].delim);
    forall k | 0 <= k < |r|
      ensures r[k] == (if k < p.line then d[k] else if k == p.line then joined else d[k + q.line - p.line])
    {
    }
    NoLineBreakConcat(d[p.line].content[..p.col], d[q.line].content[q.col..]);
  }

  lemma NoLineBreakConcat(a: string, b: string)
    requires NoLineBreak(a) && NoLineBreak(b)
    ensures NoLineBreak(a + b)
  {
    assert forall k :: 0 <= k < |a + b| ==> (a + b)[k] == if k < |a| then a[k] else b[k - |a|];
  }
}
