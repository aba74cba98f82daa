/**
 * `ToggleBlockComment`: find the block comment the selection (or the caret)
 * lies in and take its two tokens out, or wrap the selection in a new one.
 * Offsets are character positions in the document text.
 */
module BlockComment {
  import opened Wrappers
  import opened Document
  import opened Strings

  /** `BlockCommentRegion`: `endOffset` is where the end token starts. */
  datatype Region = Region(commentStart: string, commentEnd: string, startOffset: nat, endOffset: nat)

  /** The offsets of the first selection's start and the last selection's end. */
  datatype Span = Span(start: nat, end: nat)

  // ---------------------------------------------------------------------
  // Searches inside a piece of the text, answered as offsets of the whole text

  /** An occurrence inside `t[a..b]` is an occurrence in `t`, shifted by `a`, and back. */
  lemma OccursInSlice(t: string, a: nat, b: nat, pat: string)
    requires a <= b <= |t|
    ensures forall k: nat :: a <= k && k + |pat| <= b ==> (OccursAt(t[a..b], pat, k - a) <==> OccursAt(t, pat, k))
    ensures forall k: nat :: k + |pat| > b - a ==> !OccursAt(t[a..b], pat, k)
  {
    forall k: nat | a <= k && k + |pat| <= b
      ensures OccursAt(t[a..b], pat, k - a) <==> OccursAt(t, pat, k)
    {
      var w := t[a..b][k - a..k - a + |pat|];
      var z := t[k..k + |pat|];
      forall j | 0 <= j < |pat| ensures w[j] == z[j] {
        assert t[a..b][k - a + j] == t[k + j];
      }
      assert w == z;
    }
  }

  /** `t.Substring(a, b - a).IndexOf(pat, from - a)`, shifted back to an offset of `t`. */
  function SearchSlice(t: string, pat: string, a: nat, b: nat, from: nat): (r: int)
    requires a <= from <= b <= |t|
    ensures r == -1 || (from <= r && r + |pat| <= b && OccursAt(t, pat, r))
    ensures r == -1 ==> forall k: nat :: from <= k && k + |pat| <= b ==> !OccursAt(t, pat, k)
    ensures r >= 0 ==> forall k: nat :: from <= k < r ==> !OccursAt(t, pat, k)
  {
    var i := IndexOfFrom(t[a..b], pat, from - a);
    SearchSliceFacts(t, pat, a, b, from, i);
    if i >= 0 then a + i else -1
  }

  lemma SearchSliceFacts(t: string, pat: string, a: nat, b: nat, from: nat, i: int)
    requires a <= from <= b <= |t| && i == IndexOfFrom(t[a..b], pat, from - a)
    ensures i >= 0 ==> from <= a + i && a + i + |pat| <= b && OccursAt(t, pat, a + i)
    ensures i == -1 ==> forall k: nat :: from <= k && k + |pat| <= b ==> !OccursAt(t, pat, k)
    ensures i >= 0 ==> forall k: nat :: from <= k < a + i ==> !OccursAt(t, pat, k)
  {
    OccursInSlice(t, a, b, pat);
    if i >= 0 {
      assert OccursAt(t[a..b], pat, a + i - a);
      forall k: nat | from <= k < a + i ensures !OccursAt(t, pat, k) {
        assert !OccursAt(t[a..b], pat, k - a);
      }
    } else {
      forall k: nat | from <= k && k + |pat| <= b ensures !OccursAt(t, pat, k) {
        assert !OccursAt(t[a..b], pat, k - a);
      }
    }
  }

  /** How far back the search for an enclosing start token reaches: up to `se + |cs| - 1`, capped by the text. */
  function StartSearchEnd(t: string, cs: string, se: nat): (r: nat)
    requires |cs| > 0 && se <= |t|
    ensures se <= r <= |t|
  {
    if se + |cs| - 1 > |t| then |t| else se + |cs| - 1
  }

  /** `k` is the last start token that ends by `off`. */
  predicate LastStart(t: string, cs: string, off: nat, k: nat) {
    && k + |cs| <= off && OccursAt(t, cs, k)
    && forall j: nat :: k < j && j + |cs| <= off ==> !OccursAt(t, cs, j)
  }

  /** The comment opened at `k` is closed before `ss`: an end token lies wholly between them (and not at `k` itself). */
  predicate ClosedBefore(t: string, ce: string, k: nat, ss: nat) {
    && !OccursAt(t, ce, k)
    && exists x: nat :: k < x && x + |ce| <= ss && OccursAt(t, ce, x)
  }

  /**
   * The start token before, or partly inside, the selection, as corrected:
   * the "closed before the selection" test runs only for a token that starts
   * before the selection.
   */
  function StartBefore(t: string, cs: string, ce: string, ss: nat, se: nat): (r: int)
    requires |cs| > 0 && ss <= se <= |t|
    ensures r == -1 || (0 <= r && r + |cs| <= StartSearchEnd(t, cs, se) && OccursAt(t, cs, r))
    ensures r >= 0 && !OccursAt(t, ce, r) ==> forall x: nat :: r < x && x + |ce| <= ss ==> !OccursAt(t, ce, x)
  {
    var off := StartSearchEnd(t, cs, se);
    var k := LastIndexOf(t[0..off], cs);
    if k < 0 then -1
    else if k < ss && IndexOfIn(t[0..off], ce, k, ss) > k then -1
    else
      StartBeforeFacts(t, cs, ce, ss, off, k);
      k
  }

  /**
   * What `StartBefore` finds: the last start token within reach, and -1
   * exactly when there is none or it starts before the selection and is
   * closed before it.
   */
  lemma StartBeforeIsLastOpen(t: string, cs: string, ce: string, ss: nat, se: nat)
    requires |cs| > 0 && ss <= se <= |t|
    ensures var r := StartBefore(t, cs, ce, ss, se);
      && (r >= 0 ==> LastStart(t, cs, StartSearchEnd(t, cs, se), r))
      && (r == -1 <==> forall k: nat :: LastStart(t, cs, StartSearchEnd(t, cs, se), k) ==> k < ss && ClosedBefore(t, ce, k, ss))
  {
    var off := StartSearchEnd(t, cs, se);
    var k := LastIndexOf(t[0..off], cs);
    LastIndexFacts(t, cs, off, k);
    if k >= 0 && k < ss {
      ClosedFacts(t, ce, off, k, ss);
      forall j: nat | LastStart(t, cs, off, j) ensures j == k {
        LastStartUnique(t, cs, off, k, j);
      }
    } else if k >= 0 {
      forall j: nat | LastStart(t, cs, off, j) ensures j == k {
        LastStartUnique(t, cs, off, k, j);
      }
    }
  }

  /** `LastIndexOf` on the reachable prefix finds the last start token, or shows there is none. */
  lemma LastIndexFacts(t: string, cs: string, off: nat, k: int)
    requires off <= |t| && k == LastIndexOf(t[0..off], cs)
    ensures k >= 0 ==> LastStart(t, cs, off, k)
    ensures k < 0 ==> forall j: nat :: !LastStart(t, cs, off, j)
  {
    OccursInSlice(t, 0, off, cs);
    if k >= 0 {
      assert OccursAt(t[0..off], cs, k - 0);
      forall j: nat | k < j && j + |cs| <= off ensures !OccursAt(t, cs, j) {
        assert !OccursAt(t[0..off], cs, j - 0);
      }
    } else {
      forall j: nat | j + |cs| <= off ensures !OccursAt(t, cs, j) {
        assert !OccursAt(t[0..off], cs, j - 0);
      }
    }
  }

  lemma LastStartUnique(t: string, cs: string, off: nat, a: nat, b: nat)
    requires LastStart(t, cs, off, a) && LastStart(t, cs, off, b)
    ensures a == b
  {
  }

  /** The test `IndexOf(end, k, ss - k) > k` on the reachable prefix is `ClosedBefore`. */
  lemma ClosedFacts(t: string, ce: string, off: nat, k: nat, ss: nat)
    requires k < ss <= off <= |t|
    ensures IndexOfIn(t[0..off], ce, k, ss) > k <==> ClosedBefore(t, ce, k, ss)
  {
    OccursInSlice(t, 0, off, ce);
    var i := IndexOfIn(t[0..off], ce, k, ss);
    if i > k {
      assert OccursAt(t[0..off], ce, i - 0);
      assert !OccursAt(t[0..off], ce, k - 0);
      assert OccursAt(t, ce, i);
    }
    if ClosedBefore(t, ce, k, ss) {
      var x: nat :| k < x && x + |ce| <= ss && OccursAt(t, ce, x);
      assert OccursAt(t[0..off], ce, x - 0);
      if k + |ce| <= off {
        assert !OccursAt(t[0..off], ce, k - 0);
      }
    }
  }

  lemma StartBeforeFacts(t: string, cs: string, ce: string, ss: nat, off: nat, k: nat)
    requires ss <= off <= |t| && OccursAt(t[0..off], cs, k)
    requires k < ss ==> IndexOfIn(t[0..off], ce, k, ss) <= k
    ensures k + |cs| <= off && OccursAt(t, cs, k)
    ensures !OccursAt(t, ce, k) ==> forall x: nat :: k < x && x + |ce| <= ss ==> !OccursAt(t, ce, x)
  {
    OccursInSlice(t, 0, off, cs);
    OccursInSlice(t, 0, off, ce);
    assert OccursAt(t[0..off], cs, k - 0);
    if !OccursAt(t, ce, k) && k < ss {
      assert !OccursAt(t[0..off], ce, k - 0);
      forall x: nat | k < x && x + |ce| <= ss ensures !OccursAt(t, ce, x) {
        assert !OccursAt(t[0..off], ce, x - 0);
      }
    }
  }

  /** Where the search for an end token after the selection start begins: `ss + 1 - |ce|`, or `ss` when that is negative. */
  function EndSearchStart(ce: string, ss: nat): (r: nat)
    requires |ce| > 0
    ensures r <= ss && (r == ss || r + |ce| == ss + 1)
  {
    if ss + 1 < |ce| then ss else ss + 1 - |ce|
  }

  /** The first end token from `EndSearchStart` to the end of the text. */
  function EndAfter(t: string, ce: string, ss: nat): (r: int)
    requires |ce| > 0 && ss <= |t|
    ensures r == -1 || (EndSearchStart(ce, ss) <= r && r + |ce| <= |t| && OccursAt(t, ce, r))
    ensures r == -1 ==> forall k: nat :: EndSearchStart(ce, ss) <= k && k + |ce| <= |t| ==> !OccursAt(t, ce, k)
    ensures r >= 0 ==> forall k: nat :: EndSearchStart(ce, ss) <= k < r ==> !OccursAt(t, ce, k)
  {
    var off := EndSearchStart(ce, ss);
    SearchSlice(t, ce, off, |t|, off)
  }

  /**
   * `FindSelectedCommentRegion`, as corrected: a start token is searched in
   * the selection and else before it, an end token in the selection after
   * that start and else from the selection start on; a region is reported
   * only when both are found and the end token follows the start token.
   */
  function FindSelectedCommentRegion(t: string, cs: string, ce: string, ss: nat, se: nat): (r: Option<Region>)
    requires |cs| > 0 && |ce| > 0 && ss <= se <= |t|
    ensures |t| == 0 ==> r.None?
    ensures r.Some? ==> r.value.commentStart == cs && r.value.commentEnd == ce
    ensures r.Some? ==> OccursAt(t, cs, r.value.startOffset) && OccursAt(t, ce, r.value.endOffset)
    ensures r.Some? ==> r.value.startOffset + |cs| <= r.value.endOffset
    ensures r.Some? ==> forall k: nat :: ss <= k && k + |cs| <= se && OccursAt(t, cs, k) ==> ss <= r.value.startOffset <= k
    ensures r.Some? && !OccursAt(t, ce, r.value.startOffset) ==>
      forall x: nat :: r.value.startOffset < x && x + |ce| <= ss ==> !OccursAt(t, ce, x)
  {
    if |t| == 0 then None
    else
      var inSel := SearchSlice(t, cs, ss, se, ss);
      var endInSel := if inSel >= 0 then SearchSlice(t, ce, ss, se, inSel + |cs|) else SearchSlice(t, ce, ss, se, ss);
      var start := if inSel == -1 then StartBefore(t, cs, ce, ss, se) else inSel;
      var end := if endInSel == -1 then EndAfter(t, ce, ss) else endInSel;
      if start >= 0 && end >= 0 && start + |cs| <= end then Some(Region(cs, ce, start, end)) else None
  }

  /**
   * A start token inside the selection followed, still inside it, by an end
   * token is always found: the region starts no later than that start token
   * and ends no later than that end token.
   */
  lemma FindsPairInSelection(t: string, cs: string, ce: string, ss: nat, se: nat, k: nat, x: nat)
    requires |cs| > 0 && |ce| > 0 && ss <= se <= |t|
    requires ss <= k && k + |cs| <= x && x + |ce| <= se
    requires OccursAt(t, cs, k) && OccursAt(t, ce, x)
    ensures var r := FindSelectedCommentRegion(t, cs, ce, ss, se);
      r.Some? && ss <= r.value.startOffset <= k && r.value.endOffset <= x
  {
    var inSel := SearchSlice(t, cs, ss, se, ss);
    assert 0 <= inSel <= k;
    var endInSel := SearchSlice(t, ce, ss, se, inSel + |cs|);
    assert 0 <= endInSel <= x;
  }

  /** The start-token search exactly as written: a token found after the selection start gives a negative count. */
  function StartBeforeAsWritten(t: string, cs: string, ce: string, ss: nat, se: nat): (r: Result<int, string>)
    requires |cs| > 0 && ss <= se <= |t|
    ensures r.Failure? <==> StartBefore(t, cs, ce, ss, se) > ss
    ensures r.Success? ==> r.value == StartBefore(t, cs, ce, ss, se)
  {
    var off := StartSearchEnd(t, cs, se);
    var k := LastIndexOf(t[0..off], cs);
    if k < 0 then Success(-1)
    else if ss - k < 0 then Failure("ArgumentOutOfRangeException: count is negative")
    else if IndexOfIn(t[0..off], ce, k, ss) > k then Success(-1)
    else Success(k)
  }

  /** `FindSelectedCommentRegion` exactly as written. */
  function FindSelectedCommentRegionAsWritten(t: string, cs: string, ce: string, ss: nat, se: nat): (r: Result<Option<Region>, string>)
    requires |cs| > 0 && |ce| > 0 && ss <= se <= |t|
  {
    if |t| == 0 then Success(None)
    else
      var inSel := SearchSlice(t, cs, ss, se, ss);
      var endInSel := if inSel >= 0 then SearchSlice(t, ce, ss, se, inSel + |cs|) else SearchSlice(t, ce, ss, se, ss);
      var start := if inSel == -1 then StartBeforeAsWritten(t, cs, ce, ss, se) else Success(inSel);
      var end := if endInSel == -1 then EndAfter(t, ce, ss) else endInSel;
      if start.Failure? then Failure(start.error)
      else if start.value >= 0 && end >= 0 then Success(Some(Region(cs, ce, start.value, end)))
      else Success(None)
  }

  /** `SetCommentAt`: the end token is inserted after the selection, then the start token before it. */
  function SetCommentAt(t: string, s: nat, e: nat, cs: string, ce: string): (r: string)
    requires s <= e <= |t|
    ensures r == t[..s] + cs + t[s..e] + ce + t[e..]
    ensures |r| == |t| + |cs| + |ce|
  {
    Insert(Insert(t, e, ce), s, cs)
  }

  /** `RemoveComment`: the end token is removed first, then the start token; a removal past the end of the text is an error. */
  function RemoveComment(t: string, rg: Region): (r: Result<string, string>)
    ensures rg.startOffset + |rg.commentStart| <= rg.endOffset && rg.endOffset + |rg.commentEnd| <= |t| ==>
      r == Success(t[..rg.startOffset] + t[rg.startOffset + |rg.commentStart|..rg.endOffset] + t[rg.endOffset + |rg.commentEnd|..])
  {
    if rg.endOffset + |rg.commentEnd| > |t| then Failure("removal past the end of the text")
    else
      var t1 := Remove(t, rg.endOffset, |rg.commentEnd|);
      if rg.startOffset + |rg.commentStart| > |t1| then Failure("removal past the end of the text")
      else
        RemoveBoth(t, rg.startOffset, |rg.commentStart|, rg.endOffset, |rg.commentEnd|);
        Success(Remove(t1, rg.startOffset, |rg.commentStart|))
  }

  /** `r` is `t` with the region's two tokens taken out. */
  predicate Uncommented(t: string, rg: Region, r: string) {
    && rg.startOffset + |rg.commentStart| <= rg.endOffset && rg.endOffset + |rg.commentEnd| <= |t|
    && r == t[..rg.startOffset] + t[rg.startOffset + |rg.commentStart|..rg.endOffset] + t[rg.endOffset + |rg.commentEnd|..]
  }

  /** `r` is `t` with the start token inserted at `s` and the end token at `e`. */
  predicate Wrapped(t: string, s: nat, e: nat, cs: string, ce: string, r: string) {
    s <= e <= |t| && r == t[..s] + cs + t[s..e] + ce + t[e..]
  }

  /** A region whose end token lies after its start token, inside the text, is removed without error. */
  lemma RemoveFound(t: string, rg: Region)
    requires rg.startOffset + |rg.commentStart| <= rg.endOffset && OccursAt(t, rg.commentEnd, rg.endOffset)
    ensures RemoveComment(t, rg)
      == Success(t[..rg.startOffset] + t[rg.startOffset + |rg.commentStart|..rg.endOffset] + t[rg.endOffset + |rg.commentEnd|..])
  {
  }

  /** Removing a later piece and then an earlier one leaves the three pieces around them. */
  lemma RemoveBoth(t: string, s: nat, m: nat, e: nat, n: nat)
    requires e + n <= |t|
    ensures s + m <= e ==> Remove(Remove(t, e, n), s, m) == t[..s] + t[s + m..e] + t[e + n..]
  {
    if s + m > e { return; }
    var t1 := Remove(t, e, n);
    assert t1[..s] == t[..s];
    assert t1[s + m..] == t[s + m..e] + t[e + n..];
  }

  /**
   * `ToggleBlockComment.Execute`.  `selection` is the span from the first
   * selection's offset to the last one's end, when something is selected;
   * `caret` is the caret offset.
   */
  function ToggleBlockComment(t: string, caret: nat, selection: Option<Span>, cs: Option<string>, ce: Option<string>, docReadOnly: bool): (r: string)
    requires caret <= |t|
    requires selection.Some? ==> selection.value.start <= selection.value.end <= |t|
    ensures docReadOnly || cs.None? || ce.None? || cs.value == [] || ce.value == [] ==> r == t
    ensures !docReadOnly && cs.Some? && ce.Some? && cs.value != [] && ce.value != [] ==>
      var ss := if selection.Some? then selection.value.start else caret;
      var se := if selection.Some? then selection.value.end else caret;
      var found := FindSelectedCommentRegion(t, cs.value, ce.value, ss, se);
      found.Some? ==> Uncommented(t, found.value, r)
    ensures !docReadOnly && cs.Some? && ce.Some? && cs.value != [] && ce.value != [] ==>
      var ss := if selection.Some? then selection.value.start else caret;
      var se := if selection.Some? then selection.value.end else caret;
      FindSelectedCommentRegion(t, cs.value, ce.value, ss, se).None? ==>
        if selection.Some? then Wrapped(t, ss, se, cs.value, ce.value, r) else r == t
  {
    if docReadOnly || cs.None? || ce.None? || cs.value == [] || ce.value == [] then t
    else
      var ss := if selection.Some? then selection.value.start else caret;
      var se := if selection.Some? then selection.value.end else caret;
      var found := FindSelectedCommentRegion(t, cs.value, ce.value, ss, se);
      ApplyToggle(t, found, if selection.Some? then Some(Span(ss, se)) else None, cs.value, ce.value)
  }

  /** The edit made once the search has run: a region found loses its two tokens, otherwise a selection is wrapped. */
  function ApplyToggle(t: string, found: Option<Region>, wrap: Option<Span>, cs: string, ce: string): (r: string)
    requires found.Some? ==>
      found.value.commentStart == cs && found.value.commentEnd == ce
      && found.value.startOffset + |cs| <= found.value.endOffset && OccursAt(t, ce, found.value.endOffset)
    requires wrap.Some? ==> wrap.value.start <= wrap.value.end <= |t|
    ensures found.Some? ==> Uncommented(t, found.value, r)
    ensures found.None? && wrap.Some? ==> Wrapped(t, wrap.value.start, wrap.value.end, cs, ce, r)
    ensures found.None? && wrap.None? ==> r == t
  {
    match found
    case Some(rg) =>
      RemoveFound(t, rg);
      RemoveComment(t, rg).value
    case None =>
      if wrap.Some? then SetCommentAt(t, wrap.value.start, wrap.value.end, cs, ce) else t
  }

  // ---------------------------------------------------------------------
  // Lemmas

  /** Removing the region `SetCommentAt` just created restores the text. */
  lemma RemoveUndoesSet(t: string, s: nat, e: nat, cs: string, ce: string)
    requires s <= e <= |t|
    ensures RemoveComment(SetCommentAt(t, s, e, cs, ce), Region(cs, ce, s, e + |cs|)) == Success(t)
  {
    var u := SetCommentAt(t, s, e, cs, ce);
    assert u[..s] == t[..s];
    assert u[s + |cs|..e + |cs|] == t[s..e];
    assert u[e + |cs| + |ce|..] == t[e..];
    assert t[..s] + t[s..e] + t[e..] == t;
  }

  /** No end token starts inside `t[s..e]` when the new end token is appended to it. */
  predicate NoEarlyEnd(t: string, s: nat, e: nat, ce: string)
    requires s <= e <= |t|
  {
    forall k :: 0 <= k < e - s ==> !OccursAt(t[s..e] + ce, ce, k)
  }

  /**
   * With the whole commented span selected, the search finds exactly the
   * region `SetCommentAt` created, provided the selected text held no end
   * token of its own.
   */
  lemma FindAfterSet(t: string, s: nat, e: nat, cs: string, ce: string)
    requires |cs| > 0 && |ce| > 0 && s <= e <= |t|
    requires NoEarlyEnd(t, s, e, ce)
    ensures var u := SetCommentAt(t, s, e, cs, ce);
      FindSelectedCommentRegion(u, cs, ce, s, e + |cs| + |ce|) == Some(Region(cs, ce, s, e + |cs|))
  {
    WrappedSearches(t, s, e, cs, ce);
    FoundInSelection(SetCommentAt(t, s, e, cs, ce), cs, ce, s, e + |cs| + |ce|, s, e + |cs|);
  }

  /** In the wrapped selection the start token is found at its start and the end token right after the body. */
  lemma WrappedSearches(t: string, s: nat, e: nat, cs: string, ce: string)
    requires |cs| > 0 && |ce| > 0 && s <= e <= |t|
    requires NoEarlyEnd(t, s, e, ce)
    ensures var u := SetCommentAt(t, s, e, cs, ce);
      && SearchesTo(u, cs, s, e + |cs| + |ce|, s, s)
      && SearchesTo(u, ce, s, e + |cs| + |ce|, s + |cs|, e + |cs|)
  {
    var u := SetCommentAt(t, s, e, cs, ce);
    var se := e + |cs| + |ce|;
    WrapSlices(u, t[..s], cs, t[s..e], ce, t[e..]);
    assert OccursAt(u, cs, s);
    EndTokenAfterBody(u, t, s, e, cs, ce);
    SearchSliceFinds(u, cs, s, se, s, s);
    SearchSliceFinds(u, ce, s, se, s + |cs|, e + |cs|);
  }

  /** In the wrapped text the first end token after the start token is the one just inserted. */
  lemma EndTokenAfterBody(u: string, t: string, s: nat, e: nat, cs: string, ce: string)
    requires s <= e <= |t| && NoEarlyEnd(t, s, e, ce)
    requires e + |cs| + |ce| <= |u| && u[s + |cs|..e + |cs| + |ce|] == t[s..e] + ce
    ensures OccursAt(u, ce, e + |cs|)
    ensures forall x: nat :: s + |cs| <= x < e + |cs| ==> !OccursAt(u, ce, x)
  {
    var v := t[s..e] + ce;
    OccursInSlice(u, s + |cs|, e + |cs| + |ce|, ce);
    assert v[e - s..e - s + |ce|] == ce;
    assert OccursAt(v, ce, e + |cs| - (s + |cs|));
    forall x: nat | s + |cs| <= x < e + |cs| ensures !OccursAt(u, ce, x) {
      assert !OccursAt(v, ce, x - (s + |cs|));
    }
  }

  /** A search answers the first occurrence from its start. */
  lemma SearchSliceFinds(t: string, pat: string, a: nat, b: nat, from: nat, x: nat)
    requires a <= from <= x && x + |pat| <= b <= |t| && OccursAt(t, pat, x)
    requires forall k: nat :: from <= k < x ==> !OccursAt(t, pat, k)
    ensures SearchesTo(t, pat, a, b, from, x)
  {
  }

  /** The search for `pat` in `t[a..b]` starting at `from` gives `r`. */
  predicate SearchesTo(t: string, pat: string, a: nat, b: nat, from: nat, r: int)
    requires a <= from <= b <= |t|
  {
    SearchSlice(t, pat, a, b, from) == r
  }

  /** Both tokens found inside the selection, the start token first, make the region. */
  lemma FoundInSelection(u: string, cs: string, ce: string, ss: nat, se: nat, a: nat, b: nat)
    requires |cs| > 0 && |ce| > 0 && ss <= se <= |u| && |u| > 0
    requires SearchesTo(u, cs, ss, se, ss, a)
    requires a + |cs| <= se && SearchesTo(u, ce, ss, se, a + |cs|, b)
    ensures FindSelectedCommentRegion(u, cs, ce, ss, se) == Some(Region(cs, ce, a, b))
  {
  }

  lemma WrapSlices(u: string, a: string, cs: string, b: string, ce: string, c: string)
    requires u == a + cs + b + ce + c
    ensures u[|a|..|a| + |cs|] == cs
    ensures u[|a| + |cs|..|a| + |cs| + |b| + |ce|] == b + ce
  {
    assert u == a + cs + (b + ce) + c;
    SliceParts(u, a, cs, b + ce, c);
  }

  /** Toggling a selection that lies in no comment, then toggling the commented span, gives the text back. */
  lemma ToggleTwiceRestores(t: string, s: nat, e: nat, cs: string, ce: string)
    requires |cs| > 0 && |ce| > 0 && s <= e <= |t|
    requires FindSelectedCommentRegion(t, cs, ce, s, e).None?
    requires NoEarlyEnd(t, s, e, ce)
    ensures var once := ToggleBlockComment(t, s, Some(Span(s, e)), Some(cs), Some(ce), false);
      once == SetCommentAt(t, s, e, cs, ce)
      && ToggleBlockComment(once, s, Some(Span(s, e + |cs| + |ce|)), Some(cs), Some(ce), false) == t
  {
    ToggleWraps(t, s, e, cs, ce);
    ToggleUnwraps(t, s, e, cs, ce);
  }

  /** A selection that lies in no comment is wrapped in the two tokens. */
  lemma ToggleWraps(t: string, s: nat, e: nat, cs: string, ce: string)
    requires |cs| > 0 && |ce| > 0 && s <= e <= |t|
    requires FindSelectedCommentRegion(t, cs, ce, s, e).None?
    ensures ToggleBlockComment(t, s, Some(Span(s, e)), Some(cs), Some(ce), false) == SetCommentAt(t, s, e, cs, ce)
  {
    assert Wrapped(t, s, e, cs, ce, ToggleBlockComment(t, s, Some(Span(s, e)), Some(cs), Some(ce), false));
  }

  /** Selecting the whole of a span just wrapped and toggling again takes the two tokens back out. */
  lemma ToggleUnwraps(t: string, s: nat, e: nat, cs: string, ce: string)
    requires |cs| > 0 && |ce| > 0 && s <= e <= |t|
    requires NoEarlyEnd(t, s, e, ce)
    ensures ToggleBlockComment(SetCommentAt(t, s, e, cs, ce), s, Some(Span(s, e + |cs| + |ce|)), Some(cs), Some(ce), false) == t
  {
    var u := SetCommentAt(t, s, e, cs, ce);
    var rg := Region(cs, ce, s, e + |cs|);
    assert |u| == |t| + |cs| + |ce|;
    FindAfterSet(t, s, e, cs, ce);
    assert FindSelectedCommentRegion(u, cs, ce, s, e + |cs| + |ce|) == Some(rg);
    ToggleFound(u, s, s, e + |cs| + |ce|, cs, ce, rg);
    UncommentSetIsOriginal(t, s, e, cs, ce, ToggleBlockComment(u, s, Some(Span(s, e + |cs| + |ce|)), Some(cs), Some(ce), false));
  }

  /** Taking back out the two tokens `SetCommentAt` put in gives the original text. */
  lemma UncommentSetIsOriginal(t: string, s: nat, e: nat, cs: string, ce: string, r: string)
    requires s <= e <= |t|
    requires Uncommented(SetCommentAt(t, s, e, cs, ce), Region(cs, ce, s, e + |cs|), r)
    ensures r == t
  {
    RemoveUndoesSet(t, s, e, cs, ce);
  }

  /** With a selection whose search finds a region, the toggle takes that region's tokens out. */
  lemma ToggleFound(t: string, caret: nat, ss: nat, se: nat, cs: string, ce: string, rg: Region)
    requires caret <= |t| && ss <= se <= |t| && |cs| > 0 && |ce| > 0
    requires FindSelectedCommentRegion(t, cs, ce, ss, se) == Some(rg)
    ensures Uncommented(t, rg, ToggleBlockComment(t, caret, Some(Span(ss, se)), Some(cs), Some(ce), false))
  {
  }

  /** Where the code as written completes, it agrees with the corrected search unless its region has the end token before the start token's end. */
  lemma AsWrittenAgrees(t: string, cs: string, ce: string, ss: nat, se: nat)
    requires |cs| > 0 && |ce| > 0 && ss <= se <= |t|
    ensures match FindSelectedCommentRegionAsWritten(t, cs, ce, ss, se)
      case Failure(_) => true
      case Success(None) => FindSelectedCommentRegion(t, cs, ce, ss, se).None?
      case Success(Some(rg)) =>
        FindSelectedCommentRegion(t, cs, ce, ss, se) ==
          if rg.startOffset + |cs| <= rg.endOffset then Some(rg) else None
  {
  }

  lemma Mismatch(s: string, pat: string, k: nat, j: nat)
    requires j < |pat| && k + |pat| <= |s| && s[k + j] != pat[j]
    ensures !OccursAt(s, pat, k)
  {
    assert s[k..k + |pat|][j] == s[k + j];
  }

  // The selection "a/" of the text "a/*b*/" ends inside a start token: the
  // search as written computes a negative count.
  lemma NegativeCountCounterexample()
    ensures FindSelectedCommentRegionAsWritten("a/*b*/", "/*", "*/", 0, 2).Failure?
    ensures FindSelectedCommentRegion("a/*b*/", "/*", "*/", 0, 2) == Some(Region("/*", "*/", 1, 4))
  {
    CounterexampleSearches();
  }

  /** The four searches on "a/*b*/" with "a/" selected. */
  lemma CounterexampleSearches()
    ensures SearchSlice("a/*b*/", "/*", 0, 2, 0) == -1
    ensures SearchSlice("a/*b*/", "*/", 0, 2, 0) == -1
    ensures StartBefore("a/*b*/", "/*", "*/", 0, 2) == 1
    ensures EndAfter("a/*b*/", "*/", 0) == 4
  {
    var t := "a/*b*/";
    Mismatch(t, "/*", 0, 0);
    assert OccursAt(t, "/*", 1);
    Mismatch(t, "/*", 2, 0);
    Mismatch(t, "/*", 3, 0);
    var p := t[0..3];
    assert p == "a/*";
    assert OccursAt(p, "/*", 1);
    Mismatch(p, "/*", 0, 0);
    assert LastIndexOf(p, "/*") == 1;
    Mismatch(t, "*/", 0, 0);
    Mismatch(t, "*/", 1, 0);
    Mismatch(t, "*/", 2, 1);
    Mismatch(t, "*/", 3, 0);
    assert OccursAt(t, "*/", 4);
    assert EndAfter(t, "*/", 0) == 4;
  }

  // In the text "*/*" with "/*" selected, the end token found lies before the
  // start token and the removal runs past the end of the text.
  lemma EndBeforeStartCounterexample()
    ensures FindSelectedCommentRegionAsWritten("*/*", "/*", "*/", 1, 3) == Success(Some(Region("/*", "*/", 1, 0)))
    ensures RemoveComment("*/*", Region("/*", "*/", 1, 0)).Failure?
    ensures FindSelectedCommentRegion("*/*", "/*", "*/", 1, 3).None?
  {
    var t := "*/*";
    assert OccursAt(t, "/*", 1);
    assert OccursAt(t, "*/", 0);
    assert SearchSlice(t, "/*", 1, 3, 1) == 1;
    assert SearchSlice(t, "*/", 0, 3, 0) == 0;
  }

  // The same defect without a throw: in "*/*xyz" with "/*" selected the code as
  // written removes "/*" and then the two characters at the stale start
  // offset, leaving "*z", while the corrected toggle wraps the selection.
  lemma SilentRemovalCounterexample()
    ensures FindSelectedCommentRegionAsWritten("*/*xyz", "/*", "*/", 1, 3) == Success(Some(Region("/*", "*/", 1, 0)))
    ensures RemoveComment("*/*xyz", Region("/*", "*/", 1, 0)) == Success("*z")
    ensures ToggleBlockComment("*/*xyz", 0, Some(Span(1, 3)), Some("/*"), Some("*/"), false) == "*/*/**/xyz"
  {
    var t := "*/*xyz";
    assert OccursAt(t, "/*", 1);
    assert OccursAt(t, "*/", 0);
    assert SearchSlice(t, "/*", 1, 3, 1) == 1;
    assert SearchSlice(t, "*/", 0, 6, 0) == 0;
    assert Remove(t, 0, 2) == "*xyz";
    assert Remove("*xyz", 1, 2) == "*z";
  }
}
