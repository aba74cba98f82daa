/**
 * The string primitives the actions rely on: ordinal `IndexOf`/`LastIndexOf`
 * searches that answer -1 when nothing is found, `Trim`, `StartsWith`, and the
 * leading-space count used when unindenting.
 */
module Strings {

  /** `char.IsWhiteSpace`: the Unicode space separators, line and paragraph separators and the controls U+0009..U+000D, U+0085. */
  predicate IsWhiteSpace(c: char) {
    || ('\U{0009}' <= c <= '\U{000D}') || c == ' ' || c == '\U{0085}' || c == '\U{00A0}'
    || c == '\U{1680}' || ('\U{2000}' <= c <= '\U{200A}') || c == '\U{2028}' || c == '\U{2029}'
    || c == '\U{202F}' || c == '\U{205F}' || c == '\U{3000}'
  }

  predicate StartsWith(s: string, p: string) {
    |p| <= |s| && s[..|p|] == p
  }

  predicate OccursAt(s: string, pat: string, k: nat) {
    k + |pat| <= |s| && s[k..k + |pat|] == pat
  }

  /**
   * `s.IndexOf(pat, from, end - from)`: the first position `k >= from` at which
   * `pat` occurs entirely inside `s[..end]`, or -1.
   */
  function IndexOfIn(s: string, pat: string, from: nat, end: nat): (r: int)
    requires from <= end <= |s|
    ensures r == -1 || (from <= r && r + |pat| <= end && OccursAt(s, pat, r))
    ensures r == -1 ==> forall k :: from <= k && k + |pat| <= end ==> !OccursAt(s, pat, k)
    ensures r >= 0 ==> forall k :: from <= k < r ==> !OccursAt(s, pat, k)
    decreases end - from
  {
    if from + |pat| > end then -1
    else if OccursAt(s, pat, from) then from
    else IndexOfIn(s, pat, from + 1, end)
  }

  /** `s.IndexOf(pat, from)`. */
  function IndexOfFrom(s: string, pat: string, from: nat): int
    requires from <= |s|
  {
    IndexOfIn(s, pat, from, |s|)
  }

  /** `s.IndexOf(pat)`. */
  function IndexOf(s: string, pat: string): int {
    IndexOfIn(s, pat, 0, |s|)
  }

  /** The last position `k <= upTo` at which `pat` occurs in `s`, or -1. */
  function LastIndexOfUpTo(s: string, pat: string, upTo: nat): (r: int)
    ensures r == -1 || (0 <= r <= upTo && OccursAt(s, pat, r))
    ensures r == -1 ==> forall k :: 0 <= k <= upTo ==> !OccursAt(s, pat, k)
    ensures r >= 0 ==> forall k :: r < k <= upTo ==> !OccursAt(s, pat, k)
    decreases upTo
  {
    if OccursAt(s, pat, upTo) then upTo
    else if upTo == 0 then -1
    else LastIndexOfUpTo(s, pat, upTo - 1)
  }

  /** `s.LastIndexOf(pat)`: the last position at which `pat` occurs, or -1. */
  function LastIndexOf(s: string, pat: string): (r: int)
    ensures r == -1 || (0 <= r && OccursAt(s, pat, r))
    ensures r == -1 ==> forall k :: 0 <= k ==> !OccursAt(s, pat, k)
    ensures r >= 0 ==> forall k :: r < k ==> !OccursAt(s, pat, k)
  {
    LastIndexOfUpTo(s, pat, |s|)
  }

  function TrimStart(s: string): (r: string)
    ensures |r| <= |s| && r == s[|s| - |r|..]
    ensures forall k :: 0 <= k < |s| - |r| ==> IsWhiteSpace(s[k])
    ensures r == [] || !IsWhiteSpace(r[0])
  {
    if |s| > 0 && IsWhiteSpace(s[0]) then TrimStart(s[1..]) else s
  }

  function TrimEnd(s: string): (r: string)
    ensures |r| <= |s| && r == s[..|r|]
    ensures forall k :: |r| <= k < |s| ==> IsWhiteSpace(s[k])
    ensures r == [] || !IsWhiteSpace(r[|r| - 1])
  {
    if |s| > 0 && IsWhiteSpace(s[|s| - 1]) then TrimEnd(s[..|s| - 1]) else s
  }

  /** `string.Trim()`: leading and trailing white space removed. */
  function Trim(s: string): string {
    TrimEnd(TrimStart(s))
  }

  /** Trimming a string that starts with a token whose ends are not white space keeps the token in front. */
  lemma TrimKeepsToken(tok: string, x: string)
    requires |tok| > 0 && !IsWhiteSpace(tok[0]) && !IsWhiteSpace(tok[|tok| - 1])
    ensures StartsWith(Trim(tok + x), tok)
  {
    var s := tok + x;
    assert TrimStart(s) == s;
    var r := TrimEnd(s);
    assert s[|tok| - 1] == tok[|tok| - 1];
    assert |r| >= |tok|;
    assert r[..|tok|] == s[..|tok|] == tok;
  }

  /** `s.Trim().StartsWith(tok)`, with the trailing white space stripped from the right. */
  predicate TrimEndStartsWith(s: string, tok: string)
    decreases |s|
  {
    if |s| > 0 && IsWhiteSpace(s[|s| - 1]) then TrimEndStartsWith(s[..|s| - 1], tok) else StartsWith(s, tok)
  }

  /** `s.Trim().StartsWith(tok)`, with the leading white space stripped first. */
  predicate TrimStartsWith(s: string, tok: string)
    decreases |s|
  {
    if |s| > 0 && IsWhiteSpace(s[0]) then TrimStartsWith(s[1..], tok) else TrimEndStartsWith(s, tok)
  }

  lemma {:induction false} TrimEndStartsWithIsTrimEnd(s: string, tok: string)
    ensures TrimEndStartsWith(s, tok) <==> StartsWith(TrimEnd(s), tok)
    decreases |s|
  {
    if |s| > 0 && IsWhiteSpace(s[|s| - 1]) {
      TrimEndStartsWithIsTrimEnd(s[..|s| - 1], tok);
    }
  }

  /** The stepwise test agrees with trimming both ends and then comparing. */
  lemma {:induction false} TrimStartsWithIsTrim(s: string, tok: string)
    ensures TrimStartsWith(s, tok) <==> StartsWith(Trim(s), tok)
    decreases |s|
  {
    if |s| > 0 && IsWhiteSpace(s[0]) {
      assert TrimStart(s) == TrimStart(s[1..]);
      TrimStartsWithIsTrim(s[1..], tok);
    } else {
      assert TrimStart(s) == s;
      TrimEndStartsWithIsTrimEnd(s, tok);
    }
  }

  /** A string that passes the stepwise test holds the token where its trailing white space was cut off. */
  lemma {:induction false} TrimEndStartsWithOccurs(s: string, tok: string)
    requires TrimEndStartsWith(s, tok)
    ensures OccursAt(s, tok, 0)
    decreases |s|
  {
    if |s| > 0 && IsWhiteSpace(s[|s| - 1]) {
      var t := s[..|s| - 1];
      TrimEndStartsWithOccurs(t, tok);
      assert s[..|tok|] == t[..|tok|];
    }
  }

  /** A string that passes the stepwise test holds the token after its leading white space. */
  lemma {:induction false} TrimStartsWithOccurs(s: string, tok: string) returns (at: nat)
    requires TrimStartsWith(s, tok)
    ensures OccursAt(s, tok, at)
    decreases |s|
  {
    if |s| > 0 && IsWhiteSpace(s[0]) {
      var k := TrimStartsWithOccurs(s[1..], tok);
      assert s[1..][k..k + |tok|] == s[k + 1..k + 1 + |tok|];
      at := k + 1;
    } else {
      TrimEndStartsWithOccurs(s, tok);
      at := 0;
    }
  }

  /** The number of spaces a string begins with. */
  function LeadingSpaces(s: string): (n: nat)
    ensures n <= |s|
    ensures forall k :: 0 <= k < n ==> s[k] == ' '
    ensures n == |s| || s[n] != ' '
  {
    if |s| > 0 && s[0] == ' ' then 1 + LeadingSpaces(s[1..]) else 0
  }
}
