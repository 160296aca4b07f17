/**
 * `extractImgTagsFromHtmlString`: the successive matches of the global
 * regular expression `<img[^>]+src="([^"]+)` over an HTML string.
 *
 * The regular expression is replaced by an explicit scanner. At a start
 * position `p` the greedy `[^>]+` backtracks from the first `>` after
 * `<img`, so the match takes the LAST `src="` that the tag reaches and that
 * is followed by a character other than `"`; the greedy `[^"]+` then
 * captures everything up to the next `"` (or the end of the text).
 */
module HtmlScanner {
  import opened Wrappers
  import opened JsText

  /** One result of `regexp.exec`: its `index`, the matched text (`[0]`) and the captured src (`[1]`). */
  datatype ImgTag = ImgTag(index: nat, matched: string, src: string) {
    /** The `lastIndex` of the regular expression after this match. */
    function End(): nat {
      index + |matched|
    }
  }

  const ImgOpen := "<img"
  const SrcOpen := "src=\""

  /** `src="` at `j`, followed by at least one character other than `"`. */
  predicate SrcOpensAt(s: string, j: int) {
    OccursAt(s, SrcOpen, j) && j + 5 < |s| && s[j + 5] != '"'
  }

  /** From `<img` at `p`, a non-empty run of characters other than `>` reaches `src="` at `j`. */
  predicate SrcReachable(s: string, p: int, j: int) {
    OccursAt(s, ImgOpen, p) && p + 5 <= j && SrcOpensAt(s, j) &&
    forall k :: p + 4 <= k < j ==> s[k] != '>'
  }

  /** The regular expression has a match starting at `p`. */
  ghost predicate MatchesAt(s: string, p: int) {
    exists j :: SrcReachable(s, p, j)
  }

  /**
   * `t` is the match of the regular expression that starts at `t.index`:
   * the last reachable `src="`, and a capture that stops just before a `"`
   * or at the end of the text.
   */
  ghost predicate IsImgMatch(s: string, t: ImgTag) {
    var p, k := t.index, t.End();
    k <= |s| && t.matched == s[p..k] && |t.src| + 5 <= |t.matched| &&
    SrcReachable(s, p, k - |t.src| - 5) &&
    (forall j :: k - |t.src| - 5 < j ==> !SrcReachable(s, p, j)) &&
    t.src == s[k - |t.src|..k] && '"' !in t.src && (k == |s| || s[k] == '"')
  }

  /** The first index at or after `i` that holds `c`, or the length of `s`. */
  function IndexOfCharOrEnd(s: string, i: nat, c: char): (e: nat)
    requires i <= |s|
    ensures i <= e <= |s| && (e == |s| || s[e] == c)
    ensures forall k :: i <= k < e ==> s[k] != c
    decreases |s| - i
  {
    if i == |s| || s[i] == c then i else IndexOfCharOrEnd(s, i + 1, c)
  }

  /** The largest `j` in `[lo, hi)` at which `src="` opens a capture. */
  function LastSrcOpen(s: string, lo: nat, hi: nat): (r: Option<nat>)
    ensures r.Some? ==> lo <= r.value < hi && SrcOpensAt(s, r.value)
    ensures r.Some? ==> forall j :: r.value < j < hi ==> !SrcOpensAt(s, j)
    ensures r.None? ==> forall j :: lo <= j < hi ==> !SrcOpensAt(s, j)
    decreases hi
  {
    if hi <= lo then None
    else if SrcOpensAt(s, hi - 1) then Some(hi - 1)
    else LastSrcOpen(s, lo, hi - 1)
  }

  /**
   * With `e` the first `>` at or after `p + 4` (or the end of the text), the
   * pattern starting at `p` reaches exactly the `src="` openings in `[p + 5, e)`.
   */
  lemma {:induction false} ReachableBeforeTagEnd(s: string, p: nat, e: nat, j: int)
    requires OccursAt(s, ImgOpen, p) && p + 4 <= e <= |s| && (e == |s| || s[e] == '>')
    requires forall k :: p + 4 <= k < e ==> s[k] != '>'
    ensures SrcReachable(s, p, j) <==> p + 5 <= j < e && SrcOpensAt(s, j)
  {
    if SrcReachable(s, p, j) {
      assert s[j] == SrcOpen[0];
    }
  }

  /** The match built from the last reachable `src="` is the one the regular expression returns. */
  lemma {:induction false} MatchFromLastOpen(s: string, p: nat, j: nat, k: nat)
    requires SrcReachable(s, p, j)
    requires forall j' :: j < j' ==> !SrcReachable(s, p, j')
    requires j + 5 <= k <= |s| && (k == |s| || s[k] == '"')
    requires forall i :: j + 5 <= i < k ==> s[i] != '"'
    ensures IsImgMatch(s, ImgTag(p, s[p..k], s[j + 5..k]))
  {
    var t := ImgTag(p, s[p..k], s[j + 5..k]);
    assert t.End() == k;
    assert k - |t.src| - 5 == j;
    assert forall i :: 0 <= i < |t.src| ==> t.src[i] != '"';
  }

  /** One attempt of the regular expression at position `p`. */
  function ImgMatchAt(s: string, p: nat): (r: Option<ImgTag>)
    ensures r.Some? <==> MatchesAt(s, p)
    ensures r.Some? ==> r.value.index == p && IsImgMatch(s, r.value)
  {
    if !OccursAt(s, ImgOpen, p) then None
    else
      var e := IndexOfCharOrEnd(s, p + 4, '>');
      assert forall j :: SrcReachable(s, p, j) <==> p + 5 <= j < e && SrcOpensAt(s, j) by {
        forall j ensures SrcReachable(s, p, j) <==> p + 5 <= j < e && SrcOpensAt(s, j) {
          ReachableBeforeTagEnd(s, p, e, j);
        }
      }
      match LastSrcOpen(s, p + 5, e)
      case None => None
      case Some(j) =>
        var k := IndexOfCharOrEnd(s, j + 5, '"');
        MatchFromLastOpen(s, p, j, k);
        Some(ImgTag(p, s[p..k], s[j + 5..k]))
  }

  /** `regexp.exec( s )` with `lastIndex == from`: the leftmost match at or after `from`. */
  function NextImgMatch(s: string, from: nat): (r: Option<ImgTag>)
    ensures r.Some? ==> from <= r.value.index && IsImgMatch(s, r.value)
    ensures r.Some? ==> forall p :: from <= p < r.value.index ==> !MatchesAt(s, p)
    ensures r.None? ==> forall p :: from <= p ==> !MatchesAt(s, p)
    decreases |s| - from
  {
    if |s| <= from then None
    else
      match ImgMatchAt(s, from)
      case Some(t) => Some(t)
      case None => NextImgMatch(s, from + 1)
  }

  /** Where the search for the `i`-th match of a scan from `from` starts. */
  function GapStart(from: nat, tags: seq<ImgTag>, i: nat): nat
    requires i <= |tags|
  {
    if i == 0 then from else tags[i - 1].End()
  }

  /** Every entry is a match at or after `from`. */
  ghost predicate AllMatches(s: string, from: nat, tags: seq<ImgTag>) {
    forall i :: 0 <= i < |tags| ==> IsImgMatch(s, tags[i]) && from <= tags[i].index
  }

  /** Entries are in document order and do not overlap. */
  ghost predicate InOrder(tags: seq<ImgTag>) {
    forall i, j :: 0 <= i < j < |tags| ==> tags[i].End() <= tags[j].index
  }

  /** No match starts in a gap before an entry, nor after the last entry. */
  ghost predicate NoneSkipped(s: string, from: nat, tags: seq<ImgTag>) {
    (forall i, p :: 0 <= i < |tags| && GapStart(from, tags, i) <= p < tags[i].index ==> !MatchesAt(s, p)) &&
    (forall p :: GapStart(from, tags, |tags|) <= p ==> !MatchesAt(s, p))
  }

  /** `tags` is the complete left-to-right scan of `s` from `from`. */
  ghost predicate IsScan(s: string, from: nat, tags: seq<ImgTag>) {
    AllMatches(s, from, tags) && InOrder(tags) && NoneSkipped(s, from, tags)
  }

  /** All matches from `from` on, as repeated `exec` calls return them. */
  function ImgTagsFrom(s: string, from: nat): (tags: seq<ImgTag>)
    decreases |s| - from
  {
    match NextImgMatch(s, from)
    case None => []
    case Some(t) => [t] + ImgTagsFrom(s, t.End())
  }

  /** Putting the leftmost match in front of a scan from its end gives a scan from `from`. */
  lemma {:induction false} ScanCons(s: string, from: nat, t: ImgTag, rest: seq<ImgTag>)
    requires NextImgMatch(s, from) == Some(t)
    requires IsScan(s, t.End(), rest)
    ensures IsScan(s, from, [t] + rest)
  {
    var tags := [t] + rest;
    assert AllMatches(s, from, tags) by {
      assert AllMatches(s, t.End(), rest);
    }
    assert InOrder(tags) by {
      ConsInOrder(t, rest);
    }
    assert NoneSkipped(s, from, tags) by {
      ConsNoneSkipped(s, from, t, rest);
    }
  }

  lemma {:induction false} ConsInOrder(t: ImgTag, rest: seq<ImgTag>)
    requires InOrder(rest)
    requires forall i :: 0 <= i < |rest| ==> t.End() <= rest[i].index
    ensures InOrder([t] + rest)
  {
    var tags := [t] + rest;
    forall i, j | 0 <= i < j < |tags| ensures tags[i].End() <= tags[j].index {
      assert tags[j] == rest[j - 1];
      if 0 < i {
        assert tags[i] == rest[i - 1];
      }
    }
  }

  lemma {:induction false} ConsNoneSkipped(s: string, from: nat, t: ImgTag, rest: seq<ImgTag>)
    requires forall p :: from <= p < t.index ==> !MatchesAt(s, p)
    requires NoneSkipped(s, t.End(), rest)
    ensures NoneSkipped(s, from, [t] + rest)
  {
    var tags := [t] + rest;
    forall i | 0 < i <= |tags| ensures GapStart(from, tags, i) == GapStart(t.End(), rest, i - 1) {
    }
    forall i, p | 0 <= i < |tags| && GapStart(from, tags, i) <= p < tags[i].index
      ensures !MatchesAt(s, p)
    {
      if 0 < i {
        assert tags[i] == rest[i - 1];
      }
    }
  }

  /** The sequence of `exec` results is the complete left-to-right scan. */
  lemma {:induction false} ImgTagsFromIsScan(s: string, from: nat)
    ensures IsScan(s, from, ImgTagsFrom(s, from))
    decreases |s| - from
  {
    match NextImgMatch(s, from)
    case None =>
    case Some(t) =>
      ImgTagsFromIsScan(s, t.End());
      ScanCons(s, from, t, ImgTagsFrom(s, t.End()));
  }

  /**
   * `extractImgTagsFromHtmlString`: the do-while loop calls `exec` until it
   * returns `null`; that final `null` is what `ret.pop()` removes, so here it
   * is never pushed.
   */
  method ExtractImgTagsFromHtmlString(htmlString: string) returns (ret: seq<ImgTag>)
    ensures ret == ImgTagsFrom(htmlString, 0)
    ensures IsScan(htmlString, 0, ret)
    ensures forall i :: 0 <= i < |ret| ==> |ret[i].src| > 0 && '"' !in ret[i].src
  {
    ret := [];
    var lastIndex := 0;
    while true
      invariant lastIndex <= |htmlString|
      invariant ImgTagsFrom(htmlString, 0) == ret + ImgTagsFrom(htmlString, lastIndex)
      decreases |htmlString| - lastIndex
    {
      var m := NextImgMatch(htmlString, lastIndex);
      if m.None? {
        break;
      }
      ret := ret + [m.value];
      lastIndex := m.value.End();
    }
    ImgTagsFromIsScan(htmlString, 0);
  }
}
