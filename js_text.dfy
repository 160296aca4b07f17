/**
 * The ECMAScript string operations the plugin relies on, over `seq<char>`:
 * the `\s` character class, `indexOf`, `replace` with a string pattern and
 * `replace( /\s/g, '' )`.
 */
module JsText {
  import opened Wrappers

  /**
   * The `\s` class of an ECMAScript regular expression: the WhiteSpace and
   * LineTerminator code points U+0009-U+000D, U+0020, U+00A0, U+1680,
   * U+2000-U+200A, U+2028, U+2029, U+202F, U+205F, U+3000 and U+FEFF.
   */
  predicate IsSpace(c: char) {
    ('\t' <= c <= '\r') || c == ' ' || c == '\U{00A0}' || c == '\U{1680}' ||
    ('\U{2000}' <= c <= '\U{200A}') || c == '\U{2028}' || c == '\U{2029}' || c == '\U{202F}' ||
    c == '\U{205F}' || c == '\U{3000}' || c == '\U{FEFF}'
  }

  /** The class `[0-9a-f]`. */
  predicate IsLowerHexDigit(c: char) {
    '0' <= c <= '9' || 'a' <= c <= 'f'
  }

  /** `pat` occurs in `s` starting at index `i`. */
  predicate OccursAt(s: string, pat: string, i: int) {
    0 <= i && i + |pat| <= |s| && forall k :: 0 <= k < |pat| ==> s[i + k] == pat[k]
  }

  /** An occurrence is a slice equal to the pattern. */
  lemma {:induction false} OccursAtIsSlice(s: string, pat: string, i: int)
    ensures OccursAt(s, pat, i) <==> 0 <= i && i + |pat| <= |s| && s[i..i + |pat|] == pat
  {
    if 0 <= i && i + |pat| <= |s| {
      if OccursAt(s, pat, i) {
        assert s[i..i + |pat|] == pat;
      } else {
        var k :| 0 <= k < |pat| && s[i + k] != pat[k];
        assert s[i..i + |pat|][k] != pat[k];
      }
    }
  }

  /** `k` is the leftmost occurrence of `pat` in `s`. */
  predicate IsFirstOccurrence(s: string, pat: string, k: int) {
    OccursAt(s, pat, k) && forall j :: 0 <= j < k ==> !OccursAt(s, pat, j)
  }

  /** `s.indexOf( pat, from )`, with `None` for -1. */
  function IndexOf(s: string, pat: string, from: nat): (r: Option<nat>)
    ensures r.Some? ==> from <= r.value && OccursAt(s, pat, r.value)
    decreases |s| - from
  {
    if |s| < from + |pat| then None
    else if OccursAt(s, pat, from) then Some(from)
    else IndexOf(s, pat, from + 1)
  }

  /** `indexOf` finds the leftmost occurrence at or after `from`, and -1 means there is none. */
  lemma {:induction false} IndexOfLeftmost(s: string, pat: string, from: nat)
    ensures IndexOf(s, pat, from).Some? ==> forall k :: from <= k < IndexOf(s, pat, from).value ==> !OccursAt(s, pat, k)
    ensures IndexOf(s, pat, from).None? ==> forall k :: from <= k ==> !OccursAt(s, pat, k)
    decreases |s| - from
  {
    if |s| >= from + |pat| && !OccursAt(s, pat, from) {
      IndexOfLeftmost(s, pat, from + 1);
    }
  }

  /** `s.indexOf( pat ) !== -1`. */
  predicate Contains(s: string, pat: string) {
    IndexOf(s, pat, 0).Some?
  }

  /**
   * `s.replace( pat, rep )` with a string pattern: the first occurrence of
   * `pat` is replaced by `rep`. A `$` in `rep` would start a replacement
   * pattern in ECMAScript, so only replacements without `$` are literal.
   */
  function ReplaceFirst(s: string, pat: string, rep: string): (r: string)
    requires '$' !in rep
  {
    match IndexOf(s, pat, 0)
    case None => s
    case Some(k) => s[..k] + rep + s[k + |pat|..]
  }

  /** Without an occurrence nothing changes; otherwise exactly the leftmost occurrence is replaced. */
  lemma {:induction false} ReplaceFirstSpec(s: string, pat: string, rep: string)
    requires '$' !in rep
    ensures (forall k :: !OccursAt(s, pat, k)) ==> ReplaceFirst(s, pat, rep) == s
    ensures forall k :: IsFirstOccurrence(s, pat, k) ==> ReplaceFirst(s, pat, rep) == s[..k] + rep + s[k + |pat|..]
  {
    IndexOfLeftmost(s, pat, 0);
    match IndexOf(s, pat, 0)
    case None =>
    case Some(k) =>
      assert forall j :: IsFirstOccurrence(s, pat, j) ==> j == k;
  }

  /** Replacing the first `pat` keeps every character that neither `pat` nor `rep` contains. */
  lemma {:induction false} ReplaceFirstKeepsOthers(s: string, pat: string, rep: string, c: char)
    requires '$' !in rep && c !in pat && c !in rep
    ensures multiset(ReplaceFirst(s, pat, rep))[c] == multiset(s)[c]
  {
    match IndexOf(s, pat, 0)
    case None =>
    case Some(k) =>
      IndexOfLeftmost(s, pat, 0);
      OccursAtIsSlice(s, pat, k);
      assert s == s[..k] + s[k..k + |pat|] + s[k + |pat|..];
      assert multiset(s) == multiset(s[..k]) + multiset(pat) + multiset(s[k + |pat|..]);
  }

  /** `s.replace( /\s/g, '' )`: every whitespace character removed, the others kept in order. */
  function RemoveSpaces(s: string): (r: string)
  {
    if s == [] then []
    else (if IsSpace(s[0]) then [] else [s[0]]) + RemoveSpaces(s[1..])
  }

  /** No whitespace is left, and text without whitespace is unchanged. */
  lemma {:induction false} RemoveSpacesSpec(s: string)
    ensures forall i :: 0 <= i < |RemoveSpaces(s)| ==> !IsSpace(RemoveSpaces(s)[i])
    ensures (forall i :: 0 <= i < |s| ==> !IsSpace(s[i])) ==> RemoveSpaces(s) == s
  {
    if s != [] {
      RemoveSpacesSpec(s[1..]);
      var head := if IsSpace(s[0]) then [] else [s[0]];
      var r := RemoveSpaces(s);
      assert r == head + RemoveSpaces(s[1..]);
      forall i | 0 <= i < |r| ensures !IsSpace(r[i]) {
        if i >= |head| {
          assert r[i] == RemoveSpaces(s[1..])[i - |head|];
        }
      }
      if forall i :: 0 <= i < |s| ==> !IsSpace(s[i]) {
        assert !IsSpace(s[0]);
        assert forall i :: 0 <= i < |s[1..]| ==> !IsSpace(s[1..][i]) by {
          forall i | 0 <= i < |s[1..]| ensures !IsSpace(s[1..][i]) {
            assert s[1..][i] == s[i + 1];
          }
        }
        assert s == [s[0]] + s[1..];
      }
    }
  }

  /** `RemoveSpaces` keeps every other character as often as it occurs. */
  lemma {:induction false} RemoveSpacesKeepsOthers(s: string, c: char)
    requires !IsSpace(c)
    ensures multiset(RemoveSpaces(s))[c] == multiset(s)[c]
  {
    if s != [] {
      RemoveSpacesKeepsOthers(s[1..], c);
      assert s == [s[0]] + s[1..];
      assert multiset(s)[c] == multiset([s[0]])[c] + multiset(s[1..])[c];
      if IsSpace(s[0]) {
        assert RemoveSpaces(s) == RemoveSpaces(s[1..]);
      } else {
        assert RemoveSpaces(s) == [s[0]] + RemoveSpaces(s[1..]);
      }
    }
  }
}
