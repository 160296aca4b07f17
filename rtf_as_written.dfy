/**
 * The classification step of `extractImagesFromRtf` exactly as written:
 * each matched text is matched again against `rePictureHeader` and
 * `reShapeHeader` on their own, and a picture's hex is what remains after
 * cutting out the header those standalone patterns find.
 *
 * The lemmas here show that this re-run never fails to find a header, so
 * the `throw` is unreachable; `RtfFinding` shows, on a concrete input, that
 * it can disagree with the intended classification of
 * `RtfExtractor.Classify`.
 */
module RtfAsWritten {
  import opened Wrappers
  import opened JsText
  import opened RtfExtractor

  /** `rePictureHeader` (or `reShapeHeader`) tried alone at `p`: where its match ends. */
  function HeaderAt(s: string, kind: Kind, p: nat): (r: Option<nat>)
    ensures r.Some? ==> p < r.value <= |s|
  {
    if !OccursAt(s, Open(kind), p) then None
    else
      match FirstFit(s, kind, p + |Open(kind)| + 1, false)
      case None => None
      case Some(q) =>
        FirstFitFits(s, kind, p + |Open(kind)| + 1, false);
        var m := MarkerEnd(s, kind, q).value;
        Some(if m < |s| && IsSpace(s[m]) then m + 1 else m)
  }

  /** The leftmost header of `kind` at or after `from`: its start and end. */
  function FindHeader(s: string, kind: Kind, from: nat): (r: Option<(nat, nat)>)
    ensures r.Some? ==> from <= r.value.0 < r.value.1 <= |s| && HeaderAt(s, kind, r.value.0) == Some(r.value.1)
    decreases |s| - from
  {
    if |s| <= from then None
    else
      match HeaderAt(s, kind, from)
      case Some(e) => Some((from, e))
      case None => FindHeader(s, kind, from + 1)
  }

  /**
   * `FindHeader` finds the leftmost header at or after `from`, and `None`
   * means that no header starts at or after `from`.
   */
  lemma {:induction false} FindHeaderLeftmost(s: string, kind: Kind, from: nat)
    ensures FindHeader(s, kind, from).Some? ==>
      forall j :: from <= j < FindHeader(s, kind, from).value.0 ==> HeaderAt(s, kind, j).None?
    ensures FindHeader(s, kind, from).None? ==> forall j :: from <= j ==> HeaderAt(s, kind, j).None?
    decreases |s| - from
  {
    if |s| <= from {
      assert FindHeader(s, kind, from).None?;
      NoHeaderPastEnd(s, kind, from);
    } else if HeaderAt(s, kind, from).Some? {
      assert FindHeader(s, kind, from).value.0 == from;
    } else {
      var r := FindHeader(s, kind, from + 1);
      assert FindHeader(s, kind, from) == r;
      FindHeaderLeftmost(s, kind, from + 1);
      if r.Some? {
        NoHeaderExtends(s, kind, from, r.value.0);
      } else {
        NoHeaderExtendsAll(s, kind, from);
      }
    }
  }

  /** No header in `[from + 1, hi)` and none at `from`: none in `[from, hi)`. */
  lemma {:induction false} NoHeaderExtends(s: string, kind: Kind, from: nat, hi: nat)
    requires HeaderAt(s, kind, from).None?
    requires forall j :: from + 1 <= j < hi ==> HeaderAt(s, kind, j).None?
    ensures forall j :: from <= j < hi ==> HeaderAt(s, kind, j).None?
  {
    forall j | from <= j < hi ensures HeaderAt(s, kind, j).None? {
      if from < j {
        NoHeaderBetween(s, kind, from + 1, hi, j);
      }
    }
  }

  /** No header at or after `from + 1` and none at `from`: none at or after `from`. */
  lemma {:induction false} NoHeaderExtendsAll(s: string, kind: Kind, from: nat)
    requires HeaderAt(s, kind, from).None?
    requires forall j :: from + 1 <= j ==> HeaderAt(s, kind, j).None?
    ensures forall j :: from <= j ==> HeaderAt(s, kind, j).None?
  {
    forall j | from <= j ensures HeaderAt(s, kind, j).None? {
      if from < j {
        NoHeaderAfter(s, kind, from + 1, j);
      }
    }
  }

  lemma {:induction false} NoHeaderBetween(s: string, kind: Kind, lo: nat, hi: nat, j: nat)
    requires forall i :: lo <= i < hi ==> HeaderAt(s, kind, i).None?
    requires lo <= j < hi
    ensures HeaderAt(s, kind, j).None?
  {
  }

  lemma {:induction false} NoHeaderAfter(s: string, kind: Kind, lo: nat, j: nat)
    requires forall i :: lo <= i ==> HeaderAt(s, kind, i).None?
    requires lo <= j
    ensures HeaderAt(s, kind, j).None?
  {
  }

  /** No header starts at or past the end of the text. */
  lemma {:induction false} NoHeaderPastEnd(s: string, kind: Kind, from: nat)
    requires |s| <= from
    ensures forall j :: from <= j ==> HeaderAt(s, kind, j).None?
  {
    forall j | from <= j ensures HeaderAt(s, kind, j).None? {
      assert !OccursAt(s, Open(kind), j);
    }
  }

  /** `rePictureHeader.test( w )` or `reShapeHeader.test( w )`. */
  predicate HeaderTest(w: string, kind: Kind) {
    FindHeader(w, kind, 0).Some?
  }

  /** `w.replace( rePictureHeader, '' )`: the leftmost picture header cut out. */
  function RemovePictureHeader(w: string): string {
    match FindHeader(w, Picture, 0)
    case None => w
    case Some((p, e)) => w[..p] + w[e..]
  }

  /**
   * The hex of line 109 as written: the picture header found by re-running
   * `rePictureHeader` on the match is cut out, then all whitespace, then the
   * first `}}`. No whitespace is left, and every character other than
   * whitespace and `}` is kept from the text without its header, as often
   * as it occurs there.
   */
  function PictureHexAsWritten(w: string): (r: string)
    ensures forall i :: 0 <= i < |r| ==> !IsSpace(r[i])
    ensures forall c :: !IsSpace(c) && c != '}' ==> multiset(r)[c] == multiset(RemovePictureHeader(w))[c]
  {
    var tail := RemovePictureHeader(w);
    SpacelessHexKeeps(tail);
    SpacelessHexHasNoSpace(tail);
    ReplaceFirst(RemoveSpaces(tail), GroupClose, "")
  }

  lemma {:induction false} SpacelessHexKeeps(tail: string)
    ensures var r := ReplaceFirst(RemoveSpaces(tail), GroupClose, "");
      forall c :: !IsSpace(c) && c != '}' ==> multiset(r)[c] == multiset(tail)[c]
  {
    var r := ReplaceFirst(RemoveSpaces(tail), GroupClose, "");
    forall c | !IsSpace(c) && c != '}' ensures multiset(r)[c] == multiset(tail)[c] {
      RemoveSpacesKeepsOthers(tail, c);
      ReplaceFirstKeepsOthers(RemoveSpaces(tail), GroupClose, "", c);
    }
  }

  lemma {:induction false} SpacelessHexHasNoSpace(tail: string)
    ensures forall i :: 0 <= i < |ReplaceFirst(RemoveSpaces(tail), GroupClose, "")| ==>
      !IsSpace(ReplaceFirst(RemoveSpaces(tail), GroupClose, "")[i])
  {
    var t := RemoveSpaces(tail);
    RemoveSpacesSpec(tail);
    match IndexOf(t, GroupClose, 0)
    case None =>
    case Some(k) =>
      var r := t[..k] + "" + t[k + |GroupClose|..];
      forall i | 0 <= i < |r| ensures !IsSpace(r[i]) {
        if i < k {
          assert r[i] == t[i];
        } else {
          assert r[i] == t[i + |GroupClose|];
        }
      }
  }

  /**
   * The classification of one matched text, lines 99-120 as written: a
   * text that passes the picture test gets the type sniffed from it and,
   * when typed, the hex of line 109; one that passes only the shape test
   * gets `{ hex: null, type: null }`; the error when it passes neither.
   */
  function ClassifyAsWritten(w: string): (r: Result<RtfImage, RtfError>)
    ensures r.Err? <==> !HeaderTest(w, Picture) && !HeaderTest(w, Shape)
    ensures HeaderTest(w, Picture) ==> r.Ok? && r.value.imageType == SniffType(w)
    ensures r.Ok? ==> (r.value.hex.Some? <==> r.value.imageType.Some?)
    ensures r.Ok? && r.value.hex.Some? ==> HeaderTest(w, Picture) && r.value.hex.value == PictureHexAsWritten(w)
    ensures !HeaderTest(w, Picture) && HeaderTest(w, Shape) ==> r == Ok(RtfImage(None, None))
  {
    if HeaderTest(w, Picture) then
      var imageType := SniffType(w);
      Ok(RtfImage(if imageType.Some? then Some(PictureHexAsWritten(w)) else None, imageType))
    else if HeaderTest(w, Shape) then
      Ok(RtfImage(None, None))
    else
      Err(ImageProcessingProblem)
  }

  /** A position of the whole text seen inside the window `[p, e)`, if it lies in it. */
  function Shift(o: Option<nat>, p: nat, e: nat): (r: Option<nat>)
    ensures r.Some? <==> o.Some? && p <= o.value <= e
    ensures r.Some? ==> r.value == o.value - p
  {
    if o.Some? && p <= o.value <= e then Some(o.value - p) else None
  }

  function Min(a: nat, b: nat): nat {
    if a <= b then a else b
  }

  lemma {:induction false} OccursAtSlice(s: string, p: nat, e: nat, pat: string, j: nat)
    requires p <= e <= |s|
    ensures OccursAt(s[p..e], pat, j) <==> OccursAt(s, pat, p + j) && p + j + |pat| <= e
  {
    if p + j + |pat| <= e {
      var u, v := s[p..e][j..j + |pat|], s[p + j..p + j + |pat|];
      forall k | 0 <= k < |u| ensures u[k] == v[k] {
      }
      assert u == v;
    }
  }

  lemma {:induction false} RunEndSlice(s: string, p: nat, e: nat, i: nat, cls: CharClass)
    requires p <= i <= e <= |s|
    ensures RunEnd(s[p..e], i - p, cls) + p == Min(RunEnd(s, i, cls), e)
    decreases e - i
  {
    if i < e {
      assert s[p..e][i - p] == s[i];
      if InClass(s[i], cls) {
        RunEndSlice(s, p, e, i + 1, cls);
      }
    }
  }

  lemma {:induction false} UidEndSlice(s: string, p: nat, e: nat, i: nat)
    requires p <= i <= e <= |s|
    ensures UidEnd(s[p..e], i - p) == Shift(UidEnd(s, i), p, e)
  {
    var w := s[p..e];
    var a := RunEnd(s, i, Space);
    var a' := RunEnd(w, i - p, Space);
    assert a' + p == Min(a, e) by {
      RunEndSlice(s, p, e, i, Space);
    }
    if a <= e {
      var b := RunEnd(s, a, LowerHex);
      var b' := RunEnd(w, a', LowerHex);
      assert b' + p == Min(b, e) by {
        RunEndSlice(s, p, e, a, LowerHex);
      }
      if b < e {
        assert w[b'] == s[b];
      }
    }
  }

  lemma {:induction false} PictureMarkerEndSlice(s: string, p: nat, e: nat, j: nat)
    requires p <= e <= |s|
    ensures MarkerEnd(s[p..e], Picture, j) == Shift(MarkerEnd(s, Picture, p + j), p, e)
  {
    OccursAtSlice(s, p, e, BlipUidOpen, j);
    if OccursAt(s[p..e], BlipUidOpen, j) {
      UidEndSlice(s, p, e, p + j + |BlipUidOpen|);
    }
  }

  lemma {:induction false} MarkerEndSlice(s: string, p: nat, e: nat, kind: Kind, j: nat)
    requires p <= e <= |s|
    ensures MarkerEnd(s[p..e], kind, j) == Shift(MarkerEnd(s, kind, p + j), p, e)
  {
    match kind
    case Shape =>
      OccursAtSlice(s, p, e, SvbOpen, j);
    case Picture =>
      PictureMarkerEndSlice(s, p, e, j);
  }

  /** The lazy quantifier stops at `r` when `r` fits and nothing before it does. */
  lemma {:induction false} FirstFitIs(s: string, kind: Kind, q: nat, withData: bool, r: nat)
    requires q <= r && Fits(s, kind, r, withData)
    requires forall q' :: q <= q' < r ==> !Fits(s, kind, q', withData)
    ensures FirstFit(s, kind, q, withData) == Some(r)
    decreases r - q
  {
    if q < r {
      assert !Fits(s, kind, q, withData);
      FirstFitIs(s, kind, q + 1, withData, r);
    }
  }

  /** The combined pattern's alternative `kind` matches all of `w`, given the pieces of the match. */
  lemma {:induction false} GroupOfPieces(w: string, kind: Kind, q: nat, mk: nat)
    requires OccursAt(w, Open(kind), 0) && FirstFit(w, kind, |Open(kind)| + 1, true) == Some(q)
    requires MarkerEnd(w, kind, q) == Some(mk) && DataEnd(w, mk) == Some(|w|)
    ensures mk <= |w| - 2 && GroupAt(w, kind, 0) == Some(RtfMatch(0, w, kind, w[mk..|w| - 2]))
  {
    assert w[0..|w|] == w;
  }

  lemma {:induction false} GroupAtParts(s: string, kind: Kind, p: nat)
    requires GroupAt(s, kind, p).Some?
    ensures OccursAt(s, Open(kind), p) && FirstFit(s, kind, p + |Open(kind)| + 1, true).Some?
  {
  }

  /** The pieces a match of alternative `kind` at `p` is made of. */
  lemma {:induction false} PiecesOfGroup(s: string, kind: Kind, p: nat) returns (q: nat, mk: nat, e: nat)
    requires GroupAt(s, kind, p).Some?
    ensures p + |Open(kind)| + 1 <= q < mk <= e - 2 && e <= |s|
    ensures GroupAt(s, kind, p).value.whole == s[p..e]
    ensures OccursAt(s, Open(kind), p) && MarkerEnd(s, kind, q) == Some(mk)
  {
    var lo := p + |Open(kind)| + 1;
    GroupAtParts(s, kind, p);
    q := FirstFit(s, kind, lo, true).value;
    FirstFitFits(s, kind, lo, true);
    mk := MarkerEnd(s, kind, q).value;
    e := DataEnd(s, mk).value;
    assert GroupAt(s, kind, p) == Some(GroupFrom(s, kind, p, q));
  }

  lemma {:induction false} MarkerInWindow(s: string, p: nat, e: nat, kind: Kind, q: nat, mk: nat)
    requires p <= q && mk <= e <= |s| && MarkerEnd(s, kind, q) == Some(mk)
    ensures MarkerEnd(s[p..e], kind, q - p) == Some(mk - p)
  {
    MarkerEndSlice(s, p, e, kind, q - p);
  }

  /** The standalone header is found in a text whose own start matches the header's opening and one of its markers. */
  lemma {:induction false} HeaderFound(w: string, kind: Kind, q: nat)
    requires OccursAt(w, Open(kind), 0) && |Open(kind)| + 1 <= q && MarkerEnd(w, kind, q).Some?
    ensures HeaderTest(w, kind)
  {
    assert Fits(w, kind, q, false);
    FirstFitSpec(w, kind, |Open(kind)| + 1, false);
    assert HeaderAt(w, kind, 0).Some?;
  }

  lemma {:induction false} HeaderInWindow(s: string, kind: Kind, p: nat, e: nat, q: nat, mk: nat)
    requires p + |Open(kind)| + 1 <= q && mk <= e - 2 && e <= |s|
    requires OccursAt(s, Open(kind), p)
    requires MarkerEnd(s, kind, q) == Some(mk)
    ensures HeaderTest(s[p..e], kind)
  {
    OccursAtSlice(s, p, e, Open(kind), 0);
    MarkerInWindow(s, p, e, kind, q, mk);
    HeaderFound(s[p..e], kind, q - p);
  }

  /** Every match holds the standalone header of its own alternative. */
  lemma {:induction false} MatchHasHeader(s: string, kind: Kind, p: nat)
    requires GroupAt(s, kind, p).Some?
    ensures HeaderTest(GroupAt(s, kind, p).value.whole, kind)
  {
    var q, mk, e := PiecesOfGroup(s, kind, p);
    HeaderInWindow(s, kind, p, e, q, mk);
  }

  /** The `i`-th listed match is the match of its own alternative at its own start. */
  lemma {:induction false} ListedMatch(s: string, i: nat)
    requires i < |RtfMatches(s)|
    ensures GroupAt(s, RtfMatches(s)[i].kind, RtfMatches(s)[i].start) == Some(RtfMatches(s)[i])
  {
    RtfMatchesFromIsScan(s, 0);
    assert EachIsMatch(s, 0, RtfMatches(s));
  }

  /**
   * The `throw` of line 119 is unreachable: every match the combined pattern
   * finds contains the standalone header of its own alternative.
   */
  lemma {:induction false} AsWrittenNeverThrows(s: string)
    ensures forall i :: 0 <= i < |RtfMatches(s)| ==> ClassifyAsWritten(RtfMatches(s)[i].whole).Ok?
  {
    var ms := RtfMatches(s);
    forall i | 0 <= i < |ms| ensures ClassifyAsWritten(ms[i].whole).Ok? {
      ListedMatch(s, i);
      MatchHasHeader(s, ms[i].kind, ms[i].start);
    }
  }

  /**
   * `extractImagesFromRtf` exactly as written: the loop of lines 98-121
   * re-tests each match with the standalone headers, takes the hex of line
   * 109, and stops with the error of line 119 on a match it cannot classify.
   */
  method ExtractImagesFromRtfAsWritten(rtfClipboard: string) returns (r: Result<seq<RtfImage>, RtfError>)
    ensures var rs := AsWrittenResults(RtfMatches(rtfClipboard));
      r.Err? <==> exists i :: 0 <= i < |rs| && rs[i].Err?
    ensures var rs := AsWrittenResults(RtfMatches(rtfClipboard));
      r.Ok? ==> |r.value| == |rs| && forall i :: 0 <= i < |rs| ==> rs[i] == Ok(r.value[i])
  {
    var wholeImages := RtfMatches(rtfClipboard);
    r := ClassifyEachAsWritten(wholeImages);
    CollectSpec(AsWrittenResults(wholeImages));
  }

  /** One pass of the loop body of lines 99-120 as written, on one matched text. */
  method ClassifyOneAsWritten(w: string) returns (r: Result<RtfImage, RtfError>)
    ensures r == ClassifyAsWritten(w)
  {
    if HeaderTest(w, Picture) {
      var imageType: Option<ImageType>;
      if Contains(w, PngBlip) {
        imageType := Some(Png);
      } else if Contains(w, JpegBlip) {
        imageType := Some(Jpeg);
      } else {
        imageType := None;
      }
      assert imageType == SniffType(w);
      r := Ok(RtfImage(if imageType.Some? then Some(PictureHexAsWritten(w)) else None, imageType));
    } else if HeaderTest(w, Shape) {
      r := Ok(RtfImage(None, None));
    } else {
      r := Err(ImageProcessingProblem);
    }
  }

  /** The result of lines 99-120 as written for each match, in order. */
  function AsWrittenResults(ws: seq<RtfMatch>): (rs: seq<Result<RtfImage, RtfError>>)
    ensures |rs| == |ws| && forall i :: 0 <= i < |ws| ==> rs[i] == ClassifyAsWritten(ws[i].whole)
  {
    seq(|ws|, i requires 0 <= i < |ws| => ClassifyAsWritten(ws[i].whole))
  }

  /**
   * The loop of lines 98-121 over per-match results: the images in order,
   * or the first error, which ends the loop.
   */
  function Collect(rs: seq<Result<RtfImage, RtfError>>): Result<seq<RtfImage>, RtfError>
    decreases |rs|
  {
    if |rs| == 0 then Ok([])
    else
      match Collect(rs[..|rs| - 1])
      case Err(e) => Err(e)
      case Ok(imgs) =>
        match rs[|rs| - 1]
        case Err(e) => Err(e)
        case Ok(img) => Ok(imgs + [img])
  }

  /** Collecting fails exactly when some result is an error; otherwise it keeps every image in order. */
  lemma {:induction false} CollectSpec(rs: seq<Result<RtfImage, RtfError>>)
    ensures Collect(rs).Err? <==> exists i :: 0 <= i < |rs| && rs[i].Err?
    ensures Collect(rs).Ok? ==> |Collect(rs).value| == |rs| && forall i :: 0 <= i < |rs| ==> rs[i] == Ok(Collect(rs).value[i])
    decreases |rs|
  {
    if |rs| > 0 {
      var init := rs[..|rs| - 1];
      CollectSpec(init);
      assert forall i :: 0 <= i < |init| ==> init[i] == rs[i];
      match Collect(init)
      case Err(_) =>
        var i :| 0 <= i < |init| && init[i].Err?;
        assert rs[i].Err?;
      case Ok(imgs) =>
        match rs[|rs| - 1]
        case Err(_) =>
        case Ok(img) =>
          forall i | 0 <= i < |rs| ensures rs[i] == Ok((imgs + [img])[i]) {
            if i < |init| {
              assert (imgs + [img])[i] == imgs[i];
            }
          }
    }
  }

  /** Once a prefix of the results holds an error, collecting all of them gives that error. */
  lemma {:induction false} CollectStopsAtError(rs: seq<Result<RtfImage, RtfError>>, n: nat)
    requires n <= |rs| && Collect(rs[..n]).Err?
    ensures Collect(rs) == Collect(rs[..n])
    decreases |rs| - n
  {
    if n < |rs| {
      assert rs[..n + 1][..n] == rs[..n];
      CollectStopsAtError(rs, n + 1);
    } else {
      assert rs[..n] == rs;
    }
  }

  /** The loop of lines 98-121 as written over the matched texts. */
  method ClassifyEachAsWritten(wholeImages: seq<RtfMatch>) returns (r: Result<seq<RtfImage>, RtfError>)
    ensures r == Collect(AsWrittenResults(wholeImages))
  {
    ghost var rs := AsWrittenResults(wholeImages);
    var ret: seq<RtfImage> := [];
    for i := 0 to |wholeImages|
      invariant Collect(rs[..i]) == Ok(ret)
    {
      var entry := ClassifyOneAsWritten(wholeImages[i].whole);
      assert entry == rs[i];
      assert rs[..i + 1][..i] == rs[..i];
      if entry.Err? {
        r := Err(entry.error);
        assert Collect(rs[..i + 1]) == r;
        CollectStopsAtError(rs, i + 1);
        return;
      }
      ret := ret + [entry.value];
    }
    assert rs[..|rs|] == rs;
    return Ok(ret);
  }
}
