/**
 * `extractImagesFromRtf`: finds the picture groups
 * (`{\*\shppict … {\*\blipuid <hex>} <hex run>}}`) and the shape groups
 * (`{\shp … {\*\svb <hex run>}}`) of an RTF text in document order and
 * turns each into a `{ hex, type }` entry.
 *
 * The global regular expression `(?:(PH)|(SH))([0-9a-f\s]+)\}\}` is
 * replaced by an explicit scanner. Its lazy `[\s\S]+?` makes a match at `p`
 * end at the FIRST header marker after the opening for which the rest of
 * the pattern fits. `\s+`, `[0-9a-f]+` and `}` are over disjoint classes, so
 * the other quantifiers never backtrack, and the optional `\s?` before the
 * hex run changes where the capture starts but never where the match ends.
 */
module RtfExtractor {
  import opened Wrappers
  import opened JsText

  datatype ImageType = Png | Jpeg

  /** The `type` string the plugin stores. */
  function Mime(t: ImageType): string {
    match t
    case Png => "image/png"
    case Jpeg => "image/jpeg"
  }

  /** One entry of the result, `{ hex: …, type: … }`, with `None` for `null`. */
  datatype RtfImage = RtfImage(hex: Option<string>, imageType: Option<ImageType>)

  /** The error `extractImagesFromRtf` throws for a match it cannot classify. */
  datatype RtfError = ImageProcessingProblem

  /** The two alternatives of the combined pattern. */
  datatype Kind = Picture | Shape

  /**
   * One match of the combined pattern: where it starts, the matched text,
   * which alternative matched, and the text between the header marker and
   * the closing `}}` (the hex run, whitespace included).
   */
  datatype RtfMatch = RtfMatch(start: nat, whole: string, kind: Kind, run: string) {
    function End(): nat {
      start + |whole|
    }
  }

  const PictureOpen := "{\\*\\shppict"
  const BlipUidOpen := "{\\*\\blipuid"
  const ShapeOpen := "{\\shp"
  const SvbOpen := "{\\*\\svb"
  const GroupClose := "}}"
  const PngBlip := "\\pngblip"
  const JpegBlip := "\\jpegblip"

  /** The literal text each header starts with. */
  function Open(kind: Kind): string {
    match kind
    case Picture => PictureOpen
    case Shape => ShapeOpen
  }

  /** The character classes `\s`, `[0-9a-f]` and `[0-9a-f\s]`. */
  datatype CharClass = Space | LowerHex | HexOrSpace

  predicate InClass(c: char, cls: CharClass) {
    match cls
    case Space => IsSpace(c)
    case LowerHex => IsLowerHexDigit(c)
    case HexOrSpace => IsLowerHexDigit(c) || IsSpace(c)
  }

  /** The end of the longest run of `cls` characters starting at `i`. */
  function RunEnd(s: string, i: nat, cls: CharClass): (e: nat)
    requires i <= |s|
    ensures i <= e <= |s| && (e == |s| || !InClass(s[e], cls))
    decreases |s| - i
  {
    if i == |s| || !InClass(s[i], cls) then i else RunEnd(s, i + 1, cls)
  }

  /** Every character of the run is of the class. */
  lemma {:induction false} RunInClass(s: string, i: nat, cls: CharClass)
    requires i <= |s|
    ensures forall k :: i <= k < RunEnd(s, i, cls) ==> InClass(s[k], cls)
    decreases |s| - i
  {
    if i < |s| && InClass(s[i], cls) {
      RunInClass(s, i + 1, cls);
    }
  }

  /** `\s+[0-9a-f]+\}` tried at `i`: where the closing brace ends. */
  function UidEnd(s: string, i: nat): (r: Option<nat>)
    requires i <= |s|
    ensures r.Some? ==> i < r.value <= |s|
  {
    var a := RunEnd(s, i, Space);
    var b := RunEnd(s, a, LowerHex);
    if a == i || b == a || b == |s| || s[b] != '}' then None else Some(b + 1)
  }

  /**
   * The marker that closes a header, tried at `q`: `{\*\blipuid\s+[0-9a-f]+\}`
   * for a picture, `{\*\svb` for a shape. The result is where the marker ends.
   */
  function MarkerEnd(s: string, kind: Kind, q: nat): (r: Option<nat>)
    ensures r.Some? ==> q < r.value <= |s|
  {
    match kind
    case Picture =>
      if OccursAt(s, BlipUidOpen, q) then UidEnd(s, q + |BlipUidOpen|) else None
    case Shape =>
      if OccursAt(s, SvbOpen, q) then Some(q + |SvbOpen|) else None
  }

  /** `\s?([0-9a-f\s]+)\}\}` tried at `m`: where the closing `}}` ends. */
  function DataEnd(s: string, m: nat): (r: Option<nat>)
    requires m <= |s|
    ensures r.Some? ==> m + 3 <= r.value <= |s|
  {
    var e := RunEnd(s, m, HexOrSpace);
    if e == m || !OccursAt(s, GroupClose, e) then None else Some(e + |GroupClose|)
  }

  /**
   * Where the rest of the pattern ends when the lazy `[\s\S]+?` stops at
   * `q`: after the marker alone (a header tried by itself), or, when
   * `withData` holds (the combined pattern), after the hex run and its `}}`.
   */
  function FitEnd(s: string, kind: Kind, q: nat, withData: bool): (r: Option<nat>)
    ensures r.Some? ==> q < r.value <= |s|
  {
    match MarkerEnd(s, kind, q)
    case None => None
    case Some(m) => if withData then DataEnd(s, m) else Some(m)
  }

  /** The lazy `[\s\S]+?` may stop at `q`. */
  predicate Fits(s: string, kind: Kind, q: nat, withData: bool) {
    FitEnd(s, kind, q, withData).Some?
  }

  /** The first position at or after `q` where the lazy quantifier can stop. */
  function FirstFit(s: string, kind: Kind, q: nat, withData: bool): Option<nat>
    decreases |s| - q
  {
    if |s| <= q then None
    else if Fits(s, kind, q, withData) then Some(q)
    else FirstFit(s, kind, q + 1, withData)
  }

  /** Where `FirstFit` stops, the quantifier can stop. */
  lemma {:induction false} FirstFitFits(s: string, kind: Kind, q: nat, withData: bool)
    ensures FirstFit(s, kind, q, withData).Some? ==>
      q <= FirstFit(s, kind, q, withData).value && Fits(s, kind, FirstFit(s, kind, q, withData).value, withData)
    decreases |s| - q
  {
    if |s| > q && !Fits(s, kind, q, withData) {
      FirstFitFits(s, kind, q + 1, withData);
    }
  }

  /** `FirstFit` finds the leftmost position where the quantifier can stop, and none means there is none. */
  lemma {:induction false} FirstFitSpec(s: string, kind: Kind, q: nat, withData: bool)
    ensures FirstFit(s, kind, q, withData).Some? ==>
      forall q' :: q <= q' < FirstFit(s, kind, q, withData).value ==> !Fits(s, kind, q', withData)
    ensures FirstFit(s, kind, q, withData).None? ==> forall q' :: q <= q' ==> !Fits(s, kind, q', withData)
    decreases |s| - q
  {
    if |s| > q && !Fits(s, kind, q, withData) {
      FirstFitSpec(s, kind, q + 1, withData);
    } else if |s| <= q {
      forall q' | q <= q' ensures !Fits(s, kind, q', withData) {
        NoFitPastEnd(s, kind, q', withData);
      }
    }
  }

  /** The quantifier cannot stop at or past the end of the text. */
  lemma {:induction false} NoFitPastEnd(s: string, kind: Kind, q: nat, withData: bool)
    requires |s| <= q
    ensures !Fits(s, kind, q, withData)
  {
  }

  /** The alternative `kind` of the combined pattern tried at `p`. */
  function GroupAt(s: string, kind: Kind, p: nat): (r: Option<RtfMatch>)
    ensures r.Some? ==> r.value.start == p && r.value.kind == kind && r.value.End() <= |s|
    ensures r.Some? ==> r.value.whole == s[p..r.value.End()] && |r.value.whole| > |r.value.run| + 2
    ensures r.Some? ==> forall k :: 0 <= k < |r.value.run| ==> InClass(r.value.run[k], HexOrSpace)
  {
    if !OccursAt(s, Open(kind), p) then None
    else
      match FirstFit(s, kind, p + |Open(kind)| + 1, true)
      case None => None
      case Some(q) =>
        FirstFitFits(s, kind, p + |Open(kind)| + 1, true);
        Some(GroupFrom(s, kind, p, q))
  }

  /** The match the alternative `kind` makes from `p` once its lazy quantifier stops at `q`. */
  function GroupFrom(s: string, kind: Kind, p: nat, q: nat): (r: RtfMatch)
    requires p <= q && Fits(s, kind, q, true)
    ensures r.start == p && r.kind == kind && q < r.End() <= |s|
    ensures r.whole == s[p..r.End()] && |r.whole| > |r.run| + 2
    ensures forall k :: 0 <= k < |r.run| ==> InClass(r.run[k], HexOrSpace)
  {
    var m := MarkerEnd(s, kind, q).value;
    var e := DataEnd(s, m).value;
    RunInClass(s, m, HexOrSpace);
    RtfMatch(p, s[p..e], kind, s[m..e - 2])
  }

  /** A match of one alternative ends in `}}`, and its run is the text just before that `}}`. */
  lemma {:induction false} GroupEndsInClose(s: string, kind: Kind, p: nat)
    requires GroupAt(s, kind, p).Some?
    ensures EndsInClose(GroupAt(s, kind, p).value)
  {
    var lo := p + |Open(kind)| + 1;
    var q := FirstFit(s, kind, lo, true).value;
    GroupAtIsGroupFrom(s, kind, p, q);
    GroupFromEndsInClose(s, kind, p, q);
  }

  /** A match of one alternative is the one its lazy quantifier's first stop gives. */
  lemma {:induction false} GroupAtIsGroupFrom(s: string, kind: Kind, p: nat, q: nat)
    requires GroupAt(s, kind, p).Some? && FirstFit(s, kind, p + |Open(kind)| + 1, true) == Some(q)
    ensures p <= q && Fits(s, kind, q, true) && GroupAt(s, kind, p) == Some(GroupFrom(s, kind, p, q))
  {
    FirstFitFits(s, kind, p + |Open(kind)| + 1, true);
  }

  /** The matched text ends in `}}`, and the run is the text just before that `}}`. */
  predicate EndsInClose(g: RtfMatch) {
    var w := g.whole;
    |g.run| + 2 <= |w| && w[|w| - 2..] == GroupClose && w[|w| - 2 - |g.run|..|w| - 2] == g.run
  }

  lemma {:induction false} GroupFromEndsInClose(s: string, kind: Kind, p: nat, q: nat)
    requires p <= q && Fits(s, kind, q, true)
    ensures EndsInClose(GroupFrom(s, kind, p, q))
  {
    var m := MarkerEnd(s, kind, q).value;
    var e := DataEnd(s, m).value;
    assert GroupFrom(s, kind, p, q) == RtfMatch(p, s[p..e], kind, s[m..e - 2]);
    ClosedRun(s, p, m, e, kind);
  }

  /** A match cut from `p` to `e`, with its run from `m`, ends in `}}` just after the run. */
  lemma {:induction false} ClosedRun(s: string, p: nat, m: nat, e: nat, kind: Kind)
    requires p <= m <= |s| && DataEnd(s, m) == Some(e)
    ensures EndsInClose(RtfMatch(p, s[p..e], kind, s[m..e - 2]))
  {
    OccursAtIsSlice(s, GroupClose, e - 2);
    var w := s[p..e];
    assert w[|w| - 2..] == s[e - 2..e];
    assert w[m - p..|w| - 2] == s[m..e - 2];
  }

  /** The combined pattern tried at `p`: the picture alternative first, then the shape one. */
  function PictureOrShapeAt(s: string, p: nat): (r: Option<RtfMatch>)
    ensures r.Some? ==> r.value.start == p && r.value.End() <= |s| && GroupAt(s, r.value.kind, p) == r
  {
    match GroupAt(s, Picture, p)
    case Some(m) => Some(m)
    case None => GroupAt(s, Shape, p)
  }

  /** The leftmost match of the combined pattern at or after `from`. */
  function NextRtfMatch(s: string, from: nat): (r: Option<RtfMatch>)
    ensures r.Some? ==> from <= r.value.start && PictureOrShapeAt(s, r.value.start) == r
    decreases |s| - from
  {
    if |s| <= from then None
    else
      match PictureOrShapeAt(s, from)
      case Some(m) => Some(m)
      case None => NextRtfMatch(s, from + 1)
  }

  /** All matches at or after `from`, as a global `match` finds them. */
  function RtfMatchesFrom(s: string, from: nat): seq<RtfMatch>
    decreases |s| - from
  {
    match NextRtfMatch(s, from)
    case None => []
    case Some(m) => [m] + RtfMatchesFrom(s, m.End())
  }

  /** `rtfClipboard.match( rePictureOrShape )`, with the empty sequence for `null`. */
  function RtfMatches(s: string): seq<RtfMatch> {
    RtfMatchesFrom(s, 0)
  }

  /** Every entry is the match of the combined pattern at its own start, at or after `from`. */
  ghost predicate EachIsMatch(s: string, from: nat, ms: seq<RtfMatch>) {
    forall i :: 0 <= i < |ms| ==> from <= ms[i].start && PictureOrShapeAt(s, ms[i].start) == Some(ms[i])
  }

  /** Entries are in document order and do not overlap. */
  ghost predicate Ordered(ms: seq<RtfMatch>) {
    forall i, j :: 0 <= i < j < |ms| ==> ms[i].End() <= ms[j].start
  }

  /** Where the search for the `i`-th match of a scan from `from` starts. */
  function SearchStart(from: nat, ms: seq<RtfMatch>, i: nat): nat
    requires i <= |ms|
  {
    if i == 0 then from else ms[i - 1].End()
  }

  /** No match of the combined pattern starts in `[lo, hi)`. */
  ghost predicate NoMatchIn(s: string, lo: nat, hi: nat) {
    forall p :: lo <= p < hi ==> PictureOrShapeAt(s, p).None?
  }

  /** No match of the combined pattern starts at or after `lo`. */
  ghost predicate NoMatchFrom(s: string, lo: nat) {
    forall p :: lo <= p ==> PictureOrShapeAt(s, p).None?
  }

  /** No match starts in a gap before an entry, nor after the last entry. */
  ghost predicate NoMatchMissed(s: string, from: nat, ms: seq<RtfMatch>) {
    (forall i :: 0 <= i < |ms| ==> NoMatchIn(s, SearchStart(from, ms, i), ms[i].start)) &&
    NoMatchFrom(s, SearchStart(from, ms, |ms|))
  }

  /** `ms` is the complete left-to-right list of matches in `s` from `from`. */
  ghost predicate IsMatchScan(s: string, from: nat, ms: seq<RtfMatch>) {
    EachIsMatch(s, from, ms) && Ordered(ms) && NoMatchMissed(s, from, ms)
  }

  lemma {:induction false} ConsOrdered(m: RtfMatch, rest: seq<RtfMatch>)
    requires Ordered(rest)
    requires forall i :: 0 <= i < |rest| ==> m.End() <= rest[i].start
    ensures Ordered([m] + rest)
  {
    var ms := [m] + rest;
    forall i, j | 0 <= i < j < |ms| ensures ms[i].End() <= ms[j].start {
      assert ms[j] == rest[j - 1];
      if 0 < i {
        assert ms[i] == rest[i - 1];
      }
    }
  }

  lemma {:induction false} ConsNoMatchMissed(s: string, from: nat, m: RtfMatch, rest: seq<RtfMatch>)
    requires NoMatchIn(s, from, m.start)
    requires NoMatchMissed(s, m.End(), rest)
    ensures NoMatchMissed(s, from, [m] + rest)
  {
    var ms := [m] + rest;
    forall i | 0 <= i < |ms| ensures NoMatchIn(s, SearchStart(from, ms, i), ms[i].start) {
      if 0 < i {
        ConsSearchStart(from, m, rest, i);
        assert ms[i] == rest[i - 1];
      }
    }
    ConsSearchStart(from, m, rest, |ms|);
  }

  /** After the first entry, a scan from `from` searches where the scan of the rest does. */
  lemma {:induction false} ConsSearchStart(from: nat, m: RtfMatch, rest: seq<RtfMatch>, i: nat)
    requires 0 < i <= |rest| + 1
    ensures SearchStart(from, [m] + rest, i) == SearchStart(m.End(), rest, i - 1)
  {
    if 1 < i {
      assert ([m] + rest)[i - 1] == rest[i - 2];
    }
  }

  lemma {:induction false} ConsEachIsMatch(s: string, from: nat, m: RtfMatch, rest: seq<RtfMatch>)
    requires from <= m.start && PictureOrShapeAt(s, m.start) == Some(m)
    requires EachIsMatch(s, m.End(), rest)
    ensures EachIsMatch(s, from, [m] + rest)
  {
    var ms := [m] + rest;
    forall i | 0 <= i < |ms| ensures from <= ms[i].start && PictureOrShapeAt(s, ms[i].start) == Some(ms[i]) {
      if i == 0 {
        assert ms[0] == m;
      } else {
        assert ms[i] == rest[i - 1];
      }
    }
  }

  lemma {:induction false} MatchScanCons(s: string, from: nat, m: RtfMatch, rest: seq<RtfMatch>)
    requires from <= m.start && PictureOrShapeAt(s, m.start) == Some(m)
    requires NoMatchIn(s, from, m.start)
    requires IsMatchScan(s, m.End(), rest)
    ensures IsMatchScan(s, from, [m] + rest)
  {
    ConsEachIsMatch(s, from, m, rest);
    ConsOrdered(m, rest);
    ConsNoMatchMissed(s, from, m, rest);
  }

  /** The search skips no match: none starts before the one it finds, and none at all when it finds none. */
  lemma {:induction false} NextRtfMatchSkipsNone(s: string, from: nat)
    ensures NextRtfMatch(s, from).Some? ==> NoMatchIn(s, from, NextRtfMatch(s, from).value.start)
    ensures NextRtfMatch(s, from).None? ==> NoMatchFrom(s, from)
    decreases |s| - from
  {
    if |s| <= from {
      forall p | from <= p ensures PictureOrShapeAt(s, p).None? {
        NoMatchPastEnd(s, p);
      }
    } else if PictureOrShapeAt(s, from).None? {
      NextRtfMatchSkipsNone(s, from + 1);
      assert NextRtfMatch(s, from) == NextRtfMatch(s, from + 1);
    }
  }

  /** No match starts at or past the end of the text. */
  lemma {:induction false} NoMatchPastEnd(s: string, p: nat)
    requires |s| <= p
    ensures PictureOrShapeAt(s, p).None?
  {
    assert !OccursAt(s, Open(Picture), p) && !OccursAt(s, Open(Shape), p);
  }

  /** The global match lists every match once, in document order, and misses none. */
  lemma {:induction false} RtfMatchesFromIsScan(s: string, from: nat)
    ensures IsMatchScan(s, from, RtfMatchesFrom(s, from))
    decreases |s| - from
  {
    NextRtfMatchSkipsNone(s, from);
    match NextRtfMatch(s, from)
    case None =>
    case Some(m) =>
      RtfMatchesFromIsScan(s, m.End());
      MatchScanCons(s, from, m, RtfMatchesFrom(s, m.End()));
  }

  /** The hex run of every listed match consists of `[0-9a-f\s]` characters. */
  lemma {:induction false} MatchRunsAreHexOrSpace(s: string)
    ensures forall i, k :: 0 <= i < |RtfMatches(s)| && 0 <= k < |RtfMatches(s)[i].run| ==>
      InClass(RtfMatches(s)[i].run[k], HexOrSpace)
  {
    var ms := RtfMatches(s);
    RtfMatchesFromIsScan(s, 0);
    forall i | 0 <= i < |ms| ensures forall k :: 0 <= k < |ms[i].run| ==> InClass(ms[i].run[k], HexOrSpace) {
      assert EachIsMatch(s, 0, ms);
      assert GroupAt(s, ms[i].kind, ms[i].start) == Some(ms[i]);
    }
  }

  /** No match anywhere gives the empty list (`match` returned `null`). */
  lemma {:induction false} NoMatchNoEntries(s: string)
    requires forall p :: PictureOrShapeAt(s, p).None?
    ensures RtfMatches(s) == []
  {
    assert NextRtfMatch(s, 0).None?;
  }

  /** The type sniffing of lines 100-106: `\pngblip` first, then `\jpegblip`. */
  function SniffType(w: string): Option<ImageType> {
    if Contains(w, PngBlip) then Some(Png)
    else if Contains(w, JpegBlip) then Some(Jpeg)
    else None
  }

  /** `\pngblip` anywhere gives PNG; otherwise `\jpegblip` anywhere gives JPEG; otherwise no type. */
  lemma {:induction false} TypeSniffing(w: string)
    ensures SniffType(w) == Some(Png) <==> exists k :: OccursAt(w, PngBlip, k)
    ensures SniffType(w) == Some(Jpeg) <==> (forall k :: !OccursAt(w, PngBlip, k)) && exists k :: OccursAt(w, JpegBlip, k)
    ensures SniffType(w).None? <==> forall k :: !OccursAt(w, PngBlip, k) && !OccursAt(w, JpegBlip, k)
  {
    IndexOfLeftmost(w, PngBlip, 0);
    IndexOfLeftmost(w, JpegBlip, 0);
  }

  /**
   * The classification of one match as the plugin evidently intends it: the
   * alternative that matched decides between picture and shape, and the hex
   * is the matched hex run without its whitespace.
   */
  function Classify(m: RtfMatch): (r: RtfImage)
    ensures r.imageType.None? ==> r.hex.None?
    ensures m.kind == Shape ==> r == RtfImage(None, None)
    ensures m.kind == Picture ==> r.imageType == SniffType(m.whole) && (r.imageType.Some? <==> r.hex.Some?)
  {
    match m.kind
    case Shape => RtfImage(None, None)
    case Picture =>
      var imageType := SniffType(m.whole);
      RtfImage(if imageType.Some? then Some(RemoveSpaces(m.run)) else None, imageType)
  }

  /** A `[0-9a-f\s]` run without its whitespace is made of `[0-9a-f]` only. */
  lemma {:induction false} SpacelessRunIsHex(run: string)
    requires forall k :: 0 <= k < |run| ==> InClass(run[k], HexOrSpace)
    ensures forall k :: 0 <= k < |RemoveSpaces(run)| ==> IsLowerHexDigit(RemoveSpaces(run)[k])
  {
    if run != [] {
      SpacelessRunIsHex(run[1..]);
    }
  }

  /** The hex of every entry made from a match consists of `[0-9a-f]` characters only. */
  lemma {:induction false} ClassifiedHexIsHex(m: RtfMatch)
    requires forall k :: 0 <= k < |m.run| ==> InClass(m.run[k], HexOrSpace)
    ensures Classify(m).hex.Some? ==> forall i :: 0 <= i < |Classify(m).hex.value| ==> IsLowerHexDigit(Classify(m).hex.value[i])
  {
    if Classify(m).hex.Some? {
      var h := RemoveSpaces(m.run);
      SpacelessRunIsHex(m.run);
    }
  }

  /** Every hex stored for a match of `s` consists of `[0-9a-f]` characters only. */
  lemma {:induction false} ClassifiedEntriesAreHex(s: string, entries: seq<RtfImage>)
    requires |entries| == |RtfMatches(s)|
    requires forall i :: 0 <= i < |entries| ==> entries[i] == Classify(RtfMatches(s)[i])
    ensures forall i :: 0 <= i < |entries| && entries[i].hex.Some? ==>
      forall k :: 0 <= k < |entries[i].hex.value| ==> IsLowerHexDigit(entries[i].hex.value[k])
  {
    MatchRunsAreHexOrSpace(s);
    forall i | 0 <= i < |entries|
      ensures entries[i].hex.Some? ==> forall k :: 0 <= k < |entries[i].hex.value| ==> IsLowerHexDigit(entries[i].hex.value[k])
    {
      ClassifiedHexIsHex(RtfMatches(s)[i]);
    }
  }

  /**
   * `extractImagesFromRtf`: one entry per match, in match order; a picture
   * gets its sniffed type and, when typed, its hex; a shape gets
   * `{ hex: null, type: null }` so that positions stay aligned.
   */
  method ExtractImagesFromRtf(rtfClipboard: string) returns (ret: seq<RtfImage>)
    ensures |ret| == |RtfMatches(rtfClipboard)|
    ensures forall i :: 0 <= i < |ret| ==> ret[i] == Classify(RtfMatches(rtfClipboard)[i])
    ensures forall i :: 0 <= i < |ret| ==> (ret[i].imageType.None? ==> ret[i].hex.None?)
    ensures forall i :: 0 <= i < |ret| && ret[i].hex.Some? ==>
      forall k :: 0 <= k < |ret[i].hex.value| ==> IsLowerHexDigit(ret[i].hex.value[k])
  {
    var wholeImages := RtfMatches(rtfClipboard);
    ret := [];
    if |wholeImages| == 0 {
      return;
    }
    ret := ClassifyEach(wholeImages);
    ClassifiedEntriesAreHex(rtfClipboard, ret);
  }

  /** The loop over the matches: each one classified in turn. */
  method ClassifyEach(wholeImages: seq<RtfMatch>) returns (ret: seq<RtfImage>)
    ensures |ret| == |wholeImages|
    ensures forall k :: 0 <= k < |ret| ==> ret[k] == Classify(wholeImages[k])
    ensures forall k :: 0 <= k < |ret| ==> (ret[k].imageType.None? ==> ret[k].hex.None?)
  {
    ret := [];
    for i := 0 to |wholeImages|
      invariant |ret| == i
      invariant forall k :: 0 <= k < i ==> ret[k] == Classify(wholeImages[k])
    {
      var img := wholeImages[i];
      var entry: RtfImage;
      if img.kind == Picture {
        var imageType: Option<ImageType>;
        if Contains(img.whole, PngBlip) {
          imageType := Some(Png);
        } else if Contains(img.whole, JpegBlip) {
          imageType := Some(Jpeg);
        } else {
          imageType := None;
        }
        assert imageType == SniffType(img.whole);
        entry := RtfImage(if imageType.Some? then Some(RemoveSpaces(img.run)) else None, imageType);
      } else {
        entry := RtfImage(None, None);
      }
      assert entry == Classify(img);
      ret := ret + [entry];
    }
  }
}
