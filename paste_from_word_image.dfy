/**
 * `pasteListener` and `createSrcWithBase64`: after a paste from Word, the
 * `src` of every `<img>` whose source is a local `file:///` URL is replaced,
 * in document order, by a `data:` URI built from the picture found at the
 * same position in the RTF flavour of the clipboard. The RTF entries are
 * those of the corrected classification `RtfExtractor.Classify`.
 */
module PasteFromWordImage {
  import opened Wrappers
  import opened JsText
  import opened Transcoder
  import opened HtmlScanner
  import opened RtfExtractor

  /** The error `pasteListener` throws when the HTML and RTF images cannot be paired. */
  datatype PasteError = EmbeddingMismatch

  const FileScheme := "file:///"

  /** The text in front of the Base64 payload of a `data:` URI for an image of type `t`. */
  function DataPrefix(t: ImageType): string {
    "data:" + Mime(t) + ";base64,"
  }

  /** The entries of the RTF extraction carry a hex exactly when they carry a type. */
  predicate HexWhenTyped(img: RtfImage) {
    img.imageType.Some? ==> img.hex.Some?
  }

  /**
   * `createSrcWithBase64`: `data:<type>;base64,<payload>` for a typed image,
   * `None` (`null`) for an untyped one or a shape. The hex is turned into
   * bytes first; text that does not spell bytes yields no URI.
   */
  function CreateSrcWithBase64(img: RtfImage): (r: Option<string>)
    requires HexWhenTyped(img)
    ensures img.imageType.None? ==> r.None?
    ensures img.imageType.Some? ==> (r.Some? <==> HexToBytes(img.hex.value).Some?)
    ensures r.Some? ==> DecodeDataUri(r.value) == Some((img.imageType.value, HexToBytes(img.hex.value).value))
    ensures r.Some? ==> '$' !in r.value && |r.value| > 0
  {
    match img.imageType
    case None => None
    case Some(t) =>
      match HexToBase64(img.hex.value)
      case None => None
      case Some(payload) =>
        var uri := DataPrefix(t) + payload;
        DecodeBuiltUri(t, payload);
        PrefixWithoutDollar(t);
        assert uri[0] == 'd';
        Some(uri)
  }

  /** Reading a `data:` URI back: the image type and the decoded bytes, if it is one. */
  function DecodeDataUri(uri: string): Option<(ImageType, seq<byte>)> {
    if IsPrefix(DataPrefix(Png), uri) then
      match Base64Decode(uri[|DataPrefix(Png)|..])
      case None => None
      case Some(bytes) => Some((Png, bytes))
    else if IsPrefix(DataPrefix(Jpeg), uri) then
      match Base64Decode(uri[|DataPrefix(Jpeg)|..])
      case None => None
      case Some(bytes) => Some((Jpeg, bytes))
    else None
  }

  /** No `$` in the prefix, so the URI is a literal replacement text for `String.replace`. */
  lemma {:induction false} PrefixWithoutDollar(t: ImageType)
    ensures '$' !in DataPrefix(t)
  {
    assert forall i :: 0 <= i < |DataPrefix(t)| ==> DataPrefix(t)[i] != '$';
  }

  predicate IsPrefix(p: string, s: string) {
    |p| <= |s| && s[..|p|] == p
  }

  /** A URI built from a prefix and a payload decodes to the payload's bytes under the prefix's type. */
  lemma {:induction false} DecodeBuiltUri(t: ImageType, payload: string)
    ensures DecodeDataUri(DataPrefix(t) + payload) ==
      match Base64Decode(payload) case None => None case Some(bytes) => Some((t, bytes))
  {
    var uri := DataPrefix(t) + payload;
    assert uri[..|DataPrefix(t)|] == DataPrefix(t);
    assert uri[|DataPrefix(t)|..] == payload;
    if t == Jpeg {
      var head := uri[..|DataPrefix(Png)|];
      assert head[11] == 'j' && DataPrefix(Png)[11] == 'p';
      assert head != DataPrefix(Png);
    }
  }

  /** `newSrcValues`: one `createSrcWithBase64` per RTF entry, in order. */
  function NewSrcValues(hexImages: seq<RtfImage>): (r: seq<Option<string>>)
    requires forall i :: 0 <= i < |hexImages| ==> HexWhenTyped(hexImages[i])
    ensures |r| == |hexImages|
    ensures forall i :: 0 <= i < |r| ==> r[i] == CreateSrcWithBase64(hexImages[i])
    ensures forall i :: 0 <= i < |r| && r[i].Some? ==> '$' !in r[i].value
  {
    seq(|hexImages|, i requires 0 <= i < |hexImages| => CreateSrcWithBase64(hexImages[i]))
  }

  /** Line 47: the tag's source starts with `file:///` and the RTF entry gave a URI. */
  predicate Qualifies(tag: ImgTag, newSrc: Option<string>) {
    IndexOf(tag.src, FileScheme, 0) == Some(0) && newSrc.Some?
  }

  /** Line 48 for one tag: its source replaced, at its first occurrence, by the new value. */
  function ReplaceOne(html: string, tag: ImgTag, newSrc: Option<string>): string
    requires newSrc.Some? ==> '$' !in newSrc.value
  {
    if Qualifies(tag, newSrc) then ReplaceFirst(html, tag.src, newSrc.value) else html
  }

  /** The HTML after the loop of lines 45-50 has handled the first `n` tags. */
  function Rewritten(html: string, tags: seq<ImgTag>, srcs: seq<Option<string>>, n: nat): string
    requires n <= |tags| == |srcs|
    requires forall i :: 0 <= i < |srcs| && srcs[i].Some? ==> '$' !in srcs[i].value
  {
    if n == 0 then html else ReplaceOne(Rewritten(html, tags, srcs, n - 1), tags[n - 1], srcs[n - 1])
  }

  /** The entries `extractImagesFromRtf` returns for `rtf`. */
  function RtfImages(rtf: string): (r: seq<RtfImage>)
    ensures |r| == |RtfMatches(rtf)|
    ensures forall i :: 0 <= i < |r| ==> r[i] == Classify(RtfMatches(rtf)[i]) && HexWhenTyped(r[i])
  {
    seq(|RtfMatches(rtf)|, i requires 0 <= i < |RtfMatches(rtf)| => Classify(RtfMatches(rtf)[i]))
  }

  /**
   * What `pasteListener` does to the pasted HTML: nothing when there is no
   * image tag or no RTF image, the error of line 52 when their numbers
   * differ, and otherwise the HTML with every qualifying source replaced.
   */
  function PasteOutcome(html: string, rtf: string): Result<string, PasteError> {
    var tags := ImgTagsFrom(html, 0);
    if |tags| == 0 then Ok(html)
    else
      var hexImages := RtfImages(rtf);
      if |hexImages| == 0 then Ok(html)
      else
        var srcs := NewSrcValues(hexImages);
        if |tags| == |srcs| then Ok(Rewritten(html, tags, srcs, |tags|))
        else Err(EmbeddingMismatch)
  }

  /** Line 47's `indexOf( 'file:///' ) === 0` holds exactly when the source starts with `file:///`. */
  lemma {:induction false} QualifiesIff(tag: ImgTag, newSrc: Option<string>)
    ensures Qualifies(tag, newSrc) <==> OccursAt(tag.src, FileScheme, 0) && newSrc.Some?
  {
    if OccursAt(tag.src, FileScheme, 0) {
      assert IndexOf(tag.src, FileScheme, 0).Some?;
    }
  }

  /** Tags that do not qualify leave the HTML as it was. */
  lemma {:induction false} SkippedTagsChangeNothing(html: string, tags: seq<ImgTag>, srcs: seq<Option<string>>, m: nat, n: nat)
    requires m <= n <= |tags| == |srcs|
    requires forall i :: 0 <= i < |srcs| && srcs[i].Some? ==> '$' !in srcs[i].value
    requires forall k :: m <= k < n ==> !Qualifies(tags[k], srcs[k])
    ensures Rewritten(html, tags, srcs, n) == Rewritten(html, tags, srcs, m)
    decreases n
  {
    if m < n {
      SkippedTagsChangeNothing(html, tags, srcs, m, n - 1);
    }
  }

  /** Line 52 is reached exactly when there are image tags, RTF images, and their numbers differ. */
  lemma {:induction false} MismatchIff(html: string, rtf: string)
    ensures PasteOutcome(html, rtf).Err? <==>
      0 < |ImgTagsFrom(html, 0)| && 0 < |RtfMatches(rtf)| && |ImgTagsFrom(html, 0)| != |RtfMatches(rtf)|
  {
    var hexImages := RtfImages(rtf);
    assert |NewSrcValues(hexImages)| == |RtfMatches(rtf)|;
  }

  /** A paste whose image sources are none of them `file:///` URLs keeps the HTML unchanged. */
  lemma {:induction false} NoFileSourceNoChange(html: string, rtf: string)
    requires forall k :: 0 <= k < |ImgTagsFrom(html, 0)| ==> !OccursAt(ImgTagsFrom(html, 0)[k].src, FileScheme, 0)
    ensures PasteOutcome(html, rtf).Ok? ==> PasteOutcome(html, rtf).value == html
  {
    var tags := ImgTagsFrom(html, 0);
    var hexImages := RtfImages(rtf);
    var srcs := NewSrcValues(hexImages);
    if 0 < |tags| && 0 < |hexImages| && |tags| == |srcs| {
      forall k | 0 <= k < |tags| ensures !Qualifies(tags[k], srcs[k]) {
        QualifiesIff(tags[k], srcs[k]);
      }
      SkippedTagsChangeNothing(html, tags, srcs, 0, |tags|);
    }
  }

  /** A paste whose RTF holds no typed picture (only shapes, or untyped pictures) keeps the HTML unchanged. */
  lemma {:induction false} NoTypedPictureNoChange(html: string, rtf: string)
    requires forall k :: 0 <= k < |RtfMatches(rtf)| ==> Classify(RtfMatches(rtf)[k]).imageType.None?
    ensures PasteOutcome(html, rtf).Ok? ==> PasteOutcome(html, rtf).value == html
  {
    var tags := ImgTagsFrom(html, 0);
    var hexImages := RtfImages(rtf);
    var srcs := NewSrcValues(hexImages);
    if 0 < |tags| && 0 < |hexImages| && |tags| == |srcs| {
      assert forall k :: 0 <= k < |tags| ==> srcs[k].None?;
      SkippedTagsChangeNothing(html, tags, srcs, 0, |tags|);
    }
  }

  /** `evt.data` of the `afterPasteFromWord` event. */
  class PasteData {
    /** The pasted HTML, which the listener rewrites in place. */
    var dataValue: string
    /** `dataTransfer[ 'text/rtf' ]`: the RTF flavour of the clipboard. */
    const rtf: string

    constructor(html: string, rtf: string)
      ensures dataValue == html && this.rtf == rtf
    {
      dataValue := html;
      this.rtf := rtf;
    }
  }

  /**
   * `pasteListener`: lines 22-55. On the error of line 52 nothing has been
   * replaced yet; otherwise `dataValue` becomes the outcome of the paste.
   */
  method PasteListener(data: PasteData) returns (r: Result<(), PasteError>)
    modifies data
    ensures r.Err? <==> PasteOutcome(old(data.dataValue), data.rtf).Err?
    ensures r.Err? ==> data.dataValue == old(data.dataValue)
    ensures r.Ok? ==> data.dataValue == PasteOutcome(old(data.dataValue), data.rtf).value
  {
    var imgTags := ExtractImgTagsFromHtmlString(data.dataValue);
    if |imgTags| == 0 {
      return Ok(());
    }
    var hexImages := ExtractImagesFromRtf(data.rtf);
    if |hexImages| == 0 {
      return Ok(());
    }
    assert hexImages == RtfImages(data.rtf);
    var newSrcValues: seq<Option<string>> := [];
    for i := 0 to |hexImages|
      invariant |newSrcValues| == i
      invariant forall k :: 0 <= k < i ==> newSrcValues[k] == CreateSrcWithBase64(hexImages[k])
    {
      var src := CreateSrcWithBase64(hexImages[i]);
      forall k | 0 <= k < i + 1 ensures (newSrcValues + [src])[k] == CreateSrcWithBase64(hexImages[k]) {
        if k < i {
          assert (newSrcValues + [src])[k] == newSrcValues[k];
        }
      }
      newSrcValues := newSrcValues + [src];
    }
    assert newSrcValues == NewSrcValues(hexImages);
    if |imgTags| == |newSrcValues| {
      for i := 0 to |imgTags|
        invariant data.dataValue == Rewritten(old(data.dataValue), imgTags, newSrcValues, i)
      {
        if IndexOf(imgTags[i].src, FileScheme, 0) == Some(0) && newSrcValues[i].Some? {
          data.dataValue := ReplaceFirst(data.dataValue, imgTags[i].src, newSrcValues[i].value);
        }
      }
      return Ok(());
    } else {
      return Err(EmbeddingMismatch);
    }
  }
}
