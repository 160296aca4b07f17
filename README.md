# Paste from Word: image recovery, modelled in Dafny

When content is pasted from Word, the clipboard holds two flavours. The HTML
fragment's `<img>` tags point at local `file:///` paths that the browser
cannot load. The RTF flavour embeds the real pictures as runs of hexadecimal
digits. The `pastefromwordimage` plugin repairs the HTML in four steps:

1. `extractImgTagsFromHtmlString` lists the `<img … src="…"` tags of the
   HTML in document order.
2. `extractImagesFromRtf` lists the picture groups
   (`{\*\shppict … {\*\blipuid <hex>} <hex run>}}`) and the shape groups
   (`{\shp … {\*\svb <hex run>}}`) of the RTF in document order:
   - a picture gets its type sniffed (`\pngblip` first, then `\jpegblip`)
     and its hex run without whitespace;
   - a shape gets a `{ hex: null, type: null }` placeholder, so positions
     stay aligned.
3. `createSrcWithBase64` / `hexToBase64` turn a typed entry into a
   `data:<mime>;base64,<payload>` URI.
4. `pasteListener` pairs tags and entries by position:
   - it throws when their numbers differ;
   - otherwise it replaces each `file:///` source that has a URI.

The project has one module per concern:

- `JsText` (`js_text.dfy`): the ECMAScript string operations the code uses,
  over `seq<char>`: `\s`, `indexOf`, first-occurrence `replace`, and
  `replace( /\s/g, '' )`.
- `Transcoder` (`transcoder.dfy`): hex text to bytes, and RFC 4648 (section 4)
  Base64, with decoders used as independent partners.
- `HtmlScanner` (`html_scanner.dfy`): an explicit scanner for
  `<img[^>]+src="([^"]+)` and the do-while `exec` loop, as a method.
- `RtfExtractor` (`rtf_extractor.dfy`): an explicit scanner for the
  combined picture-or-shape pattern and the classification loop, as a
  method. Here each entry is classified by the alternative that matched,
  which is what the code evidently intends.
- `RtfAsWritten` (`rtf_as_written.dfy`): the classification loop exactly as
  written, which runs the standalone headers again on each matched text.
- `RtfFinding` (`rtf_finding.dfy`): a concrete clipboard on which the two
  classifications differ (see "## Findings").
- `PasteFromWordImage` (`paste_from_word_image.dfy`): `createSrcWithBase64`
  and the listener, as a class `PasteData` whose `dataValue` the
  `PasteListener` method rewrites in place, specified by the function
  `PasteOutcome`. Both use the corrected classification of `RtfExtractor`
  (see "## Left out").

Regular expressions are replaced by scanners whose behaviour follows the
backtracking semantics:

- In `<img[^>]+src="([^"]+)`, the greedy `[^>]+` makes the match take the
  last `src="` the tag reaches that is followed by a non-quote character.
- In the combined RTF pattern, the lazy `[\s\S]+?` stops at the first
  header marker after which the rest of the pattern fits.

## Model

| member | source | states |
|---|---|---|
| JsText.IndexOfLeftmost | plugins/pastefromwordimage/plugin.js:100-102 | `indexOf` gives the leftmost occurrence at or after the start, and nothing exactly when there is no occurrence |
| JsText.ReplaceFirstSpec | plugins/pastefromwordimage/plugin.js:48 | `replace` with a string pattern and a `$`-free replacement rewrites only the first occurrence; with no occurrence the text is unchanged |
| JsText.ReplaceFirstKeepsOthers | plugins/pastefromwordimage/plugin.js:109 | replacing the first occurrence of a pattern keeps every character that neither the pattern nor the replacement contains, as often as it occurred (used for the `}}` of line 109) |
| JsText.RemoveSpacesSpec | plugins/pastefromwordimage/plugin.js:109 | `replace( /\s/g, '' )` leaves no whitespace, and text without whitespace is unchanged |
| JsText.RemoveSpacesKeepsOthers | plugins/pastefromwordimage/plugin.js:109 | removing whitespace keeps every other character as often as it occurred |
| Transcoder.HexToBytes | plugins/pastefromwordimage/plugin.js:62 | hex text spells bytes exactly when it has even length and only hex digits; there is one byte per digit pair, and its value is the pair's value |
| Transcoder.HexRoundTrip | plugins/pastefromwordimage/plugin.js:62 | reading back the hex text of any bytes gives those bytes |
| Transcoder.Base64Alphabet | plugins/pastefromwordimage/plugin.js:62 | every character of an encoding is in the Base64 alphabet or is `=` |
| Transcoder.Base64RoundTrip | plugins/pastefromwordimage/plugin.js:62 | decoding the Base64 encoding of any bytes gives the bytes back |
| Transcoder.HexToBase64 | plugins/pastefromwordimage/plugin.js:61-63 | there is a result exactly when the hex spells bytes; it decodes back to those bytes and holds no `$` |
| HtmlScanner.LastSrcOpen | plugins/pastefromwordimage/plugin.js:136 | the backtracking of `[^>]+` finds the last `src="` in the tag, and none means there is none |
| HtmlScanner.ImgMatchAt | plugins/pastefromwordimage/plugin.js:136 | one attempt of the pattern at `p` succeeds exactly when the pattern matches there, and returns that match |
| HtmlScanner.NextImgMatch | plugins/pastefromwordimage/plugin.js:140 | `exec` from `lastIndex` returns the leftmost match at or after it and skips none; `null` means there is no match |
| HtmlScanner.ImgTagsFrom | plugins/pastefromwordimage/plugin.js:139-144 | the matches that repeated `exec` calls return from a position on; `ImgTagsFromIsScan` states that they are every match, in order |
| HtmlScanner.ImgTagsFromIsScan | plugins/pastefromwordimage/plugin.js:139-144 | the list of matches holds every match once, left to right, without overlap, and misses none |
| HtmlScanner.ExtractImgTagsFromHtmlString | plugins/pastefromwordimage/plugin.js:135-147 | the loop returns exactly that list, with no trailing `null`; every captured source is non-empty and free of `"` |
| RtfExtractor.RunInClass | plugins/pastefromwordimage/plugin.js:87-89 | a greedy character-class run holds only characters of that class |
| RtfExtractor.FirstFitSpec | plugins/pastefromwordimage/plugin.js:87-89 | the lazy `[\s\S]+?` stops at the first position where the rest of the pattern fits; no stop means it fits nowhere |
| RtfExtractor.GroupAt | plugins/pastefromwordimage/plugin.js:89 | a match of one alternative at `p` starts at `p`, is the slice of the clipboard from `p` to its end, is longer than its data run and the closing `}}`, and its data run holds only `[0-9a-f\s]` |
| RtfExtractor.GroupEndsInClose | plugins/pastefromwordimage/plugin.js:89 | the text of a match of one alternative ends in `}}`, and its data run is the text just before that `}}` |
| RtfExtractor.NextRtfMatch | plugins/pastefromwordimage/plugin.js:89-93 | the next match found is a match of the combined pattern at or after the search start, picture alternative first |
| RtfExtractor.NextRtfMatchSkipsNone | plugins/pastefromwordimage/plugin.js:93 | no match starts before the one found; when none is found, none starts anywhere after the search start |
| RtfExtractor.RtfMatches | plugins/pastefromwordimage/plugin.js:93 | the list `rtfClipboard.match( rePictureOrShape )` returns, empty for `null`; `RtfMatchesFromIsScan` states that it holds every match once, in document order |
| RtfExtractor.RtfMatchesFromIsScan | plugins/pastefromwordimage/plugin.js:93 | the global `match` lists every match once, in document order, without overlap, and misses none |
| RtfExtractor.NoMatchNoEntries | plugins/pastefromwordimage/plugin.js:93-96 | with no match anywhere the list is empty, the `null` case of line 94 |
| RtfExtractor.MatchRunsAreHexOrSpace | plugins/pastefromwordimage/plugin.js:89-93 | every listed match's data run holds only `[0-9a-f\s]` |
| RtfExtractor.SniffType | plugins/pastefromwordimage/plugin.js:100-106 | the type sniffed from a matched text, `\pngblip` looked for first; `TypeSniffing` states what each outcome means |
| RtfExtractor.TypeSniffing | plugins/pastefromwordimage/plugin.js:100-106 | PNG exactly when `\pngblip` occurs; JPEG exactly when `\jpegblip` occurs and `\pngblip` does not; no type exactly when neither occurs |
| RtfExtractor.Classify | plugins/pastefromwordimage/plugin.js:99-117 | a shape gives `{ null, null }`; a picture gets the sniffed type and has a hex exactly when it has a type |
| RtfExtractor.SpacelessRunIsHex | plugins/pastefromwordimage/plugin.js:109 | a `[0-9a-f\s]` run without its whitespace is `[0-9a-f]` only |
| RtfExtractor.ClassifiedHexIsHex | plugins/pastefromwordimage/plugin.js:109 | the hex of a classified match holds only `[0-9a-f]` |
| RtfExtractor.ClassifiedEntriesAreHex | plugins/pastefromwordimage/plugin.js:108-111 | every hex in the entries of a clipboard holds only `[0-9a-f]` |
| RtfExtractor.ClassifyEach | plugins/pastefromwordimage/plugin.js:98-121 | the loop pushes one entry per match, in match order, each the classification of its match; no type means no hex |
| RtfExtractor.ExtractImagesFromRtf | plugins/pastefromwordimage/plugin.js:85-124 | one entry per match of the clipboard, in document order, each classified; untyped entries have no hex, and every hex is `[0-9a-f]` only |
| RtfAsWritten.HeaderAt | plugins/pastefromwordimage/plugin.js:87-88 | a standalone header tried at `p` ends after `p`, inside the text |
| RtfAsWritten.FindHeader | plugins/pastefromwordimage/plugin.js:99-112 | what `test`/`replace` with a standalone header find: a header match, starting at or after the search start and ending inside the text |
| RtfAsWritten.FindHeaderLeftmost | plugins/pastefromwordimage/plugin.js:99-112 | the header found is the leftmost one, which is what the non-global `replace` of line 109 removes; none found means no header starts at or after the search start, which is what a `false` from `test` (lines 99 and 112) means |
| RtfAsWritten.PictureHexAsWritten | plugins/pastefromwordimage/plugin.js:109 | the hex of line 109 as written holds no whitespace, and keeps every character other than whitespace and `}` as often as it occurs in the matched text without the header the standalone pattern finds |
| RtfAsWritten.ClassifyAsWritten | plugins/pastefromwordimage/plugin.js:99-120 | the loop body as written: an error exactly when neither standalone header is found; a text with a picture header gets the sniffed type; a hex exactly when typed, and then it is the hex of line 109; a shape-only text gets `{ null, null }` |
| RtfAsWritten.OccursAtSlice | plugins/pastefromwordimage/plugin.js:99-112 | a literal occurs in a matched text exactly where it occurs in the clipboard, inside the match |
| RtfAsWritten.UidEndSlice | plugins/pastefromwordimage/plugin.js:87 | `\s+[0-9a-f]+\}` ends at the same place in a matched text as in the clipboard, when it ends inside the match |
| RtfAsWritten.MarkerEndSlice | plugins/pastefromwordimage/plugin.js:87-88 | a header marker ends at the same place in a matched text as in the clipboard, when it ends inside the match |
| RtfAsWritten.MatchHasHeader | plugins/pastefromwordimage/plugin.js:99-112 | the text of every match contains the standalone header of the alternative that matched |
| RtfAsWritten.AsWrittenNeverThrows | plugins/pastefromwordimage/plugin.js:118-120 | the `throw` of line 119 is unreachable: every listed match passes one of the two `test`s |
| RtfAsWritten.CollectSpec | plugins/pastefromwordimage/plugin.js:98-123 | the loop fails exactly when some match fails; otherwise it returns each match's entry, in order |
| RtfAsWritten.CollectStopsAtError | plugins/pastefromwordimage/plugin.js:119 | nothing after the first failing match affects the outcome |
| RtfAsWritten.ClassifyEachAsWritten | plugins/pastefromwordimage/plugin.js:98-121 | the loop as written, with the `throw` as an error result, collects the results of the loop body |
| RtfAsWritten.ExtractImagesFromRtfAsWritten | plugins/pastefromwordimage/plugin.js:85-124 | the function as written fails exactly when some match fails the loop body, and otherwise returns each match's entry in order |
| RtfFinding.StrayFits | plugins/pastefromwordimage/plugin.js:87-89 | on `StrayUid` the standalone picture header stops at the stray `{\*\blipuid ab}`; the combined pattern stops at the later marker |
| RtfFinding.StrayMatches | plugins/pastefromwordimage/plugin.js:93 | the combined pattern matches `StrayUid` once, as a whole, with data run `00` |
| RtfFinding.StrayBlipUidCorruptsHex | plugins/pastefromwordimage/plugin.js:109 | on `StrayUid` line 109 as written stores a hex containing the non-hex `x`, while the intended hex is `00` |
| PasteFromWordImage.CreateSrcWithBase64 | plugins/pastefromwordimage/plugin.js:57-59 | no URI for an untyped entry; for a typed one, a URI exactly when its hex spells bytes; the URI reads back as the entry's type and exactly those bytes, and holds no `$` |
| PasteFromWordImage.DecodeBuiltUri | plugins/pastefromwordimage/plugin.js:58 | a `data:<mime>;base64,` URI reads back as its type and its decoded payload |
| PasteFromWordImage.NewSrcValues | plugins/pastefromwordimage/plugin.js:39-41 | one new source per entry, in order, each built by `createSrcWithBase64`, none holding `$` |
| PasteFromWordImage.RtfImages | plugins/pastefromwordimage/plugin.js:34 | the entries for an RTF text: one per match, each classified, a hex whenever a type |
| PasteFromWordImage.PasteOutcome | plugins/pastefromwordimage/plugin.js:29-53 | what the listener does to the pasted HTML; `MismatchIff`, `NoFileSourceNoChange` and `NoTypedPictureNoChange` state its properties |
| PasteFromWordImage.QualifiesIff | plugins/pastefromwordimage/plugin.js:47 | `indexOf( 'file:///' ) === 0` and a non-null new source hold exactly when the source starts with `file:///` and there is a URI |
| PasteFromWordImage.SkippedTagsChangeNothing | plugins/pastefromwordimage/plugin.js:45-50 | loop iterations whose tag does not qualify leave the HTML unchanged |
| PasteFromWordImage.MismatchIff | plugins/pastefromwordimage/plugin.js:29-53 | the error of line 52 occurs exactly when there are image tags and RTF matches and their numbers differ |
| PasteFromWordImage.NoFileSourceNoChange | plugins/pastefromwordimage/plugin.js:44-50 | when no image source starts with `file:///`, a successful paste keeps the HTML unchanged |
| PasteFromWordImage.NoTypedPictureNoChange | plugins/pastefromwordimage/plugin.js:39-50 | when the RTF holds no typed picture, a successful paste keeps the HTML unchanged |
| PasteFromWordImage.PasteListener | plugins/pastefromwordimage/plugin.js:22-55 | the listener fails exactly when the outcome is the mismatch error, and then nothing has been replaced; otherwise `dataValue` becomes the rewritten HTML |

## Left out

- The `init` hook and the registration on `afterPasteFromWord` (lines 11-20) are editor glue. The listener is modelled on its event data alone.
- `CKEDITOR.tools.convertHexStringToBytes` and `CKEDITOR.tools.convertBytesToBase64` are not part of this model. They are replaced by `Transcoder.HexToBytes` (digit pairs to bytes) and RFC 4648 Base64.
- PasteFromWordImage.CreateSrcWithBase64: gives no URI for a typed entry whose hex has odd length, since how the unseen converter treats a lone digit is not part of this model. The code's own guard (line 58) only tests the type.
- PasteFromWordImage.PasteListener: the RTF flavour is taken as present. When `dataTransfer[ 'text/rtf' ]` is missing, line 34 would throw a `TypeError` on `undefined`, which is not modelled.
- `String.prototype.replace` with a string pattern interprets `$` patterns in the replacement. The model requires a `$`-free replacement and proves that every data URI has no `$`, so the difference never arises.
- Line 48 replaces the first textual occurrence of the source anywhere in the HTML. That is not necessarily inside the tag it came from. The model does the same and does not prove that the right tag is rewritten.
- Strings are sequences of `char`. UTF-16 surrogate pairs and code-unit indexing are not distinguished, which none of the patterns depend on.
- RtfAsWritten.AsWrittenNeverThrows: states that the `throw` is unreachable. It does not prove that, on matches without a stray `{\*\blipuid …}` before the real marker, the as-written classification equals the intended one. That agreement is left unproved.
- PasteFromWordImage.PasteListener: the listener (and `PasteOutcome`, `RtfImages`) is built on the corrected classification `RtfExtractor.Classify`, not on `RtfAsWritten.ClassifyAsWritten`. Its `dataValue` therefore differs from the code as written on two kinds of input. On `RtfFinding.StrayUid` the code builds its URI from the hex `x{\*\blipuidcd}00`, while the model builds it from `00`. On a shape match whose text contains a picture header, the code gives a typed entry (the test of line 99 comes first), while the model gives the `{ null, null }` placeholder. The second case is only modelled, not stated as a lemma.
- `plugins/linkfe`, `plugins/inlinetoolbar` and `plugins/abbr` are UI plugins outside this model.

## Findings

| source | as written | input that shows it | evidently intended | confidence | as-written member | corrected member |
|---|---|---|---|---|---|---|
| plugins/pastefromwordimage/plugin.js:109 | the hex is taken by re-running the standalone `rePictureHeader` on the matched text. Its lazy `[\s\S]+?` stops at the first `{\*\blipuid …}`, even one not followed by the data, so the header cut out can end before the data's own marker | `RtfFinding.StrayUid`: `{\*\shppict\pngblip{\*\blipuid ab}x{\*\blipuid cd}00}}`. The combined pattern matches it whole with data run `00`, but the stored hex holds `x`, `{`, `\` and what is left of the second marker | the hex is the data run the combined pattern captured, without its whitespace, so it holds only `[0-9a-f]` | not executed | RtfAsWritten.ClassifyAsWritten, RtfFinding.StrayBlipUidCorruptsHex | RtfExtractor.Classify, RtfExtractor.ClassifiedHexIsHex, RtfExtractor.ExtractImagesFromRtf |
