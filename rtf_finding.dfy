/**
 * A concrete RTF picture group on which line 109 as written stores text
 * that is not hexadecimal, while the intended classification stores the
 * data run.
 */
module RtfFinding {
  import opened Wrappers
  import opened JsText
  import opened RtfExtractor
  import opened RtfAsWritten

  /**
   * A picture group with a stray `{\*\blipuid ab}` that no hex run follows,
   * then the marker the data does follow.
   */
  const StrayUid := PictureOpen + PngBlip + BlipUidOpen + " ab}" + "x" + BlipUidOpen + " cd}" + "00" + GroupClose

  /** A picture marker starts with `{`. */
  lemma {:induction false} MarkerStartsWithBrace(s: string, q: nat)
    ensures MarkerEnd(s, Picture, q).Some? ==> q < |s| && s[q] == '{'
  {
    if OccursAt(s, BlipUidOpen, q) {
      assert s[q..q + |BlipUidOpen|][0] == BlipUidOpen[0];
    }
  }

  lemma {:induction false} StrayFirstMarker()
    ensures |StrayUid| == 54
    ensures MarkerEnd(StrayUid, Picture, 19) == Some(34) && DataEnd(StrayUid, 34).None?
  {
    StrayFirstUid();
    var s := StrayUid;
    assert !IsSpace(s[34]) && RunEnd(s, 34, HexOrSpace) == 34;
  }

  lemma {:induction false} StrayFirstUid()
    ensures MarkerEnd(StrayUid, Picture, 19) == Some(34)
  {
    var s := StrayUid;
    assert OccursAt(s, BlipUidOpen, 19);
    assert IsSpace(s[30]) && !IsSpace(s[31]);
    assert RunEnd(s, 30, Space) == 31;
    assert RunEnd(s, 32, LowerHex) == 33;
    assert RunEnd(s, 31, LowerHex) == 33;
  }

  lemma {:induction false} StraySecondMarker()
    ensures MarkerEnd(StrayUid, Picture, 35) == Some(50) && DataEnd(StrayUid, 50) == Some(54)
  {
    StraySecondUid();
    StrayData();
  }

  lemma {:induction false} StraySecondUid()
    ensures MarkerEnd(StrayUid, Picture, 35) == Some(50)
  {
    var s := StrayUid;
    assert OccursAt(s, BlipUidOpen, 35);
    assert IsSpace(s[46]) && !IsSpace(s[47]);
    assert RunEnd(s, 46, Space) == 47;
    assert RunEnd(s, 48, LowerHex) == 49;
    assert RunEnd(s, 47, LowerHex) == 49;
  }

  lemma {:induction false} StrayData()
    ensures DataEnd(StrayUid, 50) == Some(54)
  {
    var s := StrayUid;
    assert |s| == 54;
    assert !IsSpace(s[52]) && RunEnd(s, 51, HexOrSpace) == 52;
    assert RunEnd(s, 50, HexOrSpace) == 52;
    assert OccursAt(s, GroupClose, 52);
  }

  lemma {:induction false} StrayFits()
    ensures FirstFit(StrayUid, Picture, |PictureOpen| + 1, false) == Some(19)
    ensures FirstFit(StrayUid, Picture, |PictureOpen| + 1, true) == Some(35)
  {
    var s := StrayUid;
    StrayFirstMarker();
    StraySecondMarker();
    assert forall q :: 12 <= q < 35 && q != 19 ==> s[q] != '{';
    forall q | 12 <= q < 35 && q != 19 ensures MarkerEnd(s, Picture, q).None? {
      MarkerStartsWithBrace(s, q);
    }
    FirstFitIs(s, Picture, |PictureOpen| + 1, false, 19);
    FirstFitIs(s, Picture, |PictureOpen| + 1, true, 35);
  }

  /** The one match of the combined pattern in `StrayUid`: the whole text, data run `00`. */
  const StrayMatch := RtfMatch(0, StrayUid, Picture, "00")

  lemma {:induction false} StrayGroup()
    ensures GroupAt(StrayUid, Picture, 0) == Some(StrayMatch)
  {
    var s := StrayUid;
    StrayFirstMarker();
    StraySecondMarker();
    StrayFits();
    assert OccursAt(s, PictureOpen, 0);
    GroupOfPieces(s, Picture, 35, 50);
    assert s[50..|s| - 2] == "00";
  }

  lemma {:induction false} StrayMatches()
    ensures RtfMatches(StrayUid) == [StrayMatch]
  {
    StrayGroup();
    assert PictureOrShapeAt(StrayUid, 0) == Some(StrayMatch);
    assert NextRtfMatch(StrayUid, 0) == Some(StrayMatch);
    assert RtfMatchesFrom(StrayUid, StrayMatch.End()) == [];
  }

  lemma {:induction false} StraySniffed()
    ensures SniffType(StrayUid) == Some(Png)
  {
    assert OccursAt(StrayUid, PngBlip, 11);
    IndexOfLeftmost(StrayUid, PngBlip, 0);
  }

  lemma {:induction false} StrayClassified()
    ensures Classify(StrayMatch) == RtfImage(Some("00"), Some(Png))
  {
    StraySniffed();
    assert !IsSpace('0');
    RemoveSpacesSpec("00");
  }

  lemma {:induction false} StrayHeaderAt()
    ensures HeaderAt(StrayUid, Picture, 0) == Some(34)
  {
    var s := StrayUid;
    assert MarkerEnd(s, Picture, 19) == Some(34) && 34 < |s| by {
      StrayFirstMarker();
    }
    assert FirstFit(s, Picture, |PictureOpen| + 1, false) == Some(19) by {
      StrayFits();
    }
    assert OccursAt(s, PictureOpen, 0);
    assert !IsSpace(s[34]);
    HeaderEndsAtMarker(s, 19, 34);
  }

  /** The standalone picture header at the start, when no whitespace follows its marker. */
  lemma {:induction false} HeaderEndsAtMarker(w: string, q: nat, mk: nat)
    requires OccursAt(w, PictureOpen, 0) && FirstFit(w, Picture, |PictureOpen| + 1, false) == Some(q)
    requires MarkerEnd(w, Picture, q) == Some(mk) && mk < |w| && !IsSpace(w[mk])
    ensures HeaderAt(w, Picture, 0) == Some(mk)
  {
  }

  /** A header found at the very start is cut out as a prefix. */
  lemma {:induction false} HeaderAtStart(w: string, e: nat)
    requires HeaderAt(w, Picture, 0) == Some(e)
    ensures HeaderTest(w, Picture) && RemovePictureHeader(w) == w[e..]
  {
    assert FindHeader(w, Picture, 0) == Some((0, e));
    assert w[..0] + w[e..] == w[e..];
  }

  /** A character that is no whitespace and no brace survives line 109 once the header is cut. */
  lemma {:induction false} KeptInHex(w: string, c: char)
    requires !IsSpace(c) && c != '}' && c in RemovePictureHeader(w)
    ensures c in PictureHexAsWritten(w)
  {
    assert multiset(RemovePictureHeader(w))[c] > 0;
  }

  lemma {:induction false} StrayHexAsWritten()
    ensures HeaderTest(StrayUid, Picture) && 'x' in PictureHexAsWritten(StrayUid)
  {
    StrayHeaderAt();
    HeaderAtStart(StrayUid, 34);
    assert StrayUid[34..][0] == 'x';
    KeptInHex(StrayUid, 'x');
  }

  lemma {:induction false} StrayAsWritten()
    ensures ClassifyAsWritten(StrayUid) == Ok(RtfImage(Some(PictureHexAsWritten(StrayUid)), Some(Png)))
  {
    StrayHexAsWritten();
    StraySniffed();
  }

  /**
   * The finding on line 109: on `StrayUid` the combined pattern matches the
   * whole text with the data run `00`, but the standalone `rePictureHeader`
   * stops at the stray `{\*\blipuid ab}`, so the hex as written keeps the
   * non-hex `x` and the second marker, while the intended hex is `00`.
   */
  lemma {:induction false} StrayBlipUidCorruptsHex()
    ensures RtfMatches(StrayUid) == [StrayMatch]
    ensures FirstFit(StrayUid, Picture, |PictureOpen| + 1, false) == Some(19)
    ensures FirstFit(StrayUid, Picture, |PictureOpen| + 1, true) == Some(35)
    ensures Classify(StrayMatch) == RtfImage(Some("00"), Some(Png))
    ensures ClassifyAsWritten(StrayMatch.whole).Ok?
    ensures var hex := ClassifyAsWritten(StrayMatch.whole).value.hex;
      hex.Some? && 'x' in hex.value && !IsLowerHexDigit('x')
    ensures ClassifyAsWritten(StrayMatch.whole) != Ok(Classify(StrayMatch))
  {
    StrayMatches();
    StrayFits();
    StrayClassified();
    StrayAsWritten();
    StrayHexAsWritten();
  }
}
