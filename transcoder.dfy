/**
 * `hexToBase64`: hexadecimal text to bytes, then bytes to Base64 text as
 * section 4 of RFC 4648 defines it (alphabet A-Z a-z 0-9 + /, `=` padding).
 */
module Transcoder {
  import opened Wrappers

  newtype byte = x: int | 0 <= x < 256

  predicate IsHexDigit(c: char) {
    '0' <= c <= '9' || 'a' <= c <= 'f' || 'A' <= c <= 'F'
  }

  function DigitValue(c: char): (v: nat)
    requires IsHexDigit(c)
    ensures v < 16
  {
    if '0' <= c <= '9' then c as int - '0' as int
    else if 'a' <= c <= 'f' then c as int - 'a' as int + 10
    else c as int - 'A' as int + 10
  }

  /** The lower-case hexadecimal digit of `v`. */
  function DigitChar(v: nat): (c: char)
    requires v < 16
    ensures IsHexDigit(c) && DigitValue(c) == v
  {
    if v < 10 then ('0' as int + v) as char else ('a' as int + v - 10) as char
  }

  /**
   * Hexadecimal text to bytes, two digits per byte, high digit first.
   * `None` when the text has an odd length or a character that is not a
   * hexadecimal digit.
   */
  function HexToBytes(hex: string): (r: Option<seq<byte>>)
    ensures r.Some? <==> |hex| % 2 == 0 && forall i :: 0 <= i < |hex| ==> IsHexDigit(hex[i])
    ensures r.Some? ==> |r.value| == |hex| / 2
    ensures r.Some? ==> forall i :: 0 <= i < |r.value| ==>
      r.value[i] as int == 16 * DigitValue(hex[2 * i]) + DigitValue(hex[2 * i + 1])
    decreases |hex|
  {
    if |hex| == 0 then Some([])
    else if |hex| == 1 || !IsHexDigit(hex[0]) || !IsHexDigit(hex[1]) then None
    else
      match HexToBytes(hex[2..])
      case None => None
      case Some(rest) => Some([(16 * DigitValue(hex[0]) + DigitValue(hex[1])) as byte] + rest)
  }

  /** Bytes to lower-case hexadecimal text, the inverse of HexToBytes. */
  function BytesToHex(b: seq<byte>): (r: string)
    ensures |r| == 2 * |b|
  {
    if b == [] then []
    else [DigitChar(b[0] as int / 16), DigitChar(b[0] as int % 16)] + BytesToHex(b[1..])
  }

  lemma {:induction false} HexRoundTrip(b: seq<byte>)
    ensures HexToBytes(BytesToHex(b)) == Some(b)
  {
    if b != [] {
      var hi, lo := b[0] as int / 16, b[0] as int % 16;
      var h := BytesToHex(b);
      assert h == [DigitChar(hi), DigitChar(lo)] + BytesToHex(b[1..]);
      assert h[2..] == BytesToHex(b[1..]);
      HexRoundTrip(b[1..]);
      assert (16 * hi + lo) as byte == b[0];
      assert IsHexDigit(h[0]) && IsHexDigit(h[1]);
      assert HexToBytes(h) == Some([(16 * DigitValue(h[0]) + DigitValue(h[1])) as byte] + b[1..]);
      assert [b[0]] + b[1..] == b;
    }
  }

  /** The Base64 character of a 6-bit value. */
  function SextetChar(v: nat): (c: char)
    requires v < 64
  {
    if v < 26 then ('A' as int + v) as char
    else if v < 52 then ('a' as int + v - 26) as char
    else if v < 62 then ('0' as int + v - 52) as char
    else if v == 62 then '+'
    else '/'
  }

  /** The 6-bit value of a Base64 character, `None` outside the alphabet. */
  function SextetValue(c: char): (r: Option<nat>)
    ensures r.Some? ==> r.value < 64 && SextetChar(r.value) == c
  {
    if 'A' <= c <= 'Z' then Some(c as int - 'A' as int)
    else if 'a' <= c <= 'z' then Some(c as int - 'a' as int + 26)
    else if '0' <= c <= '9' then Some(c as int - '0' as int + 52)
    else if c == '+' then Some(62)
    else if c == '/' then Some(63)
    else None
  }

  predicate IsBase64Char(c: char) {
    SextetValue(c).Some?
  }

  /** The four characters of a full group of three bytes. */
  function EncodeTriple(x: byte, y: byte, z: byte): string {
    var b0, b1, b2 := x as int, y as int, z as int;
    [SextetChar(b0 / 4), SextetChar(b0 % 4 * 16 + b1 / 16), SextetChar(b1 % 16 * 4 + b2 / 64), SextetChar(b2 % 64)]
  }

  /** A final group of two bytes: three characters, zero-filled, and one `=`. */
  function EncodePair(x: byte, y: byte): string {
    var b0, b1 := x as int, y as int;
    [SextetChar(b0 / 4), SextetChar(b0 % 4 * 16 + b1 / 16), SextetChar(b1 % 16 * 4), '=']
  }

  /** A final group of one byte: two characters, zero-filled, and `==`. */
  function EncodeSingle(x: byte): string {
    var b0 := x as int;
    [SextetChar(b0 / 4), SextetChar(b0 % 4 * 16), '=', '=']
  }

  /**
   * Base64 encoding: each group of three bytes becomes four characters; a
   * final group of one or two bytes is zero-filled and padded with `=`.
   */
  function Base64Encode(b: seq<byte>): string
    decreases |b|
  {
    if |b| == 0 then []
    else if |b| == 1 then EncodeSingle(b[0])
    else if |b| == 2 then EncodePair(b[0], b[1])
    else EncodeTriple(b[0], b[1], b[2]) + Base64Encode(b[3..])
  }

  /** Every character of an encoding is in the Base64 alphabet or is the padding `=`. */
  lemma {:induction false} Base64Alphabet(b: seq<byte>)
    ensures forall i :: 0 <= i < |Base64Encode(b)| ==> IsBase64Char(Base64Encode(b)[i]) || Base64Encode(b)[i] == '='
    decreases |b|
  {
    if |b| >= 3 {
      Base64Alphabet(b[3..]);
    }
  }

  /** Base64 decoding of text in four-character groups, `=` only at the end. */
  function Base64Decode(s: string): (r: Option<seq<byte>>)
    decreases |s|
  {
    if |s| == 0 then Some([])
    else if |s| < 4 then None
    else
      var v0, v1, v2, v3 := SextetValue(s[0]), SextetValue(s[1]), SextetValue(s[2]), SextetValue(s[3]);
      if v0.None? || v1.None? then None
      else
        var x0 := (v0.value * 4 + v1.value / 16) as byte;
        if s[2] == '=' && s[3] == '=' then
          if |s| == 4 then Some([x0]) else None
        else if v2.None? then None
        else
          var x1 := (v1.value % 16 * 16 + v2.value / 4) as byte;
          if s[3] == '=' then
            if |s| == 4 then Some([x0, x1]) else None
          else if v3.None? then None
          else
            var x2 := (v2.value % 4 * 64 + v3.value) as byte;
            match Base64Decode(s[4..])
            case None => None
            case Some(rest) => Some([x0, x1, x2] + rest)
  }

  lemma {:induction false} SextetRoundTrip(v: nat)
    requires v < 64
    ensures SextetValue(SextetChar(v)) == Some(v)
  {
  }

  /** Decoding a full group of four characters in front of decodable text. */
  lemma {:induction false} DecodeFullGroup(v0: nat, v1: nat, v2: nat, v3: nat, rest: string, t: seq<byte>)
    requires v0 < 64 && v1 < 64 && v2 < 64 && v3 < 64
    requires Base64Decode(rest) == Some(t)
    ensures Base64Decode([SextetChar(v0), SextetChar(v1), SextetChar(v2), SextetChar(v3)] + rest) ==
      Some([(v0 * 4 + v1 / 16) as byte, (v1 % 16 * 16 + v2 / 4) as byte, (v2 % 4 * 64 + v3) as byte] + t)
  {
    SextetRoundTrip(v0); SextetRoundTrip(v1); SextetRoundTrip(v2); SextetRoundTrip(v3);
    var s := [SextetChar(v0), SextetChar(v1), SextetChar(v2), SextetChar(v3)] + rest;
    assert s[4..] == rest;
  }

  /** Decoding a final group of three characters and one `=`. */
  lemma {:induction false} DecodePaddedPair(v0: nat, v1: nat, v2: nat)
    requires v0 < 64 && v1 < 64 && v2 < 64
    ensures Base64Decode([SextetChar(v0), SextetChar(v1), SextetChar(v2), '=']) ==
      Some([(v0 * 4 + v1 / 16) as byte, (v1 % 16 * 16 + v2 / 4) as byte])
  {
    SextetRoundTrip(v0); SextetRoundTrip(v1); SextetRoundTrip(v2);
  }

  /** Decoding the encoding of any byte sequence gives the bytes back. */
  lemma {:induction false} Base64RoundTrip(b: seq<byte>)
    ensures Base64Decode(Base64Encode(b)) == Some(b)
    decreases |b|
  {
    if |b| >= 3 {
      Base64RoundTrip(b[3..]);
      LeadingTripleRoundTrip(b);
    } else if |b| == 2 {
      PairRoundTrip(b[0], b[1]);
      assert [b[0], b[1]] == b;
    } else if |b| == 1 {
      SingleRoundTrip(b[0]);
      assert [b[0]] == b;
    }
  }

  /** Once the bytes after the first three round-trip, all of them do. */
  lemma {:induction false} LeadingTripleRoundTrip(b: seq<byte>)
    requires |b| >= 3 && Base64Decode(Base64Encode(b[3..])) == Some(b[3..])
    ensures Base64Decode(Base64Encode(b)) == Some(b)
  {
    TripleRoundTrip(b[0], b[1], b[2], Base64Encode(b[3..]), b[3..]);
    assert [b[0], b[1], b[2]] + b[3..] == b;
  }

  /** A full group in front of decodable text decodes to its three bytes, then the rest. */
  lemma {:induction false} TripleRoundTrip(x: byte, y: byte, z: byte, rest: string, t: seq<byte>)
    requires Base64Decode(rest) == Some(t)
    ensures Base64Decode(EncodeTriple(x, y, z) + rest) == Some([x, y, z] + t)
  {
    var b0, b1, b2 := x as int, y as int, z as int;
    var v0, v1, v2, v3 := b0 / 4, b0 % 4 * 16 + b1 / 16, b1 % 16 * 4 + b2 / 64, b2 % 64;
    DecodeFullGroup(v0, v1, v2, v3, rest, t);
    GroupRoundTrip(b0, b1, b2);
  }

  lemma {:induction false} PairRoundTrip(x: byte, y: byte)
    ensures Base64Decode(EncodePair(x, y)) == Some([x, y])
  {
    var b0, b1 := x as int, y as int;
    var v0, v1, v2 := b0 / 4, b0 % 4 * 16 + b1 / 16, b1 % 16 * 4;
    DecodePaddedPair(v0, v1, v2);
    GroupRoundTrip(b0, b1, 0);
  }

  lemma {:induction false} SingleRoundTrip(x: byte)
    ensures Base64Decode(EncodeSingle(x)) == Some([x])
  {
    var b0 := x as int;
    var v0, v1 := b0 / 4, b0 % 4 * 16;
    SextetRoundTrip(v0);
    SextetRoundTrip(v1);
    GroupRoundTrip(b0, 0, 0);
  }

  /** The four sextets of a group of three bytes give the three bytes back. */
  lemma {:induction false} GroupRoundTrip(b0: int, b1: int, b2: int)
    requires 0 <= b0 < 256 && 0 <= b1 < 256 && 0 <= b2 < 256
    ensures b0 / 4 * 4 + (b0 % 4 * 16 + b1 / 16) / 16 == b0
    ensures (b0 % 4 * 16 + b1 / 16) % 16 * 16 + (b1 % 16 * 4 + b2 / 64) / 4 == b1
    ensures (b1 % 16 * 4 + b2 / 64) % 4 * 64 + b2 % 64 == b2
  {
  }

  /** `hexToBase64`: the Base64 text of the bytes the hexadecimal text spells. */
  function HexToBase64(hex: string): (r: Option<string>)
    ensures r.Some? <==> HexToBytes(hex).Some?
    ensures r.Some? ==> Base64Decode(r.value) == HexToBytes(hex)
    ensures r.Some? ==> '$' !in r.value
  {
    match HexToBytes(hex)
    case None => None
    case Some(bytes) =>
      EncodingDecodes(bytes);
      Some(Base64Encode(bytes))
  }

  /** The encoding decodes back to the bytes, and it holds no `$`. */
  lemma {:induction false} EncodingDecodes(b: seq<byte>)
    ensures Base64Decode(Base64Encode(b)) == Some(b) && '$' !in Base64Encode(b)
  {
    Base64RoundTrip(b);
    Base64Alphabet(b);
    var text := Base64Encode(b);
    assert forall i :: 0 <= i < |text| ==> text[i] != '$';
  }
}
