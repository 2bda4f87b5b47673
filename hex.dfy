/**
 * Base16 ("hex") encoding as in section 8 of RFC 4648, the way the `hex`
 * crate that `ContentDigest` relies on implements it: decoding works on the
 * bytes of the text, accepts both letter cases, rejects an odd length before
 * looking at any digit, and otherwise reports the first byte that is not a
 * hex digit together with its index; encoding produces lower-case digits.
 */
module Hex {
  import opened Wrappers

  type byte = x: int | 0 <= x < 256

  datatype HexError = OddLength | InvalidHexCharacter(c: byte, index: nat)

  predicate IsHexDigit(c: byte) {
    ('0' as int <= c <= '9' as int) || ('A' as int <= c <= 'F' as int) || ('a' as int <= c <= 'f' as int)
  }

  predicate IsLowerHexDigit(c: byte) {
    ('0' as int <= c <= '9' as int) || ('a' as int <= c <= 'f' as int)
  }

  /** The value of one hex digit, in either case. */
  function DigitValue(c: byte): (v: nat)
    requires IsHexDigit(c)
    ensures v < 16
  {
    if 'A' as int <= c <= 'F' as int then c - 'A' as int + 10
    else if 'a' as int <= c <= 'f' as int then c - 'a' as int + 10
    else c - '0' as int
  }

  /** The lower-case digit for a value below 16. */
  function LowerDigit(v: nat): (c: byte)
    requires v < 16
    ensures IsLowerHexDigit(c) && IsHexDigit(c) && DigitValue(c) == v
  {
    if v < 10 then '0' as int + v else 'a' as int + v - 10
  }

  /** ASCII lower-casing of one byte. */
  function ToLower(c: byte): byte {
    if 'A' as int <= c <= 'Z' as int then c + 32 else c
  }

  function Lowercase(text: seq<byte>): (r: seq<byte>)
    ensures |r| == |text|
  {
    if text == [] then [] else [ToLower(text[0])] + Lowercase(text[1..])
  }

  /** One digit at position `index` of the text: its value, or the error naming it. */
  function Digit(c: byte, index: nat): (r: Result<nat, HexError>)
    ensures r.Ok? <==> IsHexDigit(c)
    ensures r.Ok? ==> r.value == DigitValue(c)
    ensures r.Err? ==> r.error == InvalidHexCharacter(c, index)
  {
    if IsHexDigit(c) then Ok(DigitValue(c)) else Err(InvalidHexCharacter(c, index))
  }

  /** Decodes an even-length text pair by pair; `offset` is the index of `text[0]` in the whole input. */
  function DecodePairs(text: seq<byte>, offset: nat): (r: Result<seq<byte>, HexError>)
    requires |text| % 2 == 0
    ensures r.Ok? <==> forall i :: 0 <= i < |text| ==> IsHexDigit(text[i])
    ensures r.Ok? ==> 2 * |r.value| == |text|
    ensures r.Err? ==>
      r.error.InvalidHexCharacter? &&
      offset <= r.error.index < offset + |text| &&
      text[r.error.index - offset] == r.error.c && !IsHexDigit(r.error.c) &&
      forall j :: 0 <= j < r.error.index - offset ==> IsHexDigit(text[j])
    decreases |text|
  {
    if text == [] then Ok([])
    else
      match Digit(text[0], offset)
      case Err(e) => Err(e)
      case Ok(hi) =>
        match Digit(text[1], offset + 1)
        case Err(e) => Err(e)
        case Ok(lo) =>
          match DecodePairs(text[2..], offset + 2)
          case Err(e) => Err(e)
          case Ok(rest) => Ok([hi * 16 + lo] + rest)
  }

  /**
   * `hex::decode`: an odd length is reported first; otherwise the first byte
   * that is not a hex digit; otherwise the decoded bytes, half as many as the
   * text has.
   */
  function HexDecode(text: seq<byte>): (r: Result<seq<byte>, HexError>)
    ensures r == Err(OddLength) <==> |text| % 2 == 1
    ensures r.Ok? <==> |text| % 2 == 0 && forall i :: 0 <= i < |text| ==> IsHexDigit(text[i])
    ensures r.Ok? ==> |text| == 2 * |r.value|
    ensures r.Err? && r.error.InvalidHexCharacter? ==>
      r.error.index < |text| && text[r.error.index] == r.error.c && !IsHexDigit(r.error.c) &&
      forall j :: 0 <= j < r.error.index ==> IsHexDigit(text[j])
  {
    if |text| % 2 != 0 then Err(OddLength) else DecodePairs(text, 0)
  }

  /** `hex::encode`: two lower-case digits per byte, high nibble first. */
  function HexEncode(data: seq<byte>): (t: seq<byte>)
    ensures |t| == 2 * |data|
    ensures forall i :: 0 <= i < |t| ==> IsLowerHexDigit(t[i])
  {
    if data == [] then []
    else [LowerDigit(data[0] / 16), LowerDigit(data[0] % 16)] + HexEncode(data[1..])
  }

  lemma {:induction false} DecodePairsOfEncode(data: seq<byte>, offset: nat)
    ensures DecodePairs(HexEncode(data), offset) == Ok(data)
    decreases |data|
  {
    if data != [] {
      var t := HexEncode(data);
      assert t[2..] == HexEncode(data[1..]);
      DecodePairsOfEncode(data[1..], offset + 2);
      assert (data[0] / 16) * 16 + data[0] % 16 == data[0];
      assert [data[0]] + data[1..] == data;
    }
  }

  /** Decoding undoes encoding (RFC 4648 section 8 round trip). */
  lemma {:induction false} HexRoundTrip(data: seq<byte>)
    ensures HexDecode(HexEncode(data)) == Ok(data)
  {
    assert |HexEncode(data)| % 2 == 0;
    DecodePairsOfEncode(data, 0);
  }

  lemma DigitRoundTrip(c: byte)
    requires IsHexDigit(c)
    ensures LowerDigit(DigitValue(c)) == ToLower(c)
  {
  }

  lemma {:induction false} EncodeOfDecodePairs(text: seq<byte>, offset: nat)
    requires |text| % 2 == 0
    requires DecodePairs(text, offset).Ok?
    ensures HexEncode(DecodePairs(text, offset).value) == Lowercase(text)
    decreases |text|
  {
    if text != [] {
      var hi, lo := DigitValue(text[0]), DigitValue(text[1]);
      var rest := DecodePairs(text[2..], offset + 2).value;
      var b := hi * 16 + lo;
      assert DecodePairs(text, offset).value == [b] + rest;
      assert b / 16 == hi && b % 16 == lo;
      DigitRoundTrip(text[0]);
      DigitRoundTrip(text[1]);
      EncodeOfDecodePairs(text[2..], offset + 2);
      assert ([b] + rest)[1..] == rest;
      assert Lowercase(text)[2..] == Lowercase(text[2..]) by {
        assert Lowercase(text) == [ToLower(text[0])] + Lowercase(text[1..]);
        assert Lowercase(text[1..]) == [ToLower(text[1])] + Lowercase(text[2..]);
      }
    }
  }

  /** Encoding what was decoded gives back the text, lower-cased: decoding loses only the letter case. */
  lemma {:induction false} EncodeOfDecode(text: seq<byte>)
    requires HexDecode(text).Ok?
    ensures HexEncode(HexDecode(text).value) == Lowercase(text)
  {
    EncodeOfDecodePairs(text, 0);
  }
}
