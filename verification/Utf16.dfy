/** UTF-16 as section 2 of RFC 2781 defines it, and the code units of a text. */
module Utf16 {
  import opened Prelude
  import opened Utf8

  type CodeUnit = x: int | 0 <= x < 0x1_0000

  /** Section 2.1: one unit below 0x10000, otherwise a high and a low surrogate. */
  function Encode(code: nat): (units: seq<CodeUnit>)
    requires IsScalar(code)
    ensures 1 <= |units| <= 2
  {
    if code < 0x1_0000 then [code]
    else [0xD800 + (code - 0x1_0000) / 0x400, 0xDC00 + (code - 0x1_0000) % 0x400]
  }

  /** Section 2.2: the code point at the front, unless a surrogate stands alone there. */
  function Decode(units: seq<CodeUnit>): Option<nat>
    requires units != []
  {
    var first := units[0];
    if first < 0xD800 || first > 0xDFFF then Some(first)
    else if first > 0xDBFF || |units| < 2 || !(0xDC00 <= units[1] <= 0xDFFF) then None
    else
      var w1: int, w2: int := first, units[1];
      var high, low := w1 - 0xD800, w2 - 0xDC00;
      Some(0x1_0000 + high * 0x400 + low)
  }

  /** Every scalar value is read back, whatever follows it. */
  lemma DecodeEncode(code: nat, rest: seq<CodeUnit>)
    requires IsScalar(code)
    ensures Decode(Encode(code) + rest) == Some(code)
  {
    if code >= 0x1_0000 {
      var n := code - 0x1_0000;
      assert n == n / 0x400 * 0x400 + n % 0x400;
      assert (Encode(code) + rest)[1] == 0xDC00 + n % 0x400;
    }
  }

  /** The code units of a text, each malformed byte counting as U+FFFD. */
  function CodeUnits(text: Bytes): seq<CodeUnit> {
    if text == [] then []
    else Encode(DecodeRune(text).code) + CodeUnits(text[DecodeRune(text).width..])
  }

  /** The code points that code units stand for. */
  function CodePoints(units: seq<CodeUnit>): Option<seq<nat>> {
    if units == [] then Some([])
    else
      match Decode(units)
      case None => None
      case Some(code) =>
        var width := if code < 0x1_0000 then 1 else 2;
        if |units| < width then None
        else
          match CodePoints(units[width..])
          case None => None
          case Some(rest) => Some([code] + rest)
  }

  function CodesOf(rs: seq<Rune>): seq<nat> {
    if rs == [] then [] else [rs[0].code] + CodesOf(rs[1..])
  }

  /** The code units of a text stand for exactly its code points. */
  lemma {:induction false} CodeUnitsReadBack(text: Bytes)
    ensures CodePoints(CodeUnits(text)) == Some(CodesOf(Runes(text)))
  {
    if text != [] {
      hide DecodeRune, Decode;
      var r := DecodeRune(text);
      var first, rest := Encode(r.code), CodeUnits(text[r.width..]);
      DecodeEncode(r.code, rest);
      assert (first + rest)[|first|..] == rest;
      assert Runes(text)[1..] == Runes(text[r.width..]);
      CodeUnitsReadBack(text[r.width..]);
    }
  }

  lemma {:induction false} CodeUnitsCount(text: Bytes)
    ensures |CodeUnits(text)| == Units(Runes(text))
  {
    if text != [] {
      hide DecodeRune;
      var r := DecodeRune(text);
      assert Runes(text)[1..] == Runes(text[r.width..]);
      CodeUnitsCount(text[r.width..]);
    }
  }
}
