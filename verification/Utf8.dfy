/** How Go's range over a string reads code points, malformed bytes included. */
module Utf8 {
  import opened Prelude

  /** One step of range: the code point, its width in bytes, and whether the
      bytes were well formed (a malformed byte reads as U+FFFD of width one). */
  datatype Rune = Rune(code: nat, width: nat, valid: bool)

  const BAD := Rune(0xFFFD, 1, false)

  predicate Continues(b: byte) {
    0x80 <= b <= 0xBF
  }

  /** The second byte allowed after a three- or four-byte lead. */
  predicate SecondByte(lead: byte, b: byte) {
    var low := if lead == 0xE0 then 0xA0 else if lead == 0xF0 then 0x90 else 0x80;
    var high := if lead == 0xED then 0x9F else if lead == 0xF4 then 0x8F else 0xBF;
    low <= b <= high
  }

  /** The six bits a continuation byte adds. */
  function Low(b: byte): nat
    requires b >= 0x80
  {
    var n: int := b;
    n - 0x80
  }

  function High(lead: byte, from: nat): nat
    requires lead >= from
  {
    var n: int := lead;
    n - from
  }

  function DecodeRune(s: Bytes): (r: Rune)
    requires s != []
    ensures 1 <= r.width <= 4 && r.width <= |s|
    ensures r.code <= 0x10FFFF && !(0xD800 <= r.code <= 0xDFFF)
  {
    var lead := s[0];
    if lead < 0x80 then Rune(lead, 1, true)
    else if 0xC2 <= lead <= 0xDF && |s| >= 2 && Continues(s[1]) then
      Rune(High(lead, 0xC0) * 0x40 + Low(s[1]), 2, true)
    else if 0xE0 <= lead <= 0xEF && |s| >= 3 && SecondByte(lead, s[1]) && Continues(s[2]) then
      Rune(High(lead, 0xE0) * 0x1000 + Low(s[1]) * 0x40 + Low(s[2]), 3, true)
    else if 0xF0 <= lead <= 0xF4 && |s| >= 4 && SecondByte(lead, s[1]) && Continues(s[2]) && Continues(s[3]) then
      Rune(High(lead, 0xF0) * 0x40000 + Low(s[1]) * 0x1000 + Low(s[2]) * 0x40 + Low(s[3]), 4, true)
    else BAD
  }

  /** All the steps of ranging over a string. */
  function Runes(s: Bytes): seq<Rune> {
    if s == [] then [] else [DecodeRune(s)] + Runes(s[DecodeRune(s).width..])
  }

  /** utf16.RuneLen of a code point that range can yield. */
  function RuneUnits(r: Rune): nat {
    if r.code >= 0x10000 then 2 else 1
  }

  function Units(rs: seq<Rune>): nat {
    if rs == [] then 0 else RuneUnits(rs[0]) + Units(rs[1..])
  }

  predicate ValidUtf8(s: Bytes) {
    forall r <- Runes(s) :: r.valid
  }

  /** i is where some step of ranging over s starts, or the end. */
  ghost predicate Boundary(s: Bytes, i: nat) {
    i == 0 || (s != [] && DecodeRune(s).width <= i && Boundary(s[DecodeRune(s).width..], i - DecodeRune(s).width))
  }

  lemma DecodePrefix(s: Bytes, n: nat)
    requires s != [] && DecodeRune(s).width <= n <= |s|
    ensures DecodeRune(s[..n]) == DecodeRune(s)
  {}

  /** Cutting at a boundary cuts the code points there too. */
  lemma {:induction false} BoundaryRunes(s: Bytes, i: nat)
    requires Boundary(s, i)
    ensures i <= |s| && Runes(s) == Runes(s[..i]) + Runes(s[i..])
  {
    hide DecodeRune;
    if i > 0 {
      var w := DecodeRune(s).width;
      BoundaryRunes(s[w..], i - w);
      DecodePrefix(s, i);
      assert s[..i][w..] == s[w..][..i - w] && s[w..][i - w..] == s[i..];
      assert Runes(s[..i]) == [DecodeRune(s)] + Runes(s[..i][w..]);
    } else {
      assert s[i..] == s;
    }
  }

  lemma {:induction false} NextBoundary(s: Bytes, i: nat)
    requires Boundary(s, i) && i < |s|
    ensures Boundary(s, i + DecodeRune(s[i..]).width)
  {
    hide DecodeRune;
    if i > 0 {
      var w := DecodeRune(s).width;
      BoundaryRunes(s, i);
      assert s[w..][i - w..] == s[i..];
      NextBoundary(s[w..], i - w);
    } else {
      assert s[i..] == s;
    }
  }

  lemma NextRune(s: Bytes, i: nat)
    requires Boundary(s, i) && i < |s|
    ensures var r := DecodeRune(s[i..]);
      i + r.width <= |s| && Runes(s[..i + r.width]) == Runes(s[..i]) + [r]
  {
    hide DecodeRune;
    var r := DecodeRune(s[i..]);
    NextBoundary(s, i);
    BoundaryRunes(s, i);
    BoundaryRunes(s, i + r.width);
    assert s[i..][r.width..] == s[i + r.width..];
    var rest := Runes(s[i + r.width..]);
    assert Runes(s) == (Runes(s[..i]) + [r]) + rest;
    CancelSuffix(Runes(s[..i + r.width]), Runes(s[..i]) + [r], rest);
  }

  lemma CancelSuffix<T>(a: seq<T>, b: seq<T>, c: seq<T>)
    requires a + c == b + c
    ensures a == b
  {
    assert |a| == |b|;
    assert a == (a + c)[..|a|] && b == (b + c)[..|b|];
  }

  lemma {:induction false} UnitsConcat(a: seq<Rune>, b: seq<Rune>)
    ensures Units(a + b) == Units(a) + Units(b)
  {
    if a == [] {
      assert a + b == b;
    } else {
      assert (a + b)[1..] == a[1..] + b;
      UnitsConcat(a[1..], b);
    }
  }

  lemma {:induction false} UnitsPositive(rs: seq<Rune>)
    ensures Units(rs) >= |rs|
  {
    if rs != [] { UnitsPositive(rs[1..]); }
  }

  // ----- The decoder against the encoding it reads -----

  predicate IsScalar(code: nat) {
    code <= 0x10FFFF && !(0xD800 <= code <= 0xDFFF)
  }

  /** UTF-8 as section 3 of RFC 3629 defines it. */
  function EncodeRune(code: nat): (s: Bytes)
    requires IsScalar(code)
    ensures 1 <= |s| <= 4
  {
    if code < 0x80 then [code]
    else if code < 0x800 then [0xC0 + code / 0x40, 0x80 + code % 0x40]
    else if code < 0x10000 then [0xE0 + code / 0x1000, 0x80 + code / 0x40 % 0x40, 0x80 + code % 0x40]
    else [0xF0 + code / 0x40000, 0x80 + code / 0x1000 % 0x40, 0x80 + code / 0x40 % 0x40, 0x80 + code % 0x40]
  }

  lemma DecodeShort(code: nat, s: Bytes)
    requires IsScalar(code) && code < 0x800 && EncodeRune(code) <= s
    ensures DecodeRune(s) == Rune(code, |EncodeRune(code)|, true)
  {}

  lemma DecodeThree(code: nat, s: Bytes)
    requires IsScalar(code) && 0x800 <= code < 0x10000 && EncodeRune(code) <= s
    ensures DecodeRune(s) == Rune(code, 3, true)
  {
    var a, b, c := code / 0x1000, code / 0x40 % 0x40, code % 0x40;
    assert code == a * 0x1000 + b * 0x40 + c;
    assert s[0] == 0xE0 + a && s[1] == 0x80 + b && s[2] == 0x80 + c;
    assert SecondByte(s[0], s[1]) && Continues(s[2]);
  }

  lemma FourPrefix(s: Bytes, b0: byte, b1: byte, b2: byte, b3: byte)
    requires [b0, b1, b2, b3] <= s
    ensures |s| >= 4 && s[0] == b0 && s[1] == b1 && s[2] == b2 && s[3] == b3
  {
    assert s[..4] == [b0, b1, b2, b3];
  }

  lemma DecodeFourDigits(s: Bytes, a: nat, b: nat, c: nat, d: nat)
    requires a <= 4 && b < 0x40 && c < 0x40 && d < 0x40 && (a == 0 ==> b >= 0x10) && (a == 4 ==> b <= 0x0F)
    requires [0xF0 + a, 0x80 + b, 0x80 + c, 0x80 + d] <= s
    ensures DecodeRune(s) == Rune(a * 0x40000 + b * 0x1000 + c * 0x40 + d, 4, true)
  {
    FourPrefix(s, 0xF0 + a, 0x80 + b, 0x80 + c, 0x80 + d);
  }

  lemma FourDigits(code: nat)
    requires 0x10000 <= code <= 0x10FFFF
    ensures var a, b, c, d := code / 0x40000, code / 0x1000 % 0x40, code / 0x40 % 0x40, code % 0x40;
      && code == a * 0x40000 + b * 0x1000 + c * 0x40 + d
      && a <= 4 && (a == 0 ==> b >= 0x10) && (a == 4 ==> b <= 0x0F)
  {
    var high, middle := code / 0x1000, code / 0x40;
    assert middle == high * 0x40 + middle % 0x40 && code == middle * 0x40 + code % 0x40;
    assert code / 0x40000 == high / 0x40 && high == high / 0x40 * 0x40 + high % 0x40;
  }

  lemma DecodeFour(code: nat, s: Bytes)
    requires IsScalar(code) && 0x10000 <= code && EncodeRune(code) <= s
    ensures DecodeRune(s) == Rune(code, 4, true)
  {
    hide DecodeRune;
    FourDigits(code);
    DecodeFourDigits(s, code / 0x40000, code / 0x1000 % 0x40, code / 0x40 % 0x40, code % 0x40);
  }

  /** Every scalar value is read back, whatever follows it. */
  lemma DecodeEncode(code: nat, rest: Bytes)
    requires IsScalar(code)
    ensures DecodeRune(EncodeRune(code) + rest) == Rune(code, |EncodeRune(code)|, true)
  {
    hide DecodeRune;
    var s := EncodeRune(code) + rest;
    assert EncodeRune(code) <= s;
    if code < 0x800 {
      DecodeShort(code, s);
    } else if code < 0x10000 {
      DecodeThree(code, s);
    } else {
      DecodeFour(code, s);
    }
  }

  lemma ValidThree(s: Bytes)
    requires s != [] && DecodeRune(s).valid && DecodeRune(s).width == 3
    ensures IsScalar(DecodeRune(s).code) && EncodeRune(DecodeRune(s).code) == s[..3]
  {
    var a, b, c := High(s[0], 0xE0), Low(s[1]), Low(s[2]);
    ThreeBytes(a, b, c);
    hide DecodeRune, SecondByte;
    assert s[..3] == [s[0], s[1], s[2]];
  }

  lemma ValidFour(s: Bytes)
    requires s != [] && DecodeRune(s).valid && DecodeRune(s).width == 4
    ensures IsScalar(DecodeRune(s).code) && EncodeRune(DecodeRune(s).code) == s[..4]
  {
    var a, b, c, d := High(s[0], 0xF0), Low(s[1]), Low(s[2]), Low(s[3]);
    FourBytes(a, b, c, d);
    assert DecodeRune(s).code == a * 0x40000 + b * 0x1000 + c * 0x40 + d;
    assert s[..4] == [s[0], s[1], s[2], s[3]];
  }

  /** What is read as well formed is the encoding of the code point read. */
  lemma ValidIsEncoding(s: Bytes)
    requires s != [] && DecodeRune(s).valid
    ensures var r := DecodeRune(s); IsScalar(r.code) && EncodeRune(r.code) == s[..r.width]
  {
    if DecodeRune(s).width == 3 {
      ValidThree(s);
    } else if DecodeRune(s).width == 4 {
      ValidFour(s);
    } else {
      ValidShort(s);
    }
  }

  lemma ValidShort(s: Bytes)
    requires s != [] && DecodeRune(s).valid && DecodeRune(s).width <= 2
    ensures IsScalar(DecodeRune(s).code) && EncodeRune(DecodeRune(s).code) == s[..DecodeRune(s).width]
  {}

  lemma ThreeBytes(a: nat, b: nat, c: nat)
    requires a < 16 && b < 0x40 && c < 0x40
    ensures var n := a * 0x1000 + b * 0x40 + c; n / 0x1000 == a && n / 0x40 % 0x40 == b && n % 0x40 == c
  {
    var n := a * 0x1000 + b * 0x40 + c;
    assert n / 0x40 == a * 0x40 + b;
  }

  lemma FourBytes(a: nat, b: nat, c: nat, d: nat)
    requires a < 8 && b < 0x40 && c < 0x40 && d < 0x40
    ensures var n := a * 0x40000 + b * 0x1000 + c * 0x40 + d;
      n / 0x40000 == a && n / 0x1000 % 0x40 == b && n / 0x40 % 0x40 == c && n % 0x40 == d
  {
    var n := a * 0x40000 + b * 0x1000 + c * 0x40 + d;
    assert n / 0x40 == a * 0x1000 + b * 0x40 + c;
    assert n / 0x1000 == a * 0x40 + b;
  }

  /** A read is well formed exactly when an encoding stands at the front, and
      otherwise takes one byte and gives U+FFFD. */
  lemma WellFormedExactly(s: Bytes)
    requires s != []
    ensures DecodeRune(s).valid <==> exists code :: IsScalar(code) && EncodeRune(code) <= s
    ensures !DecodeRune(s).valid ==> DecodeRune(s) == Rune(0xFFFD, 1, false)
  {
    if DecodeRune(s).valid {
      ValidIsEncoding(s);
      assert EncodeRune(DecodeRune(s).code) <= s;
    }
    if code :| IsScalar(code) && EncodeRune(code) <= s {
      var rest := s[|EncodeRune(code)|..];
      assert s == EncodeRune(code) + rest;
      DecodeEncode(code, rest);
    }
    hide EncodeRune;
  }

  /** The examples of section 7 of RFC 3629 and one of each width. */
  lemma EncodingExamples()
    ensures EncodeRune(0x41) == [0x41] && EncodeRune(0x0391) == [0xCE, 0x91]
    ensures EncodeRune(0x2262) == [0xE2, 0x89, 0xA2] && EncodeRune(0x233B4) == [0xF0, 0xA3, 0x8E, 0xB4]
  {}
}
