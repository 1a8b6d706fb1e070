/** strconv.Atoi on header values, and the decimal printer it undoes. */
module Decimal {
  import opened Prelude

  const MIN_INT := -0x8000_0000_0000_0000
  const MAX_INT := 0x7fff_ffff_ffff_ffff

  predicate IsDigit(c: byte) {
    48 <= c <= 57
  }

  /** The value of a run of decimal digits. */
  function Digits(s: Bytes): Option<nat> {
    if s == [] then Some(0)
    else
      var last := s[|s| - 1];
      match Digits(s[..|s| - 1])
      case None => None
      case Some(n) => if IsDigit(last) then Some(10 * n + (last - 48)) else None
  }

  /** An optional sign, then digits, within the range of a 64-bit int. */
  function Atoi(s: Bytes): Option<int> {
    var signed := s != [] && (s[0] == 43 || s[0] == 45);
    var digits := if signed then s[1..] else s;
    if digits == [] then None
    else
      match Digits(digits)
      case None => None
      case Some(n) =>
        var magnitude: int := n;
        var value := if signed && s[0] == 45 then -magnitude else magnitude;
        if MIN_INT <= value <= MAX_INT then Some(value) else None
  }

  function Itoa(n: nat): (s: Bytes)
    ensures s != [] && IsDigit(s[0])
  {
    if n < 10 then [48 + n] else Itoa(n / 10) + [48 + n % 10]
  }

  lemma {:induction false} DigitsItoa(n: nat)
    ensures Digits(Itoa(n)) == Some(n)
  {
    var s := Itoa(n);
    if n < 10 {
      assert s[..0] == [];
    } else {
      assert s[..|s| - 1] == Itoa(n / 10);
      DigitsItoa(n / 10);
    }
  }

  /** Atoi undoes the printer, with or without a sign, exactly within the range
      of a 64-bit int. */
  lemma AtoiItoa(n: int)
    requires n >= 0
    ensures Atoi(Itoa(n)) == if n <= MAX_INT then Some(n) else None
    ensures Atoi([43] + Itoa(n)) == Atoi(Itoa(n))
    ensures Atoi([45] + Itoa(n)) == if n <= -MIN_INT then Some(-n) else None
  {
    DigitsItoa(n);
    var s := Itoa(n);
    assert s != [] && s[0] != 43 && s[0] != 45;
    hide Itoa, Digits;
    AtoiUnsigned(s);
    AtoiSigned(43, s);
    AtoiSigned(45, s);
  }

  lemma AtoiUnsigned(s: Bytes)
    requires s != [] && s[0] != 43 && s[0] != 45 && Digits(s).Some?
    ensures Atoi(s) == if Digits(s).value <= MAX_INT then Some(Digits(s).value) else None
  {
    hide Digits;
  }

  lemma AtoiSigned(sign: byte, s: Bytes)
    requires (sign == 43 || sign == 45) && s != [] && Digits(s).Some?
    ensures var magnitude: int := Digits(s).value;
      var value := if sign == 45 then -magnitude else magnitude;
      Atoi([sign] + s) == if MIN_INT <= value <= MAX_INT then Some(value) else None
  {
    hide Digits;
    assert ([sign] + s)[1..] == s;
  }

  /** strconv.ParseUint in base ten: digits alone, within 64 bits. */
  function ParseUint(s: Bytes): Option<u64> {
    if s == [] then None
    else
      match Digits(s)
      case None => None
      case Some(n) => if n < 0x1_0000_0000_0000_0000 then Some(n) else None
  }

  /** It undoes the printer on every 64-bit number, and takes no sign. */
  lemma ParseUintItoa(n: nat)
    ensures ParseUint(Itoa(n)) == if n < 0x1_0000_0000_0000_0000 then Some(n) else None
    ensures ParseUint([43] + Itoa(n)) == None && ParseUint([45] + Itoa(n)) == None
  {
    DigitsItoa(n);
    hide Itoa, Digits;
    NotDigits(43, Itoa(n));
    NotDigits(45, Itoa(n));
  }

  lemma EmptyIsNoCursor()
    ensures ParseUint([]) == None
  {}

  lemma NotDigits(sign: byte, s: Bytes)
    requires !IsDigit(sign)
    ensures Digits([sign] + s) == None
  {
    assert sign in [sign] + s;
    DigitsExactly([sign] + s);
  }

  /** Nothing but digits after an optional sign is a number. */
  lemma {:induction false} DigitsExactly(s: Bytes)
    ensures Digits(s).Some? <==> forall c <- s :: IsDigit(c)
  {
    if s != [] {
      var n := |s| - 1;
      DigitsExactly(s[..n]);
      assert s == s[..n] + [s[n]];
    }
  }

  /** Decimal numbers are read and written with the most significant digit first. */
  lemma {:induction false} DigitsConcat(a: Bytes, b: Bytes)
    requires Digits(a).Some? && Digits(b).Some?
    ensures Digits(a + b) == Some(Digits(a).value * Power10(|b|) + Digits(b).value)
  {
    if b == [] {
      assert a + b == a;
    } else {
      var n := |b| - 1;
      assert (a + b)[..|a + b| - 1] == a + b[..n];
      assert Digits(b[..n]).Some? && IsDigit(b[n]);
      DigitsConcat(a, b[..n]);
      Shift(Digits(a).value, Power10(n), Digits(b[..n]).value, b[n] - 48);
    }
  }

  lemma Shift(x: nat, p: nat, y: nat, d: int)
    ensures 10 * (x * p + y) + d == x * (10 * p) + (10 * y + d)
  {}

  function Power10(n: nat): nat {
    if n == 0 then 1 else 10 * Power10(n - 1)
  }

  lemma Examples()
    ensures Itoa(0) == Ascii("0") && Itoa(2) == Ascii("2") && Itoa(64) == Ascii("64")
    ensures Atoi(Ascii("64")) == Some(64) && Atoi(Ascii("-1")) == Some(-1) && Atoi(Ascii("")) == None
  {
    assert Itoa(6) == [54];
    assert Itoa(64) == [54, 52] == Ascii("64");
    AtoiItoa(64);
    AtoiItoa(1);
    assert Ascii("-1") == [45] + Itoa(1);
  }
}
