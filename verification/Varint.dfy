/** Base 128 varints exactly as Go's encoding/binary writes and reads them. */
module Varint {
  import opened Prelude

  /** The bytes appended by binary.AppendUvarint. */
  function Encode(x: nat): (out: Bytes)
    ensures |out| >= 1
  {
    if x < 128 then [x] else [x % 128 + 128] + Encode(x / 128)
  }

  /** binary.Uvarint on what is left of a buffer after i bytes: the value and the
      total width, or a width that is zero (too short) or negative (overflow). */
  function DecodeAt(buf: Bytes, i: nat): (r: Scan)
    ensures r.width > 0 ==> i < r.width <= i + |buf|
  {
    if buf == [] then Scan(0, 0)
    else if i == 10 then Scan(0, -(i + 1))
    else if buf[0] < 128 then
      if i == 9 && buf[0] > 1 then Scan(0, -(i + 1)) else Scan(buf[0], i + 1)
    else
      var Scan(v, n) := DecodeAt(buf[1..], i + 1);
      if n <= 0 then Scan(0, n) else Scan(buf[0] - 128 + 128 * v, n)
  }

  function Decode(buf: Bytes): Scan {
    DecodeAt(buf, 0)
  }

  /** 2 to the power 64 - 7i: the values that still fit after i bytes. */
  function Cap(i: nat): (c: nat)
    ensures c > 0
    decreases 10 - i
  {
    if i >= 9 then 2 else 128 * Cap(i + 1)
  }

  lemma CapZero()
    ensures Cap(0) == 0x1_0000_0000_0000_0000
  {
    assert Cap(8) == 256;
    assert Cap(6) == 256 * 128 * 128;
    assert Cap(4) == 256 * 128 * 128 * 128 * 128;
    assert Cap(2) == 256 * 128 * 128 * 128 * 128 * 128 * 128;
  }

  /** No accepted varint exceeds 64 bits or ten bytes. */
  lemma {:induction false} DecodedFits(buf: Bytes, i: nat)
    requires i <= 9
    ensures DecodeAt(buf, i).width > 0 ==> DecodeAt(buf, i).value < Cap(i) && DecodeAt(buf, i).width <= 10
  {
    if buf != [] && buf[0] >= 128 {
      if i < 9 {
        DecodedFits(buf[1..], i + 1);
      } else {
        assert DecodeAt(buf[1..], 10).width <= 0;
      }
    }
    if buf != [] && buf[0] < 128 && i < 9 {
      assert Cap(i) >= 128;
    }
  }

  lemma DecodedIsU64(buf: Bytes)
    ensures Decode(buf).width > 0 ==> Decode(buf).value < 0x1_0000_0000_0000_0000 && Decode(buf).width <= 10
  {
    DecodedFits(buf, 0);
    CapZero();
  }

  lemma {:induction false} DecodeEncodeAt(x: nat, rest: Bytes, i: nat)
    requires i <= 9 && x < Cap(i)
    ensures DecodeAt(Encode(x) + rest, i) == Scan(x, i + |Encode(x)|)
  {
    var buf := Encode(x) + rest;
    if x >= 128 {
      assert i < 9;
      assert buf[1..] == Encode(x / 128) + rest;
      DecodeEncodeAt(x / 128, rest, i + 1);
    }
  }

  /** Whatever follows it, an encoded value is read back with its own width. */
  lemma DecodeEncode(x: u64, rest: Bytes)
    ensures Decode(Encode(x) + rest) == Scan(x, |Encode(x)|)
  {
    CapZero();
    DecodeEncodeAt(x, rest, 0);
  }

  /** A successful read looks only at the bytes it consumes. */
  lemma {:induction false} DecodeIgnoresSuffix(buf: Bytes, more: Bytes, i: nat)
    requires DecodeAt(buf, i).width > 0
    ensures DecodeAt(buf + more, i) == DecodeAt(buf, i)
  {
    assert (buf + more)[0] == buf[0];
    if buf[0] >= 128 {
      assert (buf + more)[1..] == buf[1..] + more;
      DecodeIgnoresSuffix(buf[1..], more, i + 1);
    }
  }

  /** Overlong forms are accepted: a varint is what the writer produces for its
      value exactly when it is one byte long or its last byte is not zero. */
  lemma {:induction false} CanonicalExactly(buf: Bytes, i: nat)
    requires DecodeAt(buf, i).width > 0
    ensures var Scan(v, n) := DecodeAt(buf, i);
      Encode(v) == buf[..n - i] <==> n - i == 1 || buf[n - i - 1] != 0
    ensures var Scan(v, n) := DecodeAt(buf, i);
      n - i > 1 && buf[n - i - 1] != 0 ==> v >= 128
  {
    var Scan(v, n) := DecodeAt(buf, i);
    if buf[0] < 128 {
      assert buf[..1] == [buf[0]];
    } else {
      var Scan(w, m) := DecodeAt(buf[1..], i + 1);
      CanonicalExactly(buf[1..], i + 1);
      var k := m - i - 1;
      assert v / 128 == w && v % 128 == buf[0] - 128;
      assert buf[..n - i] == [buf[0]] + buf[1..][..k];
      assert buf[n - i - 1] == buf[1..][k - 1];
      if Encode(v) == buf[..n - i] && v >= 128 {
        assert Encode(v)[1..] == Encode(w);
        assert buf[..n - i][1..] == buf[1..][..k];
      }
      if k == 1 && buf[1] != 0 {
        assert w == buf[1];
      }
    }
  }

  /** The number that groups of seven bits stand for, least significant first. */
  function Base128(groups: Bytes): nat {
    if groups == [] then 0 else groups[0] % 128 + 128 * Base128(groups[1..])
  }

  /** The writer's form: groups of seven bits, least significant first, with the
      top bit set on every byte but the last, and no group more than needed. */
  lemma {:induction false} EncodeIsBase128(x: nat)
    ensures var out := Encode(x);
      && Base128(out) == x
      && (forall k :: 0 <= k < |out| - 1 ==> out[k] >= 128)
      && out[|out| - 1] < 128 && (|out| > 1 ==> out[|out| - 1] != 0)
  {
    var out := Encode(x);
    if x < 128 {
      assert out[1..] == [];
    } else {
      var rest := Encode(x / 128);
      assert out == [x % 128 + 128] + rest && out[1..] == rest;
      EncodeIsBase128(x / 128);
      if |rest| == 1 {
        assert rest[0] < 128 && Base128(rest) == rest[0] % 128 + 128 * Base128(rest[1..]);
        assert rest[1..] == [] && rest[0] == x / 128;
      }
    }
  }

  /** The example of the encoding guide: 150 is written as 96 01. */
  lemma Example()
    ensures Encode(150) == [0x96, 0x01] && Decode([0x96, 0x01]) == Scan(150, 2)
  {
    DecodeEncode(150, []);
    assert [0x96, 0x01] + [] == [0x96, 0x01];
  }
}
