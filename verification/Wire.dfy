/** The protobuf record reader and writers behind the Lark websocket frame. */
module Wire {
  import opened Prelude
  import Varint

  datatype Error =
    | InvalidTag | InvalidVarint | InvalidLength | TruncatedField | UnsupportedWireType
    | FrameExceedsLimit | HeadersExceedLimit | RepeatedHeader | UnsupportedEncoding

  /** What the reader hands to its callback. Fixed-width fields carry neither
      a number nor bytes. */
  datatype Record = Record(field: u64, number: u64, bytes: Bytes)

  function WireVar(field: nat, value: nat): (out: Bytes)
    ensures |out| >= 2
  {
    Varint.Encode(field * 8) + Varint.Encode(value)
  }

  function WireBytes(field: nat, value: Bytes): (out: Bytes)
    ensures |out| >= 2 + |value|
  {
    Varint.Encode(field * 8 + 2) + Varint.Encode(|value|) + value
  }

  datatype Read = Read(record: Record, width: nat)

  /** One turn of the reader's loop: the record at the front of raw and the
      number of bytes it takes. */
  function ReadRecord(raw: Bytes): (r: Result<Read, Error>)
    ensures r.Success? ==> 0 < r.value.width <= |raw|
  {
    var Scan(tag, n) := Varint.Decode(raw);
    if n <= 0 || tag / 8 == 0 then Failure(InvalidTag)
    else
      Varint.DecodedIsU64(raw);
      var rest := raw[n..];
      match tag % 8
      case 0 =>
        var Scan(v, m) := Varint.Decode(rest);
        if m <= 0 then Failure(InvalidVarint)
        else
          Varint.DecodedIsU64(rest);
          Success(Read(Record(tag / 8, v, []), n + m))
      case 2 =>
        var Scan(size, m) := Varint.Decode(rest);
        if m <= 0 || size > |rest| - m then Failure(InvalidLength)
        else Success(Read(Record(tag / 8, 0, rest[m..m + size]), n + m + size))
      case 1 => if |rest| < 8 then Failure(TruncatedField) else Success(Read(Record(tag / 8, 0, []), n + 8))
      case 5 => if |rest| < 4 then Failure(TruncatedField) else Success(Read(Record(tag / 8, 0, []), n + 4))
      case _ => Failure(UnsupportedWireType)
  }

  type Callback<!S> = (S, Record) -> (S, Option<Error>)

  /** The whole reader: the callback's state after the last record delivered,
      and the first error of the reader or of the callback. */
  function WireRead<S>(raw: Bytes, s: S, call: Callback<S>): (S, Option<Error>) {
    if raw == [] then (s, None)
    else
      match ReadRecord(raw)
      case Failure(e) => (s, Some(e))
      case Success(Read(record, width)) =>
        var (s', err) := call(s, record);
        if err.Some? then (s', err) else WireRead(raw[width..], s', call)
  }

  /** The reader as the program runs it: raw shrinks from the front, the
      callback's captured variables are s. */
  method ReadLoop<S>(raw: Bytes, init: S, call: Callback<S>) returns (s: S, err: Option<Error>)
    ensures (s, err) == WireRead(raw, init, call)
  {
    var rest := raw;
    s, err := init, None;
    while rest != []
      invariant err.None?
      invariant WireRead(raw, init, call) == WireRead(rest, s, call)
      decreases |rest|
    {
      var next := ReadRecord(rest);
      if next.Failure? {
        return s, Some(next.error);
      }
      var (s', e) := call(s, next.value.record);
      s := s';
      if e.Some? {
        return s, e;
      }
      rest := rest[next.value.width..];
    }
  }

  // ----- Reading back what the writers wrote -----

  lemma TagSplits(field: nat, kind: nat)
    requires kind < 8
    ensures (field * 8 + kind) / 8 == field && (field * 8 + kind) % 8 == kind
  {}

  /** Field numbers whose tag is a 64-bit value. */
  predicate ValidField(field: int) {
    0 < field < 0x2000_0000_0000_0000
  }

  lemma ReadWireVar(field: nat, value: u64, rest: Bytes)
    requires ValidField(field)
    ensures ReadRecord(WireVar(field, value) + rest) == Success(Read(Record(field, value, []), |WireVar(field, value)|))
  {
    hide Varint.DecodeAt, Varint.Encode;
    var raw := WireVar(field, value) + rest;
    var tag, body := Varint.Encode(field * 8), Varint.Encode(value);
    assert raw == tag + (body + rest);
    Varint.DecodeEncode(field * 8, body + rest);
    assert raw[|tag|..] == body + rest;
    Varint.DecodeEncode(value, rest);
    TagSplits(field, 0);
  }

  lemma ReadWireBytes(field: nat, value: Bytes, rest: Bytes)
    requires ValidField(field) && |value| < 0x1_0000_0000_0000_0000
    ensures ReadRecord(WireBytes(field, value) + rest) == Success(Read(Record(field, 0, value), |WireBytes(field, value)|))
  {
    hide Varint.DecodeAt, Varint.Encode;
    var raw := WireBytes(field, value) + rest;
    var tag, size := Varint.Encode(field * 8 + 2), Varint.Encode(|value|);
    assert raw == tag + (size + (value + rest));
    Varint.DecodeEncode(field * 8 + 2, size + (value + rest));
    var after := raw[|tag|..];
    assert after == size + (value + rest);
    Varint.DecodeEncode(|value|, value + rest);
    assert after[|size|..|size| + |value|] == value;
    TagSplits(field, 2);
  }

  /** What a readable tag and the bytes after it are refused for: a field number
      of zero, a value that is no varint, a length that is none or exceeds what is
      left, a fixed-width value cut short, or a wire type that is not supported. */
  lemma MalformedExactly(head: Bytes, rest: Bytes)
    requires head != [] && Varint.Decode(head).width == |head|
    ensures var r, tag, value := ReadRecord(head + rest), Varint.Decode(head).value, Varint.Decode(rest);
      && (r == Failure(InvalidTag) <==> tag < 8)
      && (r == Failure(InvalidVarint) <==> tag >= 8 && tag % 8 == 0 && value.width <= 0)
      && (r == Failure(InvalidLength) <==> tag >= 8 && tag % 8 == 2 && (value.width <= 0 || value.width + value.value > |rest|))
      && (r == Failure(TruncatedField) <==> tag >= 8 && ((tag % 8 == 1 && |rest| < 8) || (tag % 8 == 5 && |rest| < 4)))
      && (r == Failure(UnsupportedWireType) <==> tag >= 8 && tag % 8 in {3, 4, 6, 7})
  {
    hide Varint.DecodeAt;
    Varint.DecodeIgnoresSuffix(head, rest, 0);
    assert (head + rest)[|head|..] == rest;
  }

  /** A tag that cannot be read is refused as a tag, whatever follows it. */
  lemma UnreadableTag(raw: Bytes)
    ensures ReadRecord(raw) == Failure(InvalidTag) <==>
      Varint.Decode(raw).width <= 0 || Varint.Decode(raw).value < 8
  {
    hide Varint.DecodeAt;
  }

  /** Fixed-width fields, which this program never writes, are skipped whole: eight
      bytes for wire type 1, four for wire type 5. */
  lemma ReadFixed(field: nat, kind: nat, value: Bytes, rest: Bytes)
    requires ValidField(field)
    requires (kind == 1 && |value| == 8) || (kind == 5 && |value| == 4)
    ensures var tag := Varint.Encode(field * 8 + kind);
      ReadRecord(tag + value + rest) == Success(Read(Record(field, 0, []), |tag| + |value|))
  {
    hide Varint.DecodeAt, Varint.Encode;
    var tag := Varint.Encode(field * 8 + kind);
    var raw := tag + value + rest;
    assert raw == tag + (value + rest);
    Varint.DecodeEncode(field * 8 + kind, value + rest);
    assert raw[|tag|..] == value + rest;
    TagSplits(field, kind);
  }

  /** Reading a written number hands it to the callback and goes on. */
  lemma StepVar<S>(field: nat, value: u64, rest: Bytes, s: S, call: Callback<S>)
    requires ValidField(field)
    requires call(s, Record(field, value, [])).1.None?
    ensures WireRead(WireVar(field, value) + rest, s, call) == WireRead(rest, call(s, Record(field, value, [])).0, call)
  {
    ReadWireVar(field, value, rest);
    assert (WireVar(field, value) + rest)[|WireVar(field, value)|..] == rest;
  }

  lemma StepBytes<S>(field: nat, value: Bytes, rest: Bytes, s: S, call: Callback<S>)
    requires ValidField(field) && |value| < 0x1_0000_0000_0000_0000
    ensures var (s', e) := call(s, Record(field, 0, value));
      WireRead(WireBytes(field, value) + rest, s, call) == if e.Some? then (s', e) else WireRead(rest, s', call)
  {
    ReadWireBytes(field, value, rest);
    assert (WireBytes(field, value) + rest)[|WireBytes(field, value)|..] == rest;
  }

  // ----- Reading is a homomorphism from concatenation -----

  lemma ReadIgnoresSuffix(raw: Bytes, more: Bytes)
    requires ReadRecord(raw).Success?
    ensures ReadRecord(raw + more) == ReadRecord(raw)
  {
    hide Varint.DecodeAt;
    var Scan(tag, n) := Varint.Decode(raw);
    Varint.DecodeIgnoresSuffix(raw, more, 0);
    var rest := raw[n..];
    assert (raw + more)[n..] == rest + more;
    if tag % 8 == 0 || tag % 8 == 2 {
      Varint.DecodeIgnoresSuffix(rest, more, 0);
      var Scan(size, m) := Varint.Decode(rest);
      if tag % 8 == 2 {
        assert (rest + more)[m..m + size] == rest[m..m + size];
      }
    }
  }

  /** If a is read without error, reading a then b continues with b from the
      state a left behind. */
  lemma {:induction false} ReadConcat<S>(a: Bytes, b: Bytes, s: S, call: Callback<S>)
    requires WireRead(a, s, call).1.None?
    ensures WireRead(a + b, s, call) == WireRead(b, WireRead(a, s, call).0, call)
    decreases |a|
  {
    if a == [] {
      assert a + b == b;
    } else {
      ReadIgnoresSuffix(a, b);
      var Read(record, width) := ReadRecord(a).value;
      assert (a + b)[width..] == a[width..] + b;
      ReadConcat(a[width..], b, call(s, record).0, call);
    }
  }

  // ----- Reading is a fold over the records -----

  function Collect(records: seq<Record>, record: Record): (seq<Record>, Option<Error>) {
    (records + [record], None)
  }

  /** The records of raw up to its end or its first malformed field. */
  function Records(raw: Bytes): (seq<Record>, Option<Error>) {
    WireRead(raw, [], Collect)
  }

  function Fold<S>(records: seq<Record>, s: S, call: Callback<S>): (S, Option<Error>) {
    if records == [] then (s, None)
    else
      var (s', err) := call(s, records[0]);
      if err.Some? then (s', err) else Fold(records[1..], s', call)
  }

  lemma {:induction false} CollectAppends(raw: Bytes, prefix: seq<Record>)
    ensures WireRead(raw, prefix, Collect) == (prefix + Records(raw).0, Records(raw).1)
    decreases |raw|
  {
    assert prefix + [] == prefix;
    if raw != [] && ReadRecord(raw).Success? {
      var Read(record, width) := ReadRecord(raw).value;
      CollectAppends(raw[width..], prefix + [record]);
      CollectAppends(raw[width..], [record]);
      assert [] + [record] == [record];
      assert (prefix + [record]) + Records(raw[width..]).0 == prefix + ([record] + Records(raw[width..]).0);
    }
  }

  lemma RecordsUnfold(raw: Bytes)
    requires raw != [] && ReadRecord(raw).Success?
    ensures var Read(record, width) := ReadRecord(raw).value;
      Records(raw) == ([record] + Records(raw[width..]).0, Records(raw[width..]).1)
  {
    var Read(record, width) := ReadRecord(raw).value;
    assert [] + [record] == [record];
    CollectAppends(raw[width..], [record]);
  }

  /** The reader calls back once per record, in order, and stops at the first
      error of a callback or else at the first malformed field. */
  lemma {:induction false} ReadIsFold<S>(raw: Bytes, s: S, call: Callback<S>)
    ensures var (t, err) := Fold(Records(raw).0, s, call);
      WireRead(raw, s, call) == (t, if err.Some? then err else Records(raw).1)
    decreases |raw|
  {
    if raw != [] && ReadRecord(raw).Success? {
      var Read(record, width) := ReadRecord(raw).value;
      RecordsUnfold(raw);
      assert Records(raw).0[1..] == Records(raw[width..]).0;
      if call(s, record).1.None? {
        ReadIsFold(raw[width..], call(s, record).0, call);
      }
    }
  }

  lemma RecordsConcat(a: Bytes, b: Bytes)
    requires Records(a).1.None?
    ensures Records(a + b) == (Records(a).0 + Records(b).0, Records(b).1)
  {
    ReadConcat(a, b, [], Collect);
    CollectAppends(b, Records(a).0);
  }

  lemma {:induction false} FoldConcat<S>(a: seq<Record>, b: seq<Record>, s: S, call: Callback<S>)
    ensures var (t, err) := Fold(a, s, call);
      Fold(a + b, s, call) == if err.Some? then (t, err) else Fold(b, t, call)
  {
    if a == [] {
      assert a + b == b;
    } else {
      assert (a + b)[1..] == a[1..] + b;
      FoldConcat(a[1..], b, call(s, a[0]).0, call);
    }
  }
}
