/** The Lark websocket frame: its writer, its bounded decoder, and why each undoes the other. */
module LarkFrame {
  import opened Prelude
  import opened Wire
  import opened KeyOrder

  const FRAME_LIMIT := 0x10_0000
  const HEADER_LIMIT := 4096
  const MAX_HEADERS := 64

  const JSON: Bytes := [106, 115, 111, 110]

  datatype Frame = Frame(
    seqNo: u64, log: u64, service: u64, methodNo: u64,
    headers: map<Bytes, Bytes>,
    encoding: Bytes, typeName: Bytes, payload: Bytes, logNew: Bytes)

  const EMPTY_FRAME := Frame(0, 0, 0, 0, map[], [], [], [], [])

  // ----- Writing -----

  function HeaderBytes(key: Bytes, value: Bytes): Bytes {
    WireBytes(1, key) + WireBytes(2, value)
  }

  function HeaderFields(keys: seq<Bytes>, headers: map<Bytes, Bytes>): Bytes
    requires forall k <- keys :: k in headers
  {
    if keys == [] then []
    else WireBytes(5, HeaderBytes(keys[0], headers[keys[0]])) + HeaderFields(keys[1..], headers)
  }

  function NumberFields(f: Frame): Bytes {
    WireVar(1, f.seqNo) + (WireVar(2, f.log) + (WireVar(3, f.service) + WireVar(4, f.methodNo)))
  }

  function TextFields(f: Frame): Bytes {
    WireBytes(6, f.encoding) + (WireBytes(7, f.typeName) + (WireBytes(8, f.payload) + WireBytes(9, f.logNew)))
  }

  /** The encoding of a frame, with its headers in key order. */
  ghost function Encoded(f: Frame): Bytes {
    NumberFields(f) + (HeaderFields(SortedKeys(f.headers.Keys), f.headers) + TextFields(f))
  }

  /** Marshal's loop over the sorted keys. */
  method WriteHeaders(start: Bytes, keys: seq<Bytes>, headers: map<Bytes, Bytes>) returns (out: Bytes)
    requires forall k <- keys :: k in headers
    ensures out == start + HeaderFields(keys, headers)
  {
    hide WireBytes;
    out := start;
    var i := 0;
    while i < |keys|
      invariant 0 <= i <= |keys|
      invariant out + HeaderFields(keys[i..], headers) == start + HeaderFields(keys, headers)
    {
      var h := WireBytes(1, keys[i]);
      h := h + WireBytes(2, headers[keys[i]]);
      assert keys[i..][0] == keys[i] && keys[i..][1..] == keys[i + 1..];
      assert out + (WireBytes(5, h) + HeaderFields(keys[i + 1..], headers))
          == (out + WireBytes(5, h)) + HeaderFields(keys[i + 1..], headers);
      out := out + WireBytes(5, h);
      i := i + 1;
    }
  }

  method Marshal(f: Frame) returns (out: Bytes)
    ensures out == Encoded(f)
  {
    hide WireVar, WireBytes, SortedKeys, HeaderFields;
    out := WireVar(1, f.seqNo);
    out := out + WireVar(2, f.log);
    out := out + WireVar(3, f.service);
    out := out + WireVar(4, f.methodNo);
    assert out == NumberFields(f);
    var keys := CollectKeys(f.headers.Keys);
    SortedKeysFacts(f.headers.Keys);
    out := WriteHeaders(out, keys, f.headers);
    out := out + WireBytes(6, f.encoding);
    out := out + WireBytes(7, f.typeName);
    out := out + WireBytes(8, f.payload);
    out := out + WireBytes(9, f.logNew);
    assert out == NumberFields(f) + HeaderFields(keys, f.headers) + TextFields(f);
  }

  // ----- Reading -----

  /** A header record being read: key and value, each the last one seen. */
  function ApplyHeader(h: (Bytes, Bytes), r: Record): ((Bytes, Bytes), Option<Error>) {
    ((if r.field == 1 then r.bytes else h.0, if r.field == 2 then r.bytes else h.1), None)
  }

  function ApplyField(f: Frame, r: Record): (Frame, Option<Error>) {
    match r.field
    case 1 => (f.(seqNo := r.number), None)
    case 2 => (f.(log := r.number), None)
    case 3 => (f.(service := r.number), None)
    case 4 => (f.(methodNo := r.number), None)
    case 5 =>
      if |f.headers| >= MAX_HEADERS || |r.bytes| > HEADER_LIMIT then (f, Some(HeadersExceedLimit))
      else
        var (h, err) := WireRead(r.bytes, ([], []), ApplyHeader);
        if err.Some? then (f, err)
        else if h.0 in f.headers then (f, Some(RepeatedHeader))
        else (f.(headers := f.headers[h.0 := h.1]), None)
    case 6 => (f.(encoding := r.bytes), None)
    case 7 => (f.(typeName := r.bytes), None)
    case 8 => (f.(payload := r.bytes), None)
    case 9 => (f.(logNew := r.bytes), None)
    case _ => (f, None)
  }

  /** What decoding any bytes gives: the frame read so far and the error, if any. */
  function Decoded(raw: Bytes): (Frame, Option<Error>) {
    if |raw| > FRAME_LIMIT then (EMPTY_FRAME, Some(FrameExceedsLimit))
    else
      var (f, err) := WireRead(raw, EMPTY_FRAME, ApplyField);
      if f.encoding != [] && f.encoding != JSON then (f, Some(UnsupportedEncoding)) else (f, err)
  }

  method DecodeLarkFrame(raw: Bytes) returns (f: Frame, err: Option<Error>)
    ensures (f, err) == Decoded(raw)
  {
    f := EMPTY_FRAME;
    if |raw| > FRAME_LIMIT {
      return f, Some(FrameExceedsLimit);
    }
    f, err := ReadLoop(raw, f, ApplyField);
    if f.encoding != [] && f.encoding != JSON {
      return f, Some(UnsupportedEncoding);
    }
  }

  // ----- Round trip -----

  /** What a sender can check of a frame before sending it. */
  ghost predicate Fits(f: Frame) {
    && (f.encoding == [] || f.encoding == JSON)
    && |f.headers| <= MAX_HEADERS
    && (forall k <- f.headers :: |HeaderBytes(k, f.headers[k])| <= HEADER_LIMIT)
    && |Encoded(f)| <= FRAME_LIMIT
  }

  lemma ReadHeader(key: Bytes, value: Bytes)
    requires |HeaderBytes(key, value)| <= HEADER_LIMIT
    ensures WireRead(HeaderBytes(key, value), ([], []), ApplyHeader) == ((key, value), None)
  {
    StepBytes(1, key, WireBytes(2, value), ([], []), ApplyHeader);
    StepBytes(2, value, [], (key, []), ApplyHeader);
    assert WireBytes(2, value) + [] == WireBytes(2, value);
  }

  /** Reading one written header adds it, unless a limit is reached. */
  lemma ReadOneHeader(key: Bytes, value: Bytes, rest: Bytes, f: Frame)
    requires key !in f.headers && |HeaderBytes(key, value)| <= FRAME_LIMIT
    ensures WireRead(WireBytes(5, HeaderBytes(key, value)) + rest, f, ApplyField)
      == if |f.headers| >= MAX_HEADERS || |HeaderBytes(key, value)| > HEADER_LIMIT then (f, Some(HeadersExceedLimit))
         else WireRead(rest, f.(headers := f.headers[key := value]), ApplyField)
  {
    var h := HeaderBytes(key, value);
    StepBytes(5, h, rest, f, ApplyField);
    if |h| <= HEADER_LIMIT {
      ReadHeader(key, value);
    }
  }

  ghost predicate HeadersFit(keys: seq<Bytes>, headers: map<Bytes, Bytes>)
    requires forall k <- keys :: k in headers
  {
    forall k <- keys :: |HeaderBytes(k, headers[k])| <= HEADER_LIMIT
  }

  ghost function Restrict(headers: map<Bytes, Bytes>, keys: seq<Bytes>): map<Bytes, Bytes>
    requires forall k <- keys :: k in headers
  {
    map k | k in keys :: headers[k]
  }

  lemma RestrictCons(headers: map<Bytes, Bytes>, keys: seq<Bytes>, base: map<Bytes, Bytes>)
    requires keys != [] && (forall k <- keys :: k in headers)
    requires forall k <- keys :: k !in base
    ensures base[keys[0] := headers[keys[0]]] + Restrict(headers, keys[1..]) == base + Restrict(headers, keys)
  {
    assert forall k :: k in keys <==> k == keys[0] || k in keys[1..] by {
      assert keys == [keys[0]] + keys[1..];
    }
    var left, right := base[keys[0] := headers[keys[0]]] + Restrict(headers, keys[1..]), base + Restrict(headers, keys);
    assert left.Keys == right.Keys;
    assert forall k <- left :: left[k] == right[k];
  }

  lemma EmptyFits(headers: map<Bytes, Bytes>)
    ensures HeadersFit([], headers)
  {}

  lemma HeadersFitCons(headers: map<Bytes, Bytes>, keys: seq<Bytes>)
    requires keys != [] && (forall k <- keys :: k in headers)
    ensures HeadersFit(keys, headers) <==>
      |HeaderBytes(keys[0], headers[keys[0]])| <= HEADER_LIMIT && HeadersFit(keys[1..], headers)
  {
    hide HeaderBytes;
    assert forall k :: k in keys <==> k == keys[0] || k in keys[1..] by {
      assert keys == [keys[0]] + keys[1..];
    }
  }

  /** Reading written headers adds them all, or fails on the first that is too
      long or one too many; either way nothing but the headers changes. */
  lemma {:induction false} ReadHeaders(keys: seq<Bytes>, headers: map<Bytes, Bytes>, rest: Bytes, f: Frame)
    requires forall k <- keys :: k in headers && k !in f.headers
    requires NoDuplicates(keys) && |HeaderFields(keys, headers)| <= FRAME_LIMIT
    requires |f.headers| <= MAX_HEADERS
    ensures var got := WireRead(HeaderFields(keys, headers) + rest, f, ApplyField);
      if |f.headers| + |keys| <= MAX_HEADERS && HeadersFit(keys, headers) then
        got == WireRead(rest, f.(headers := f.headers + Restrict(headers, keys)), ApplyField)
      else got.1.Some? && got.0.encoding == f.encoding
  {
    hide WireBytes, HeaderBytes, WireRead, HeadersFit, ApplyField;
    if keys == [] {
      assert HeadersFit(keys, headers) by { EmptyFits(headers); }
      assert HeaderFields(keys, headers) + rest == rest;
      assert f.headers + Restrict(headers, keys) == f.headers;
    } else {
      var k := keys[0];
      var v, later := headers[k], HeaderFields(keys[1..], headers);
      assert HeaderFields(keys, headers) + rest == WireBytes(5, HeaderBytes(k, v)) + (later + rest);
      ReadOneHeader(k, v, later + rest, f);
      RestrictCons(headers, keys, f.headers);
      HeadersFitCons(headers, keys);
      if |f.headers| < MAX_HEADERS && |HeaderBytes(k, v)| <= HEADER_LIMIT {
        ReadHeaders(keys[1..], headers, rest, f.(headers := f.headers[k := v]));
      }
    }
  }

  lemma ReadNumbers(f: Frame, rest: Bytes)
    ensures WireRead(NumberFields(f) + rest, EMPTY_FRAME, ApplyField)
      == WireRead(rest, Frame(f.seqNo, f.log, f.service, f.methodNo, map[], [], [], [], []), ApplyField)
  {
    var n1, n2, n3, n4 := WireVar(1, f.seqNo), WireVar(2, f.log), WireVar(3, f.service), WireVar(4, f.methodNo);
    assert NumberFields(f) + rest == n1 + (n2 + (n3 + (n4 + rest)));
    StepVar(1, f.seqNo, n2 + (n3 + (n4 + rest)), EMPTY_FRAME, ApplyField);
    StepVar(2, f.log, n3 + (n4 + rest), EMPTY_FRAME.(seqNo := f.seqNo), ApplyField);
    StepVar(3, f.service, n4 + rest, EMPTY_FRAME.(seqNo := f.seqNo, log := f.log), ApplyField);
    StepVar(4, f.methodNo, rest, EMPTY_FRAME.(seqNo := f.seqNo, log := f.log, service := f.service), ApplyField);
  }

  lemma ReadTexts(f: Frame, g: Frame)
    requires |TextFields(f)| <= FRAME_LIMIT
    ensures WireRead(TextFields(f), g, ApplyField)
      == (g.(encoding := f.encoding, typeName := f.typeName, payload := f.payload, logNew := f.logNew), None)
  {
    hide WireBytes, WireRead;
    var b7, b8, b9 := WireBytes(7, f.typeName), WireBytes(8, f.payload), WireBytes(9, f.logNew);
    var g6 := g.(encoding := f.encoding);
    var g7 := g6.(typeName := f.typeName);
    var g8 := g7.(payload := f.payload);
    StepBytes(6, f.encoding, b7 + (b8 + b9), g, ApplyField);
    StepBytes(7, f.typeName, b8 + b9, g6, ApplyField);
    StepBytes(8, f.payload, b9, g7, ApplyField);
    StepBytes(9, f.logNew, [], g8, ApplyField);
    assert b9 + [] == b9;
    NothingToRead(g8.(logNew := f.logNew), ApplyField);
  }

  /** The reader's path through an encoded frame, section by section. */
  lemma ReadEncoded(f: Frame)
    requires |Encoded(f)| <= FRAME_LIMIT
    ensures var got := WireRead(Encoded(f), EMPTY_FRAME, ApplyField);
      if |f.headers| <= MAX_HEADERS && HeadersFit(SortedKeys(f.headers.Keys), f.headers) then got == (f, None)
      else got.1.Some? && got.0.encoding == []
  {
    hide WireRead, HeaderFields, TextFields, NumberFields, SortedKeys, HeaderBytes;
    var keys := SortedKeys(f.headers.Keys);
    SortedKeysFacts(f.headers.Keys);
    var headers, texts := HeaderFields(keys, f.headers), TextFields(f);
    var numbers := Frame(f.seqNo, f.log, f.service, f.methodNo, map[], [], [], [], []);
    ReadNumbers(f, headers + texts);
    ReadHeaders(keys, f.headers, texts, numbers);
    assert map[] + Restrict(f.headers, keys) == f.headers;
    ReadTexts(f, numbers.(headers := f.headers));
  }

  /** Decoding what Marshal wrote succeeds exactly for the frames that fit, and
      then gives back the frame. */
  lemma RoundTrip(f: Frame)
    ensures Decoded(Encoded(f)).1.None? <==> Fits(f)
    ensures Fits(f) ==> Decoded(Encoded(f)) == (f, None)
  {
    SortedKeysFacts(f.headers.Keys);
    if |Encoded(f)| <= FRAME_LIMIT {
      ReadEncoded(f);
    }
  }

  /** Two frames never share an encoding once one of them fits. */
  lemma MarshalInjective(f: Frame, g: Frame)
    requires Fits(f) && Encoded(f) == Encoded(g)
    ensures f == g
  {
    RoundTrip(f);
    RoundTrip(g);
  }

  // ----- What the decoder guarantees of any bytes -----

  lemma {:induction false} FoldBounds(records: seq<Record>, f: Frame)
    requires |f.headers| <= MAX_HEADERS
    ensures |Fold(records, f, ApplyField).0.headers| <= MAX_HEADERS
  {
    if records != [] && ApplyField(f, records[0]).1.None? {
      FoldBounds(records[1..], ApplyField(f, records[0]).0);
    }
  }

  /** A decoded frame can be sent again and read back exactly when it still
      respects the header and frame limits in the writer's own encoding. */
  lemma DecodedCanBeResentExactly(raw: Bytes)
    requires Decoded(raw).1.None?
    ensures var f := Decoded(raw).0;
      (Decoded(Encoded(f)) == (f, None)) <==>
        (&& (forall k <- f.headers :: |HeaderBytes(k, f.headers[k])| <= HEADER_LIMIT)
         && |Encoded(f)| <= FRAME_LIMIT)
  {
    var f := Decoded(raw).0;
    ReadIsFold(raw, EMPTY_FRAME, ApplyField);
    FoldBounds(Records(raw).0, EMPTY_FRAME);
    RoundTrip(f);
  }

  lemma WireBytesLength(field: nat, value: Bytes)
    requires field < 16 && 128 <= |value| < 16384
    ensures |WireBytes(field, value)| == 3 + |value|
  {
    assert |Varint.Encode(|value|)| == 2;
  }

  lemma NothingToRead<S>(s: S, call: Callback<S>)
    ensures WireRead([], s, call) == (s, None)
  {}

  /** That is a real restriction: a header written without its value part may
      use the last two bytes of the limit, and the writer adds them back. */
  lemma ResendCanFail()
    ensures exists raw :: Decoded(raw).1.None? && Decoded(Encoded(Decoded(raw).0)).1.Some?
  {
    hide WireRead, WireBytes, Encoded;
    var key: Bytes := seq(4093, i => 97);
    var h := WireBytes(1, key);
    WireBytesLength(1, key);
    var raw := WireBytes(5, h);
    WireBytesLength(5, h);
    StepBytes(5, h, [], EMPTY_FRAME, ApplyField);
    StepBytes(1, key, [], ([], []), ApplyHeader);
    assert raw + [] == raw && h + [] == h;
    NothingToRead((key, []), ApplyHeader);
    var f := EMPTY_FRAME.(headers := map[key := []]);
    NothingToRead(f, ApplyField);
    assert Decoded(raw) == (f, None);
    assert key in f.headers && |HeaderBytes(key, f.headers[key])| > HEADER_LIMIT;
    RoundTrip(f);
  }

  /** The number of the last record with this field, or zero. */
  function LastNumber(records: seq<Record>, field: u64): u64 {
    if records == [] then 0
    else
      var last := records[|records| - 1];
      if last.field == field then last.number else LastNumber(records[..|records| - 1], field)
  }

  function LastBytes(records: seq<Record>, field: u64): Bytes {
    if records == [] then []
    else
      var last := records[|records| - 1];
      if last.field == field then last.bytes else LastBytes(records[..|records| - 1], field)
  }

  /** Last one wins: every field of a frame but its headers is what the last
      record with that number says, whatever came before. */
  lemma {:induction false} LastWins(records: seq<Record>)
    requires Fold(records, EMPTY_FRAME, ApplyField).1.None?
    ensures var f := Fold(records, EMPTY_FRAME, ApplyField).0;
      && f.seqNo == LastNumber(records, 1) && f.log == LastNumber(records, 2)
      && f.service == LastNumber(records, 3) && f.methodNo == LastNumber(records, 4)
      && f.encoding == LastBytes(records, 6) && f.typeName == LastBytes(records, 7)
      && f.payload == LastBytes(records, 8) && f.logNew == LastBytes(records, 9)
  {
    hide WireRead;
    if records != [] {
      var n := |records| - 1;
      assert records == records[..n] + [records[n]];
      FoldConcat(records[..n], [records[n]], EMPTY_FRAME, ApplyField);
      LastWins(records[..n]);
      var f := Fold(records[..n], EMPTY_FRAME, ApplyField).0;
      assert [records[n]][1..] == [];
      assert Fold([records[n]], f, ApplyField) == ApplyField(f, records[n]);
    }
  }

  /** The same, of the decoder itself. */
  lemma DecodedIsLastWins(raw: Bytes)
    requires Decoded(raw).1.None?
    ensures var f, rs := Decoded(raw).0, Records(raw).0;
      && f.seqNo == LastNumber(rs, 1) && f.log == LastNumber(rs, 2)
      && f.service == LastNumber(rs, 3) && f.methodNo == LastNumber(rs, 4)
      && f.encoding == LastBytes(rs, 6) && f.typeName == LastBytes(rs, 7)
      && f.payload == LastBytes(rs, 8) && f.logNew == LastBytes(rs, 9)
  {
    ReadIsFold(raw, EMPTY_FRAME, ApplyField);
    LastWins(Records(raw).0);
  }

  lemma {:induction false} UnknownFieldsFold(records: seq<Record>, f: Frame)
    requires forall r <- records :: r.field >= 10
    ensures Fold(records, f, ApplyField) == (f, None)
  {
    if records != [] {
      UnknownFieldsFold(records[1..], f);
    }
  }

  /** Fields numbered ten or more can be inserted between any two records
      without changing the result, be it a frame or an error. */
  lemma UnknownFieldsIgnored(a: Bytes, unknown: Bytes, b: Bytes)
    requires |a + unknown + b| <= FRAME_LIMIT
    requires Records(a).1.None? && Records(unknown).1.None?
    requires forall r <- Records(unknown).0 :: r.field >= 10
    ensures Decoded(a + unknown + b) == Decoded(a + b)
  {
    var ra, ru, rb := Records(a).0, Records(unknown).0, Records(b).0;
    RecordsConcat(a, unknown);
    RecordsConcat(a + unknown, b);
    RecordsConcat(a, b);
    ReadIsFold(a + unknown + b, EMPTY_FRAME, ApplyField);
    ReadIsFold(a + b, EMPTY_FRAME, ApplyField);
    FoldConcat(ra + ru, rb, EMPTY_FRAME, ApplyField);
    FoldConcat(ra, ru, EMPTY_FRAME, ApplyField);
    FoldConcat(ra, rb, EMPTY_FRAME, ApplyField);
    UnknownFieldsFold(ru, Fold(ra, EMPTY_FRAME, ApplyField).0);
  }

  // ----- What is written and read, by number -----

  ghost function HeaderRecords(keys: seq<Bytes>, headers: map<Bytes, Bytes>): seq<Record>
    requires forall k <- keys :: k in headers
  {
    if keys == [] then []
    else [Record(5, 0, WireBytes(1, keys[0]) + WireBytes(2, headers[keys[0]]))] + HeaderRecords(keys[1..], headers)
  }

  lemma {:induction false} WrittenHeaders(keys: seq<Bytes>, headers: map<Bytes, Bytes>, rest: Bytes)
    requires forall k <- keys :: k in headers
    requires |HeaderFields(keys, headers)| <= FRAME_LIMIT
    ensures Records(HeaderFields(keys, headers) + rest) == (HeaderRecords(keys, headers) + Records(rest).0, Records(rest).1)
  {
    hide WireBytes, WireRead;
    if keys == [] {
      assert [] + rest == rest && [] + Records(rest).0 == Records(rest).0;
    } else {
      var h := HeaderBytes(keys[0], headers[keys[0]]);
      var tail := HeaderFields(keys[1..], headers);
      assert HeaderFields(keys, headers) + rest == WireBytes(5, h) + (tail + rest);
      WrittenHeaders(keys[1..], headers, rest);
      ReadFirst(5, h, tail + rest);
      var first := [Record(5, 0, h)];
      assert first + (HeaderRecords(keys[1..], headers) + Records(rest).0) == (first + HeaderRecords(keys[1..], headers)) + Records(rest).0;
    }
  }

  lemma ReadFirst(field: nat, value: Bytes, rest: Bytes)
    requires ValidField(field) && |value| <= FRAME_LIMIT
    ensures Records(WireBytes(field, value) + rest) == ([Record(field, 0, value)] + Records(rest).0, Records(rest).1)
  {
    var raw := WireBytes(field, value) + rest;
    ReadWireBytes(field, value, rest);
    assert raw[|WireBytes(field, value)|..] == rest;
    RecordsUnfold(raw);
  }

  lemma ReadFirstVar(field: nat, value: u64, rest: Bytes)
    requires ValidField(field)
    ensures Records(WireVar(field, value) + rest) == ([Record(field, value, [])] + Records(rest).0, Records(rest).1)
  {
    var raw := WireVar(field, value) + rest;
    ReadWireVar(field, value, rest);
    assert raw[|WireVar(field, value)|..] == rest;
    RecordsUnfold(raw);
  }

  /** Marshal writes every field, also the empty ones, in the order of their
      numbers, and each header as its key in part 1 and its value in part 2. */
  lemma WrittenRecords(f: Frame)
    requires |Encoded(f)| <= FRAME_LIMIT
    ensures (forall k <- SortedKeys(f.headers.Keys) :: k in f.headers)
      && Records(Encoded(f)) == (
           [Record(1, f.seqNo, []), Record(2, f.log, []), Record(3, f.service, []), Record(4, f.methodNo, [])]
           + HeaderRecords(SortedKeys(f.headers.Keys), f.headers)
           + [Record(6, 0, f.encoding), Record(7, 0, f.typeName), Record(8, 0, f.payload), Record(9, 0, f.logNew)],
           None)
  {
    hide WireRead, SortedKeys, HeaderFields, HeaderRecords;
    SortedKeysFacts(f.headers.Keys);
    var keys := SortedKeys(f.headers.Keys);
    var texts := TextFields(f);
    WrittenTexts(f);
    WrittenHeaders(keys, f.headers, texts);
    WrittenNumbers(f, HeaderFields(keys, f.headers) + texts);
    var numbers := [Record(1, f.seqNo, []), Record(2, f.log, []), Record(3, f.service, []), Record(4, f.methodNo, [])];
    var headers := HeaderRecords(keys, f.headers);
    assert numbers + (headers + Records(texts).0) == numbers + headers + Records(texts).0;
  }

  lemma WrittenNumbers(f: Frame, rest: Bytes)
    ensures Records(NumberFields(f) + rest) == (
      [Record(1, f.seqNo, []), Record(2, f.log, []), Record(3, f.service, []), Record(4, f.methodNo, [])] + Records(rest).0,
      Records(rest).1)
  {
    hide WireVar, WireRead;
    var w2, w3, w4 := WireVar(2, f.log), WireVar(3, f.service), WireVar(4, f.methodNo);
    assert NumberFields(f) + rest == WireVar(1, f.seqNo) + (w2 + (w3 + (w4 + rest)));
    var r1, r2, r3, r4 := Record(1, f.seqNo, []), Record(2, f.log, []), Record(3, f.service, []), Record(4, f.methodNo, []);
    var more := Records(rest).0;
    assert [r1] + ([r2] + ([r3] + ([r4] + more))) == [r1, r2, r3, r4] + more;
    ReadFirstVar(4, f.methodNo, rest);
    ReadFirstVar(3, f.service, w4 + rest);
    ReadFirstVar(2, f.log, w3 + (w4 + rest));
    ReadFirstVar(1, f.seqNo, w2 + (w3 + (w4 + rest)));
  }

  lemma WrittenTexts(f: Frame)
    requires |TextFields(f)| <= FRAME_LIMIT
    ensures Records(TextFields(f)) == (
      [Record(6, 0, f.encoding), Record(7, 0, f.typeName), Record(8, 0, f.payload), Record(9, 0, f.logNew)], None)
  {
    hide WireBytes, WireRead;
    var b7, b8, b9 := WireBytes(7, f.typeName), WireBytes(8, f.payload), WireBytes(9, f.logNew);
    var r6, r7, r8, r9 := Record(6, 0, f.encoding), Record(7, 0, f.typeName), Record(8, 0, f.payload), Record(9, 0, f.logNew);
    assert [r6] + ([r7] + ([r8] + ([r9] + []))) == [r6, r7, r8, r9];
    ReadFirst(9, f.logNew, []);
    assert b9 + [] == b9;
    NothingToRead<seq<Record>>([], Collect);
    ReadFirst(8, f.payload, b9);
    ReadFirst(7, f.typeName, b8 + b9);
    ReadFirst(6, f.encoding, b7 + (b8 + b9));
  }

  /** A header of key and value is refused when 64 are there or it takes more
      than 4096 bytes, refused as repeated when its key is there, and otherwise
      added; so no frame ever has a header that was sent twice. */
  lemma HeaderExactly(f: Frame, key: Bytes, value: Bytes, rest: Bytes)
    requires |WireBytes(1, key) + WireBytes(2, value)| <= FRAME_LIMIT
    ensures var h := WireBytes(1, key) + WireBytes(2, value);
      WireRead(WireBytes(5, h) + rest, f, ApplyField) ==
        if |f.headers| >= 64 || |h| > 4096 then (f, Some(HeadersExceedLimit))
        else if key in f.headers then (f, Some(RepeatedHeader))
        else WireRead(rest, f.(headers := f.headers[key := value]), ApplyField)
  {
    hide WireRead, WireBytes;
    var h := WireBytes(1, key) + WireBytes(2, value);
    assert h == HeaderBytes(key, value);
    StepBytes(5, h, rest, f, ApplyField);
    if |h| <= HEADER_LIMIT {
      ReadHeader(key, value);
    }
  }

  /** The limits and the encodings, as a sender sees them. */
  lemma RefusedExactly(f: Frame)
    ensures Decoded(Encoded(f)).1.Some? <==>
      || |Encoded(f)| > 0x10_0000
      || !(f.encoding == [] || f.encoding == Ascii("json"))
      || |f.headers| > 64
      || exists k <- f.headers :: |WireBytes(1, k) + WireBytes(2, f.headers[k])| > 4096
  {
    hide Decoded, Encoded, WireBytes;
    assert JSON == Ascii("json");
    RoundTrip(f);
  }

  /** Which error a message is refused with: its size first; then an encoding that
      is neither empty nor "json", even when a later field is malformed; then the
      first refused record, or else the first malformed one. */
  lemma DecodedErrors(raw: Bytes)
    ensures var (records, malformed) := Records(raw);
      var (f, refused) := Fold(records, Frame(0, 0, 0, 0, map[], [], [], [], []), ApplyField);
      Decoded(raw).1 ==
        if |raw| > 0x10_0000 then Some(FrameExceedsLimit)
        else if f.encoding != [] && f.encoding != Ascii("json") then Some(UnsupportedEncoding)
        else if refused.Some? then refused
        else malformed
  {
    hide WireRead, Fold, ApplyField;
    assert JSON == Ascii("json");
    ReadIsFold(raw, EMPTY_FRAME, ApplyField);
  }
}
