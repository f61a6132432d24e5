/**
 The AWS EventStream format as functions: big-endian words, headers and packets, and how the decoder
 reads them (src/eventstream).
 */
module Wire {
  import opened Common
  import opened Crc

  // ---------- words ----------

  const WORD := 0x1_0000_0000

  type int32 = i: int | -0x8000_0000 <= i < 0x8000_0000

  /** write_be_u32. */
  function Be32(v: int): (r: bytes)
    requires 0 <= v < WORD
    ensures |r| == 4
  {
    [v / 0x100_0000, v / 0x1_0000 % 256, v / 256 % 256, v % 256]
  }

  /** read_be_uint32. */
  function ReadBe32(b: bytes): (v: int)
    requires |b| == 4
    ensures 0 <= v < WORD
  {
    Num(b[0]) * 0x100_0000 + Num(b[1]) * 0x1_0000 + Num(b[2]) * 256 + Num(b[3])
  }

  lemma Shifted(q: int, r: int)
    requires 0 <= r < 256
    ensures (q * 256 + r) / 256 == q && (q * 256 + r) % 256 == r
  {
  }

  lemma Quotients(v: int)
    requires 0 <= v
    ensures v / 0x1_0000 == v / 256 / 256 && v / 0x100_0000 == v / 256 / 256 / 256
  {
  }

  lemma WrittenReads(v: int)
    requires 0 <= v < WORD
    ensures ReadBe32(Be32(v)) == v
  {
    Quotients(v);
  }

  lemma ReadWrites(b: bytes)
    requires |b| == 4
    ensures Be32(ReadBe32(b)) == b
  {
    var q1 := Num(b[0]);
    var q2 := q1 * 256 + Num(b[1]);
    var q3 := q2 * 256 + Num(b[2]);
    var w := q3 * 256 + Num(b[3]);
    assert w == ReadBe32(b);
    Shifted(q3, Num(b[3]));
    Shifted(q2, Num(b[2]));
    Shifted(q1, Num(b[1]));
    Quotients(w);
  }

  lemma WordRoundTrip(v: int, b: bytes)
    ensures 0 <= v < WORD ==> ReadBe32(Be32(v)) == v
    ensures |b| == 4 ==> Be32(ReadBe32(b)) == b
  {
    hide Be32, ReadBe32;
    if 0 <= v < WORD {
      WrittenReads(v);
    }
    if |b| == 4 {
      ReadWrites(b);
    }
  }

  /** The bits of a signed word, and back. */
  function Bits(i: int32): int {
    if i < 0 then i + WORD else i
  }

  function Signed(w: int): int32
    requires 0 <= w < WORD
  {
    if w < 0x8000_0000 then w else w - WORD
  }

  // ---------- headers ----------

  /** `Other` is any value type the library does not know. */
  datatype Value = Int32(i: int32) | Str(s: bytes) | Other(ty: byte)

  datatype Header = Header(name: bytes, value: Value)

  const INT32_TYPE := 4
  const STRING_TYPE := 7

  predicate HeaderOk(h: Header) {
    |h.name| <= 255 && !h.value.Other? && (h.value.Str? ==> |h.value.s| <= UINT16_MAX)
  }

  predicate HeadersOk(hs: seq<Header>) {
    forall h :: h in hs ==> HeaderOk(h)
  }

  /** A 16-bit length and the text. */
  function SizedText(s: bytes): bytes
    requires |s| <= UINT16_MAX
  {
    [|s| / 256, |s| % 256] + s
  }

  function ValueBytes(v: Value): bytes
    requires !v.Other? && (v.Str? ==> |v.s| <= UINT16_MAX)
  {
    match v
    case Int32(i) => [INT32_TYPE] + Be32(Bits(i))
    case Str(s) => [STRING_TYPE] + SizedText(s)
  }

  function HeaderBytes(h: Header): bytes
    requires HeaderOk(h)
  {
    [|h.name|] + h.name + ValueBytes(h.value)
  }

  function HeadersBytes(hs: seq<Header>): bytes
    requires HeadersOk(hs)
  {
    if hs == [] then [] else HeaderBytes(hs[0]) + HeadersBytes(hs[1..])
  }

  /** take_header: the length of the header at the front, if a whole one is there. */
  function TakeHeader(s: bytes): (r: Option<nat>)
    ensures r.Some? ==> 0 < r.value <= |s|
  {
    if |s| < 1 then None
    else
      var p := 1 + Num(s[0]);
      if |s| < p + 1 then None
      else if s[p] == INT32_TYPE then if |s| < p + 5 then None else Some(p + 5)
      else if s[p] == STRING_TYPE then
        if |s| < p + 3 then None
        else
          var n := Num(s[p + 1]) * 256 + Num(s[p + 2]);
          if |s| < p + 3 + n then None else Some(p + 3 + n)
      else None
  }

  /** eventstream_header_next: the header at the front, read without any bounds checks. */
  function ReadHeader(s: bytes): Header
    requires TakeHeader(s).Some?
  {
    var p := 1 + Num(s[0]);
    Header(s[1..p],
      if s[p] == INT32_TYPE then Int32(Signed(ReadBe32(s[p + 1..p + 5])))
      else Str(s[p + 3..p + 3 + (Num(s[p + 1]) * 256 + Num(s[p + 2]))]))
  }

  function ParseHeaders(s: bytes): (r: Option<seq<Header>>)
    decreases |s|
  {
    if s == [] then Some([])
    else
      match TakeHeader(s)
      case None => None
      case Some(n) =>
        match ParseHeaders(s[n..])
        case None => None
        case Some(hs) => Some([ReadHeader(s)] + hs)
  }

  lemma {:induction false} IntHeaderReads(h: Header, r: bytes)
    requires HeaderOk(h) && h.value.Int32?
    ensures var s := HeaderBytes(h) + r; TakeHeader(s) == Some(|HeaderBytes(h)|) && ReadHeader(s) == h
  {
    var s, p := HeaderBytes(h) + r, 1 + |h.name|;
    assert s[0] == |h.name| && s[1..p] == h.name && s[p] == INT32_TYPE;
    assert s[p + 1..p + 5] == Be32(Bits(h.value.i));
    WordRoundTrip(Bits(h.value.i), []);
  }

  lemma {:induction false} StrHeaderReads(h: Header, r: bytes)
    requires HeaderOk(h) && h.value.Str?
    ensures var s := HeaderBytes(h) + r; TakeHeader(s) == Some(|HeaderBytes(h)|) && ReadHeader(s) == h
  {
    var t := h.value.s;
    var s, p := HeaderBytes(h) + r, 1 + |h.name|;
    assert s[0] == |h.name| && s[1..p] == h.name && s[p] == STRING_TYPE;
    assert s[p + 1] == |t| / 256 && s[p + 2] == |t| % 256;
    assert s[p + 3..p + 3 + |t|] == t;
  }

  lemma HeaderReads(h: Header, r: bytes)
    requires HeaderOk(h)
    ensures var s := HeaderBytes(h) + r; TakeHeader(s) == Some(|HeaderBytes(h)|) && ReadHeader(s) == h
  {
    if h.value.Int32? {
      IntHeaderReads(h, r);
    } else {
      StrHeaderReads(h, r);
    }
  }

  /** A header that is accepted is the encoding of what is read from it. */
  lemma ReadIsEncoded(s: bytes)
    requires TakeHeader(s).Some?
    ensures HeaderOk(ReadHeader(s)) && HeaderBytes(ReadHeader(s)) == s[..TakeHeader(s).value]
  {
    var h, p, n := ReadHeader(s), 1 + Num(s[0]), TakeHeader(s).value;
    if s[p] == INT32_TYPE {
      var b := s[p + 1..p + 5];
      WordRoundTrip(0, b);
      assert Bits(Signed(ReadBe32(b))) == ReadBe32(b);
      assert s[..n] == [s[0]] + s[1..p] + ([s[p]] + b);
    } else {
      var t := s[p + 3..n];
      assert |t| / 256 == s[p + 1] && |t| % 256 == s[p + 2];
      assert s[..n] == [s[0]] + s[1..p] + ([s[p]] + ([s[p + 1], s[p + 2]] + t));
    }
  }

  lemma {:induction false} HeadersParse(hs: seq<Header>)
    requires HeadersOk(hs)
    ensures ParseHeaders(HeadersBytes(hs)) == Some(hs)
  {
    hide TakeHeader, ReadHeader, HeaderBytes, HeaderOk;
    if hs != [] {
      assert hs[0] in hs;
      var b, rest := HeaderBytes(hs[0]), HeadersBytes(hs[1..]);
      HeaderReads(hs[0], rest);
      assert (b + rest)[|b|..] == rest;
      HeadersParse(hs[1..]);
      assert [hs[0]] + hs[1..] == hs;
    }
  }

  lemma {:induction false} ParsedIsEncoded(s: bytes)
    requires ParseHeaders(s).Some?
    ensures HeadersOk(ParseHeaders(s).value) && HeadersBytes(ParseHeaders(s).value) == s
    decreases |s|
  {
    hide TakeHeader, ReadHeader, HeaderBytes, HeaderOk;
    if s != [] {
      var n := TakeHeader(s).value;
      ReadIsEncoded(s);
      ParsedIsEncoded(s[n..]);
      var h, hs := ReadHeader(s), ParseHeaders(s[n..]).value;
      assert ([h] + hs)[1..] == hs;
      assert s == s[..n] + s[n..];
    }
  }

  // ---------- packets ----------

  datatype Message = Message(headers: seq<Header>, payload: bytes)

  predicate MessageOk(m: Message) {
    HeadersOk(m.headers) && 16 + |HeadersBytes(m.headers)| + |m.payload| < WORD
  }

  function CrcBytes(c: bv32): (r: bytes)
    ensures |r| == 4
  {
    Be32(c as int)
  }

  /** The two lengths, before their CRC. */
  function Lengths(message: int, headers: int): (r: bytes)
    requires 0 <= message < WORD && 0 <= headers < WORD
    ensures |r| == 8
  {
    Be32(message) + Be32(headers)
  }

  function Front(message: int, headers: int): (r: bytes)
    requires 0 <= message < WORD && 0 <= headers < WORD
    ensures |r| == 12
  {
    var lens := Lengths(message, headers);
    lens + CrcBytes(Update(0, lens))
  }

  /** A packet: everything before the trailer, and the CRC of it. */
  function Packet(m: Message): (r: bytes)
    requires MessageOk(m)
    ensures |r| == 16 + |HeadersBytes(m.headers)| + |m.payload|
  {
    var h := HeadersBytes(m.headers);
    var body := Front(16 + |h| + |m.payload|, |h|) + h + m.payload;
    body + CrcBytes(Update(0, body))
  }

  datatype Answer<+T> = Got(value: T) | Refused(err: Error)

  /** `crc` is the CRC of the twelve bytes read so far. */
  datatype Prelude = Prelude(dataLen: nat, headersLen: nat, crc: bv32)

  /** eventstream_decode_prelude. */
  function DecodePrelude(s: bytes): (r: Answer<Prelude>)
    ensures r.Got? ==> r.value.dataLen >= 4 && r.value.headersLen <= r.value.dataLen - 4
  {
    if |s| < 12 then Refused(Range)
    else
      var crc := Update(0, s[..8]);
      if crc as int != ReadBe32(s[8..12]) then Refused(Parse)
      else
        var message, headers := ReadBe32(s[..4]), ReadBe32(s[4..8]);
        if message < 16 || headers > message - 16 then Refused(Parse)
        else Got(Prelude(message - 12, headers, Update(crc, s[8..12])))
  }

  /** eventstream_decode, on the rest of the packet. */
  function DecodeData(prelude: Prelude, data: bytes): Answer<Message>
    requires |data| == prelude.dataLen >= 4 && prelude.headersLen <= |data| - 4
  {
    var n := |data| - 4;
    if Update(prelude.crc, data[..n]) as int != ReadBe32(data[n..]) then Refused(Parse)
    else
      match ParseHeaders(data[..prelude.headersLen])
      case None => Refused(Parse)
      case Some(hs) => Got(Message(hs, data[prelude.headersLen..n]))
  }

  lemma {:induction false} PreludeReads(message: int, headers: int, rest: bytes)
    requires 16 <= message < WORD && 0 <= headers <= message - 16
    ensures DecodePrelude(Front(message, headers) + rest) ==
            Got(Prelude(message - 12, headers, Update(0, Front(message, headers))))
  {
    hide Update, Be32, ReadBe32;
    var lens := Lengths(message, headers);
    var s := Front(message, headers) + rest;
    var crc := Update(0, lens);
    assert s[..8] == lens && s[8..12] == CrcBytes(crc);
    assert s[..4] == Be32(message) && s[4..8] == Be32(headers);
    WordRoundTrip(message, []);
    WordRoundTrip(headers, []);
    WordRoundTrip(crc as int, []);
    UpdateChains(0, lens, CrcBytes(crc));
  }

  lemma {:induction false} DataReads(m: Message)
    requires MessageOk(m)
    ensures var h := HeadersBytes(m.headers); var front := Front(16 + |h| + |m.payload|, |h|);
            var data := Packet(m)[12..];
            && |data| == |Packet(m)| - 12
            && DecodeData(Prelude(|data|, |h|, Update(0, front)), data) == Got(m)
  {
    hide Update, Be32, ReadBe32, HeadersBytes, ParseHeaders, Front;
    var h := HeadersBytes(m.headers);
    var front := Front(16 + |h| + |m.payload|, |h|);
    var body, data := front + h + m.payload, Packet(m)[12..];
    var crc := Update(0, body);
    var n := |data| - 4;
    assert body == front + (h + m.payload);
    assert data == h + m.payload + CrcBytes(crc);
    assert data[..n] == h + m.payload && data[n..] == CrcBytes(crc);
    assert data[..|h|] == h && data[|h|..n] == m.payload;
    UpdateChains(0, front, h + m.payload);
    WordRoundTrip(crc as int, []);
    HeadersParse(m.headers);
  }

  /** What passes the checks of the decoder is a packet of the message that it returns. */
  lemma {:induction false} AcceptedIsPacket(s: bytes)
    requires DecodePrelude(s).Got? && |s| == 12 + DecodePrelude(s).value.dataLen
    requires DecodeData(DecodePrelude(s).value, s[12..]).Got?
    ensures var m := DecodeData(DecodePrelude(s).value, s[12..]).value; MessageOk(m) && Packet(m) == s
  {
    hide Update, Be32, ReadBe32, HeadersBytes, ParseHeaders;
    var prelude, data := DecodePrelude(s).value, s[12..];
    var m := DecodeData(prelude, data).value;
    var n := |data| - 4;
    var h := data[..prelude.headersLen];
    ParsedIsEncoded(h);
    WordRoundTrip(0, s[..4]);
    WordRoundTrip(0, s[4..8]);
    WordRoundTrip(0, s[8..12]);
    WordRoundTrip(0, data[n..]);
    var front := Front(16 + |h| + |m.payload|, |h|);
    assert s[..8] == s[..4] + s[4..8];
    assert s[..12] == s[..8] + s[8..12];
    assert front == s[..12];
    UpdateChains(0, s[..8], s[8..12]);
    var body := front + h + m.payload;
    assert h + m.payload == data[..n];
    assert body == front + data[..n];
    UpdateChains(0, front, data[..n]);
    assert s == s[..12] + data && data == data[..n] + data[n..];
  }

  // ---------- byte order and known encodings ----------

  lemma FirstDifference(b: bytes, c: bytes, k: nat)
    requires |b| == |c| && k < |b| && b[..k] == c[..k] && b[k] < c[k]
    ensures LexLess(b, c)
  {
  }

  lemma ReadOrder(b: bytes, c: bytes)
    requires |b| == 4 && |c| == 4
    ensures ReadBe32(b) < ReadBe32(c) <==> LexLess(b, c)
  {
    if LexLess(b, c) {
      var k :| 0 <= k <= |b| && k < |c| && b[..k] == c[..k] && (k == |b| || b[k] < c[k]);
      assert forall i :: 0 <= i < k ==> b[i] == b[..k][i] == c[..k][i] == c[i];
    }
    if ReadBe32(b) < ReadBe32(c) {
      var k := if b[0] != c[0] then 0 else if b[1] != c[1] then 1 else if b[2] != c[2] then 2 else 3;
      FirstDifference(b, c, k);
    }
  }

  /** The most significant byte comes first: words are ordered as their bytes are. */
  lemma WordOrder(v: int, w: int)
    requires 0 <= v < WORD && 0 <= w < WORD
    ensures v < w <==> LexLess(Be32(v), Be32(w))
  {
    hide Be32, ReadBe32, LexLess;
    WrittenReads(v);
    WrittenReads(w);
    ReadOrder(Be32(v), Be32(w));
  }

  /** So are the lengths of strings. */
  lemma LengthOrder(s: bytes, t: bytes)
    requires |s| <= UINT16_MAX && |t| <= UINT16_MAX
    ensures |s| < |t| <==> LexLess(SizedText(s)[..2], SizedText(t)[..2])
  {
    var b, c := SizedText(s)[..2], SizedText(t)[..2];
    assert b == [|s| / 256, |s| % 256] && c == [|t| / 256, |t| % 256];
    if LexLess(b, c) {
      var k :| 0 <= k <= |b| && k < |c| && b[..k] == c[..k] && (k == |b| || b[k] < c[k]);
      assert forall i :: 0 <= i < k ==> b[i] == b[..k][i] == c[..k][i] == c[i];
    }
    if |s| < |t| {
      FirstDifference(b, c, if b[0] != c[0] then 0 else 1);
    }
  }

  /** Headers of both types, written out. */
  lemma KnownHeaders()
    ensures HeaderBytes(Header(Ascii(":stream-id"), Int32(1))) == [10] + Ascii(":stream-id") + [4, 0, 0, 0, 1]
    ensures HeaderBytes(Header(Ascii("a"), Int32(-2))) == [1] + Ascii("a") + [4, 0xFF, 0xFF, 0xFF, 0xFE]
    ensures HeaderBytes(Header(Ascii("operation"), Str(Ascii("x")))) == [9] + Ascii("operation") + [7, 0, 1] + Ascii("x")
  {
  }

  lemma EmptySteps0()
    ensures ByteStep(0xFFFF_FFFF, 0x00) == 0x2DFD_1072
    ensures ByteStep(0x2DFD_1072, 0x00) == 0xBE26_ED00
    ensures ByteStep(0xBE26_ED00, 0x00) == 0x00BE_26ED
    ensures ByteStep(0x00BE_26ED, 0x10) == 0xC30C_3087
  {
  }

  lemma EmptySteps4()
    ensures ByteStep(0xC30C_3087, 0x00) == 0x731F_1AB3
    ensures ByteStep(0x731F_1AB3, 0x00) == 0x521B_FD2C
    ensures ByteStep(0x521B_FD2C, 0x00) == 0x328A_771E
    ensures ByteStep(0x328A_771E, 0x00) == 0xFA3D_B714
  {
  }

  lemma EmptySteps8()
    ensures ByteStep(0xFA3D_B714, 0x05) == 0x6A4A_1D45
    ensures ByteStep(0x6A4A_1D45, 0xC2) == 0x73B6_5C9E
    ensures ByteStep(0x73B6_5C9E, 0x48) == 0x6FC3_C1BD
    ensures ByteStep(0x6FC3_C1BD, 0xEB) == 0x8267_3700
  {
  }

  lemma EmptyBytes0()
    ensures Bytes(0xFFFF_FFFF, [0x00, 0x00, 0x00, 0x10]) == 0xC30C_3087
  {
    hide ByteStep, Bytes;
    EmptySteps0();
    OneByte(0xFFFF_FFFF, 0x00, [0x00, 0x00, 0x10]);
    OneByte(0x2DFD_1072, 0x00, [0x00, 0x10]);
    OneByte(0xBE26_ED00, 0x00, [0x10]);
    OneByte(0x00BE_26ED, 0x10, []);
    NoByte(0xC30C_3087);
    assert [0x00, 0x00, 0x00, 0x10] == [0x00] + [0x00, 0x00, 0x10] && [0x00, 0x00, 0x10] == [0x00] + [0x00, 0x10] && [0x00, 0x10] == [0x00] + [0x10] && [0x10] == [0x10] + [];
  }

  lemma EmptyBytes4()
    ensures Bytes(0xC30C_3087, [0x00, 0x00, 0x00, 0x00]) == 0xFA3D_B714
  {
    hide ByteStep, Bytes;
    EmptySteps4();
    OneByte(0xC30C_3087, 0x00, [0x00, 0x00, 0x00]);
    OneByte(0x731F_1AB3, 0x00, [0x00, 0x00]);
    OneByte(0x521B_FD2C, 0x00, [0x00]);
    OneByte(0x328A_771E, 0x00, []);
    NoByte(0xFA3D_B714);
    assert [0x00, 0x00, 0x00, 0x00] == [0x00] + [0x00, 0x00, 0x00] && [0x00, 0x00, 0x00] == [0x00] + [0x00, 0x00] && [0x00, 0x00] == [0x00] + [0x00] && [0x00] == [0x00] + [];
  }

  lemma EmptyBytes8()
    ensures Bytes(0xFA3D_B714, [0x05, 0xC2, 0x48, 0xEB]) == 0x8267_3700
  {
    hide ByteStep, Bytes;
    EmptySteps8();
    OneByte(0xFA3D_B714, 0x05, [0xC2, 0x48, 0xEB]);
    OneByte(0x6A4A_1D45, 0xC2, [0x48, 0xEB]);
    OneByte(0x73B6_5C9E, 0x48, [0xEB]);
    OneByte(0x6FC3_C1BD, 0xEB, []);
    NoByte(0x8267_3700);
    assert [0x05, 0xC2, 0x48, 0xEB] == [0x05] + [0xC2, 0x48, 0xEB] && [0xC2, 0x48, 0xEB] == [0xC2] + [0x48, 0xEB] && [0x48, 0xEB] == [0x48] + [0xEB] && [0xEB] == [0xEB] + [];
  }

  lemma EmptyCrcs()
    ensures Update(0, [0x00, 0x00, 0x00, 0x10, 0x00, 0x00, 0x00, 0x00]) == 0x05C2_48EB
    ensures Update(0, [0x00, 0x00, 0x00, 0x10, 0x00, 0x00, 0x00, 0x00, 0x05, 0xC2, 0x48, 0xEB]) == 0x7D98_C8FF
  {
    hide Bytes;
    EmptyBytes0();
    EmptyBytes4();
    EmptyBytes8();
    BytesConcat(0xFFFF_FFFF, [0x00, 0x00, 0x00, 0x10], [0x00, 0x00, 0x00, 0x00]);
    BytesConcat(0xFFFF_FFFF, [0x00, 0x00, 0x00, 0x10, 0x00, 0x00, 0x00, 0x00], [0x05, 0xC2, 0x48, 0xEB]);
    assert [0x00, 0x00, 0x00, 0x10, 0x00, 0x00, 0x00, 0x00] == [0x00, 0x00, 0x00, 0x10] + [0x00, 0x00, 0x00, 0x00];
    assert [0x00, 0x00, 0x00, 0x10, 0x00, 0x00, 0x00, 0x00, 0x05, 0xC2, 0x48, 0xEB] == [0x00, 0x00, 0x00, 0x10, 0x00, 0x00, 0x00, 0x00] + [0x05, 0xC2, 0x48, 0xEB];
  }

  /** The packet without headers and payload, byte for byte. */
  lemma EmptyPacket()
    ensures MessageOk(Message([], []))
    ensures Packet(Message([], [])) ==
            [0, 0, 0, 16, 0, 0, 0, 0, 0x05, 0xC2, 0x48, 0xEB, 0x7D, 0x98, 0xC8, 0xFF]
  {
    hide Update;
    EmptyCrcs();
    assert Lengths(16, 0) == [0x00, 0x00, 0x00, 0x10, 0x00, 0x00, 0x00, 0x00];
    assert CrcBytes(0x05C2_48EB) == [0x05, 0xC2, 0x48, 0xEB];
    assert CrcBytes(0x7D98_C8FF) == [0x7D, 0x98, 0xC8, 0xFF];
    assert Front(16, 0) + [] + [] == [0x00, 0x00, 0x00, 0x10, 0x00, 0x00, 0x00, 0x00, 0x05, 0xC2, 0x48, 0xEB];
  }
}
