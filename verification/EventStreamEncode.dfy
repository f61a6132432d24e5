/**
 Encoding a packet into a buffer (src/eventstream/encode.c): headers and payload are written behind
 a gap for the prelude, which is filled in once their lengths are known.
 */
module EventStreamEncode {
  import opened Common
  import opened Memory
  import opened Crc
  import opened Wire

  // ---------- which error comes first ----------

  function HeaderVerdict(h: Header, room: nat): Error {
    if |h.name| > 255 then Range
    else if room < 2 + |h.name| then NoMem
    else match h.value
      case Other(_) => Parse
      case Int32(_) => if room < 6 + |h.name| then NoMem else Ok
      case Str(s) => if |s| > UINT16_MAX then Range else if room < 4 + |h.name| + |s| then NoMem else Ok
  }

  lemma HeaderVerdictMeans(h: Header, room: nat)
    ensures HeaderVerdict(h, room) == Ok <==> HeaderOk(h) && |HeaderBytes(h)| <= room
  {
  }

  function HeadersVerdict(hs: seq<Header>, room: nat): Error
    decreases |hs|
  {
    if hs == [] then Ok
    else
      HeaderVerdictMeans(hs[0], room);
      var e := HeaderVerdict(hs[0], room);
      if e != Ok then e else HeadersVerdict(hs[1..], room - |HeaderBytes(hs[0])|)
  }

  lemma {:induction false} HeadersVerdictMeans(hs: seq<Header>, room: nat)
    ensures HeadersVerdict(hs, room) == Ok <==> HeadersOk(hs) && |HeadersBytes(hs)| <= room
    decreases |hs|
  {
    hide HeaderVerdict, HeaderBytes, HeaderOk;
    if hs != [] {
      HeaderVerdictMeans(hs[0], room);
      assert hs == [hs[0]] + hs[1..];
      if HeaderVerdict(hs[0], room) == Ok {
        HeadersVerdictMeans(hs[1..], room - |HeaderBytes(hs[0])|);
      }
    }
  }

  /** The payload's source: given room, its bytes or an error. It must fail rather than not fit. */
  type Source = nat -> Answer<bytes>

  ghost predicate Fitting(payload: Source) {
    forall room :: var r := payload(room); if r.Got? then |r.value| <= room else r.err != Ok
  }

  function EncodeVerdict(hs: seq<Header>, payload: Source, len: nat): Error {
    if len < 12 then NoMem
    else
      var e := HeadersVerdict(hs, len - 12);
      if e != Ok then e
      else
        HeadersVerdictMeans(hs, len - 12);
        var h := |HeadersBytes(hs)|;
        match payload(len - 12 - h)
        case Refused(err) => err
        case Got(p) => if len < 16 + h + |p| then NoMem else Ok
  }

  // ---------- writing ----------

  /** buf_write through a consuming writer: `pos` advances over what was written. */
  method Put(buf: array<byte>, pos: nat, end: nat, data: bytes) returns (ret: Error, pos': nat)
    requires pos <= end <= buf.Length
    modifies buf
    ensures ret == if |data| <= end - pos then Ok else NoMem
    ensures pos' == if ret == Ok then pos + |data| else pos
    ensures buf[..pos'] == old(buf[..pos]) + if ret == Ok then data else []
  {
    if |data| > end - pos {
      return NoMem, pos;
    }
    WriteBytes(buf, pos, data);
    return Ok, pos + |data|;
  }

  function TypeOf(v: Value): byte {
    match v
    case Int32(_) => INT32_TYPE
    case Str(_) => STRING_TYPE
    case Other(ty) => ty
  }

  /** The second half of header_encode: the value, after its type. */
  method ValueEncode(buf: array<byte>, pos: nat, end: nat, v: Value) returns (ret: Error, pos': nat)
    requires pos <= end <= buf.Length
    modifies buf
    ensures ret == match v
                   case Other(_) => Parse
                   case Int32(_) => if end - pos < 4 then NoMem else Ok
                   case Str(s) => if |s| > UINT16_MAX then Range else if end - pos < 2 + |s| then NoMem else Ok
    ensures ret == Ok ==> pos' == pos + |ValueBytes(v)| - 1 && buf[..pos'] == old(buf[..pos]) + ValueBytes(v)[1..]
  {
    hide Be32;
    if v.Int32? {
      ret, pos' := Put(buf, pos, end, Be32(Bits(v.i)));
    } else if v.Str? {
      if |v.s| > UINT16_MAX {
        return Range, pos;
      }
      ret, pos' := Put(buf, pos, end, [|v.s| / 256, |v.s| % 256]);
      if ret != Ok {
        return;
      }
      ret, pos' := Put(buf, pos', end, v.s);
      assert old(buf[..pos]) + [|v.s| / 256, |v.s| % 256] + v.s == old(buf[..pos]) + SizedText(v.s);
    } else {
      return Parse, pos;
    }
  }

  /** header_encode. */
  method HeaderEncode(buf: array<byte>, pos: nat, end: nat, h: Header) returns (ret: Error, pos': nat)
    requires pos <= end <= buf.Length
    modifies buf
    ensures ret == HeaderVerdict(h, end - pos)
    ensures ret == Ok ==> HeaderOk(h) && pos' == pos + |HeaderBytes(h)| <= end
    ensures ret == Ok ==> buf[..pos'] == old(buf[..pos]) + HeaderBytes(h)
  {
    hide Be32;
    pos' := pos;
    if |h.name| > 255 {
      return Range, pos;
    }
    ghost var b := buf[..pos];
    ret, pos' := Put(buf, pos', end, [|h.name|]);
    if ret != Ok {
      return;
    }
    ret, pos' := Put(buf, pos', end, h.name);
    if ret != Ok {
      return;
    }
    ret, pos' := Put(buf, pos', end, [TypeOf(h.value)]);
    if ret != Ok {
      return;
    }
    ret, pos' := ValueEncode(buf, pos', end, h.value);
    if ret == Ok {
      HeaderJoins(b, h);
    }
  }

  lemma HeaderJoins(b: bytes, h: Header)
    requires HeaderOk(h)
    ensures b + [|h.name|] + h.name + [TypeOf(h.value)] + ValueBytes(h.value)[1..] == b + HeaderBytes(h)
  {
    hide Be32;
    assert ValueBytes(h.value) == [TypeOf(h.value)] + ValueBytes(h.value)[1..];
  }

  method HeadersEncode(buf: array<byte>, pos: nat, end: nat, hs: seq<Header>) returns (ret: Error, pos': nat)
    requires pos <= end <= buf.Length
    modifies buf
    ensures ret == HeadersVerdict(hs, end - pos)
    ensures ret == Ok ==> HeadersOk(hs) && pos' == pos + |HeadersBytes(hs)| <= end
    ensures ret == Ok ==> buf[..pos'] == old(buf[..pos]) + HeadersBytes(hs)
  {
    hide HeaderVerdict, HeaderBytes, HeaderOk;
    pos' := pos;
    ret := Ok;
    ghost var b := buf[..pos];
    assert hs[0..] == hs && hs[..0] == [] && b + [] == b;
    var i := 0;
    while i < |hs|
      invariant 0 <= i <= |hs| && pos <= pos' <= end && ret == Ok && HeadersOk(hs[..i])
      invariant pos' == pos + |HeadersBytes(hs[..i])| && buf[..pos'] == b + HeadersBytes(hs[..i])
      invariant HeadersVerdict(hs[i..], end - pos') == HeadersVerdict(hs, end - pos)
    {
      assert hs[i..][0] == hs[i] && hs[i..][1..] == hs[i + 1..];
      HeaderVerdictMeans(hs[i], end - pos');
      ret, pos' := HeaderEncode(buf, pos', end, hs[i]);
      if ret != Ok {
        return;
      }
      HeadersSnoc(hs[..i], hs[i]);
      assert hs[..i + 1] == hs[..i] + [hs[i]];
      i := i + 1;
    }
    assert hs[..i] == hs;
  }

  lemma {:induction false} HeadersSnoc(hs: seq<Header>, h: Header)
    requires HeadersOk(hs) && HeaderOk(h)
    ensures HeadersOk(hs + [h]) && HeadersBytes(hs + [h]) == HeadersBytes(hs) + HeaderBytes(h)
  {
    hide HeaderBytes, HeaderOk;
    if hs == [] {
      assert hs + [h] == [h] && [h][1..] == [];
    } else {
      assert (hs + [h])[1..] == hs[1..] + [h];
      assert forall x :: x in hs[1..] ==> x in hs;
      HeadersSnoc(hs[1..], h);
    }
  }

  // ---------- the packet ----------

  /** message_len is a 32-bit sum; where it wraps, the length given to the CRC wraps back. */
  function Wrap(n: int): int {
    n % WORD
  }

  /** Headers and payload, behind the gap for the prelude. */
  method BodyEncode(buf: array<byte>, end: nat, hs: seq<Header>, payload: Source)
    returns (ret: Error, headersLen: nat, payloadLen: nat)
    requires 12 <= end <= buf.Length && Fitting(payload)
    modifies buf
    ensures HeadersVerdict(hs, end - 12) != Ok ==> ret == HeadersVerdict(hs, end - 12)
    ensures HeadersVerdict(hs, end - 12) == Ok ==>
              && HeadersOk(hs) && headersLen == |HeadersBytes(hs)| <= end - 12
              && var p := payload(end - 12 - headersLen);
                 if p.Refused? then ret == p.err && ret != Ok
                 else
                   && ret == Ok && payloadLen == |p.value| <= end - 12 - headersLen
                   && buf[12..12 + headersLen + payloadLen] == HeadersBytes(hs) + p.value
  {
    hide HeadersVerdict, HeadersBytes, Fitting, HeadersOk;
    headersLen, payloadLen := 0, 0;
    HeadersVerdictMeans(hs, end - 12);
    var pos;
    ret, pos := HeadersEncode(buf, 12, end, hs);
    if ret != Ok {
      return;
    }
    headersLen := pos - 12;
    assert buf[12..pos] == buf[..pos][12..] == HeadersBytes(hs);
    var p := payload(end - pos);
    Fits(payload, end - pos);
    if p.Refused? {
      return p.err, headersLen, 0;
    }
    ghost var h := buf[12..pos];
    WriteBytes(buf, pos, p.value);
    payloadLen := |p.value|;
    assert buf[12..pos] == h;
    assert buf[12..pos + payloadLen] == buf[12..pos] + buf[pos..pos + payloadLen];
  }

  /** The two lengths and their CRC, in the gap before the body. */
  method WritePrelude(table: seq<bv32>, buf: array<byte>, next: nat, messageLen: nat, headersLen: nat, ghost body: bytes)
    returns (crc: bv32)
    requires IsCrcTable(table) && 12 <= next <= buf.Length && messageLen < WORD && headersLen < WORD
    requires buf[12..next] == body
    modifies buf
    ensures var lens := Be32(messageLen) + Be32(headersLen);
            crc == Update(0, lens) && buf[..next] == lens + (CrcBytes(crc) + body)
  {
    hide Be32, Update, IsCrcTable;
    WriteBytes(buf, 4, Be32(headersLen));
    assert buf[12..next] == body;
    ghost var headers := buf[4..8];
    WriteBytes(buf, 0, Be32(messageLen));
    assert buf[12..next] == body && buf[4..8] == headers;
    ghost var lens := buf[..8];
    assert lens == buf[0..4] + buf[4..8];
    crc := UpdateCrc(table, 0, buf[..8]);
    WriteBytes(buf, 8, CrcBytes(crc));
    assert buf[12..next] == body && buf[..8] == lens;
    assert buf[..next] == buf[..8] + (buf[8..12] + buf[12..next]);
  }

  /** The prelude and the trailer, around a body that is already in place. */
  method Seal(table: seq<bv32>, buf: array<byte>, end: nat, headersLen: nat, payloadLen: nat, ghost body: bytes)
    returns (ret: Error, len: nat)
    requires IsCrcTable(table) && 12 + headersLen + payloadLen <= end <= buf.Length && end <= UINT32_MAX
    requires buf[12..12 + headersLen + payloadLen] == body
    modifies buf
    ensures ret == if end < 16 + headersLen + payloadLen then NoMem else Ok
    ensures ret == Ok ==> len == 16 + headersLen + payloadLen && buf[..len] == Sealed(headersLen, payloadLen, body)
  {
    hide Be32, Update, IsCrcTable, CrcBytes;
    var next := 12 + headersLen + payloadLen;
    var messageLen := Wrap(12 + headersLen + payloadLen + 4);
    var preludeCrc := WritePrelude(table, buf, next, messageLen, headersLen, body);
    var crcLen := Wrap(messageLen - 8 - 4);
    assert crcLen == next - 8;
    ghost var front := buf[..next];
    assert buf[8..8 + crcLen] == front[8..] == CrcBytes(preludeCrc) + body;
    var messageCrc := UpdateCrc(table, preludeCrc, buf[8..8 + crcLen]);
    if end - next < 4 {
      return NoMem, messageLen;
    }
    WriteBytes(buf, next, CrcBytes(messageCrc));
    assert buf[..next] == front;
    assert buf[..next + 4] == buf[..next] + buf[next..next + 4];
    return Ok, messageLen;
  }

  function Sealed(headersLen: nat, payloadLen: nat, body: bytes): bytes
    requires 16 + headersLen + payloadLen < WORD
  {
    var lens := Be32(16 + headersLen + payloadLen) + Be32(headersLen);
    var crc := Update(0, lens);
    var rest := CrcBytes(crc) + body;
    lens + rest + CrcBytes(Update(crc, rest))
  }

  /**
   eventstream_encode. `len` is what buf->len is set to: the packet's length on success.
   */
  method Encode(table: seq<bv32>, buf: array<byte>, hs: seq<Header>, payload: Source) returns (ret: Error, len: nat)
    requires IsCrcTable(table) && Fitting(payload)
    modifies buf
    ensures ret == EncodeVerdict(hs, payload, Min(buf.Length, UINT32_MAX))
    ensures ret == Ok ==>
              var end: nat := Min(buf.Length, UINT32_MAX);
              && HeadersOk(hs) && 12 + |HeadersBytes(hs)| <= end && payload(end - 12 - |HeadersBytes(hs)|).Got?
              && var m := Message(hs, payload(end - 12 - |HeadersBytes(hs)|).value);
              && MessageOk(m) && len == |Packet(m)| <= buf.Length && buf[..len] == Packet(m)
  {
    hide HeadersVerdict, HeadersBytes, Fitting, HeadersOk, IsCrcTable, Sealed, Packet;
    len := Min(buf.Length, UINT32_MAX);
    var end := len;
    if end < 12 {
      return NoMem, len;
    }
    HeadersVerdictMeans(hs, end - 12);
    var headersLen, payloadLen;
    ret, headersLen, payloadLen := BodyEncode(buf, end, hs, payload);
    if ret != Ok {
      return;
    }
    ghost var m := Message(hs, payload(end - 12 - headersLen).value);
    ret, len := Seal(table, buf, end, headersLen, payloadLen, HeadersBytes(hs) + m.payload);
    if ret == Ok {
      SealedIsPacket(m);
    }
  }

  lemma Fits(payload: Source, room: nat)
    requires Fitting(payload)
    ensures var r := payload(room); if r.Got? then |r.value| <= room else r.err != Ok
  {
  }

  /** The trailer's CRC, taken in two parts, is that of everything before it. */
  lemma SealedIsPacket(m: Message)
    requires MessageOk(m)
    ensures Sealed(|HeadersBytes(m.headers)|, |m.payload|, HeadersBytes(m.headers) + m.payload) == Packet(m)
  {
    hide HeadersBytes, Be32, Update;
    var h := HeadersBytes(m.headers);
    var lens := Be32(16 + |h| + |m.payload|) + Be32(|h|);
    var rest := CrcBytes(Update(0, lens)) + (h + m.payload);
    UpdateChains(0, lens, rest);
    assert lens + rest == Front(16 + |h| + |m.payload|, |h|) + h + m.payload;
  }

  /** Which error a header gives, in the order in which the checks come. */
  lemma HeaderErrors(h: Header, room: nat)
    ensures |h.name| > 255 ==> HeaderVerdict(h, room) == Range
    ensures |h.name| <= 255 && room < 2 + |h.name| ==> HeaderVerdict(h, room) == NoMem
    ensures |h.name| <= 255 && room >= 2 + |h.name| ==>
              && (h.value.Other? ==> HeaderVerdict(h, room) == Parse)
              && (h.value.Str? && |h.value.s| > 65535 ==> HeaderVerdict(h, room) == Range)
              && (HeaderOk(h) && |HeaderBytes(h)| > room ==> HeaderVerdict(h, room) == NoMem)
  {
  }

  /** Which error a packet gives: its headers' first, then the payload's, then lack of room for the trailer. */
  lemma PacketErrors(hs: seq<Header>, payload: Source, len: nat)
    requires Fitting(payload)
    ensures len < 12 ==> EncodeVerdict(hs, payload, len) == NoMem
    ensures len >= 12 && !(HeadersOk(hs) && |HeadersBytes(hs)| <= len - 12) ==> EncodeVerdict(hs, payload, len) == HeadersVerdict(hs, len - 12) != Ok
    ensures len >= 12 && HeadersOk(hs) && |HeadersBytes(hs)| <= len - 12 ==>
              var r := payload(len - 12 - |HeadersBytes(hs)|);
              EncodeVerdict(hs, payload, len) ==
              if r.Refused? then r.err else if 16 + |HeadersBytes(hs)| + |r.value| <= len then Ok else NoMem
  {
    hide HeadersVerdict, HeadersBytes, HeadersOk;
    if len >= 12 {
      HeadersVerdictMeans(hs, len - 12);
    }
  }
}
