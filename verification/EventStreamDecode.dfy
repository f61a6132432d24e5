/**
 Decoding packets (src/eventstream/decode.c, src/eventstream/rpc.c): headers are validated once and
 then walked by an iterator that checks nothing; packets are cut from a byte stream one at a time.
 */
module EventStreamDecode {
  import opened Common
  import opened Memory
  import opened Crc
  import opened Wire

  // ---------- headers ----------

  /** count_headers. */
  method CountHeaders(s: bytes) returns (ret: Error, count: nat)
    ensures ret == if ParseHeaders(s).Some? then Ok else Parse
    ensures ret == Ok ==> count == |ParseHeaders(s).value|
  {
    hide TakeHeader, ReadHeader;
    count := 0;
    var rest := s;
    while |rest| > 0
      invariant ParseHeaders(rest).Some? <==> ParseHeaders(s).Some?
      invariant ParseHeaders(s).Some? ==> count + |ParseHeaders(rest).value| == |ParseHeaders(s).value|
      decreases |rest|
    {
      var n := TakeHeader(rest);
      if n == None {
        return Parse, 0;
      }
      rest := rest[n.value..];
      count := count + 1;
    }
    ret := Ok;
  }

  /** EventStreamHeaderIter. */
  class HeaderIter {
    const mem: array<byte>
    var pos: nat
    var count: nat

    /** What is left: `count` whole headers, taking exactly the bytes up to `end`. */
    ghost predicate Holds(end: nat, hs: seq<Header>)
      reads this, mem
    {
      pos <= end <= mem.Length && ParseHeaders(mem[pos..end]) == Some(hs) && count == |hs|
    }

    constructor (m: array<byte>, at: nat, n: nat)
      ensures mem == m && pos == at && count == n
    {
      mem, pos, count := m, at, n;
    }

    /** eventstream_header_next: no bounds are checked; that it stays below `end` is proved. */
    method Next(ghost end: nat, ghost hs: seq<Header>) returns (ret: Error, h: Header)
      requires Holds(end, hs)
      modifies this
      ensures ret == if hs == [] then Range else Ok
      ensures hs == [] ==> pos == old(pos) && count == old(count)
      ensures hs != [] ==> h == hs[0] && Holds(end, hs[1..])
    {
      hide ReadHeader, TakeHeader, ParseHeaders, ReadBe32;
      h := Header([], Int32(0));
      if count < 1 {
        return Range, h;
      }
      ghost var s := mem[pos..end];
      HeadersFirst(s, hs);
      var next;
      next, h := Read(end);
      assert s[next - pos..] == mem[next..end];
      pos, count := next, count - 1;
      return Ok, h;
    }

    /** The fields of the header at `pos`, one after the other. */
    method Read(ghost end: nat) returns (next: nat, h: Header)
      requires pos <= end <= mem.Length && TakeHeader(mem[pos..end]).Some?
      ensures next == pos + TakeHeader(mem[pos..end]).value && h == ReadHeader(mem[pos..end])
    {
      hide ReadHeader, TakeHeader, ReadBe32;
      assert mem[pos..end] == mem[..][pos..end];
      HeaderInMemory(mem[..], pos, end);
      var p := pos;
      var nameLen := Num(mem[p]);
      p := p + 1;
      var name := mem[p..p + nameLen];
      p := p + nameLen;
      var ty := mem[p];
      p := p + 1;
      if ty == INT32_TYPE {
        return p + 4, Header(name, Int32(Signed(ReadBe32(mem[p..p + 4]))));
      }
      var len := Num(mem[p]) * 256 + Num(mem[p + 1]);
      p := p + 2;
      return p + len, Header(name, Str(mem[p..p + len]));
    }
  }

  lemma Within(m: bytes, pos: nat, end: nat, a: nat, b: nat)
    requires pos <= end <= |m| && a <= b <= end - pos
    ensures m[pos..end][a..b] == m[pos + a..pos + b]
  {
    var x, y := m[pos..end][a..b], m[pos + a..pos + b];
    forall i | 0 <= i < |x| ensures x[i] == y[i] {
      assert x[i] == m[pos..end][a + i] == m[pos + a + i];
    }
  }

  /** A header inside memory, field by field. */
  lemma HeaderInMemory(m: bytes, pos: nat, end: nat)
    requires pos <= end <= |m| && TakeHeader(m[pos..end]).Some?
    ensures var h, n := ReadHeader(m[pos..end]), TakeHeader(m[pos..end]).value;
            var p := pos + 1 + Num(m[pos]);
            && pos + n <= end && p < end && h.name == m[pos + 1..p]
            && if m[p] == INT32_TYPE then
                 pos + n == p + 5 && h.value == Int32(Signed(ReadBe32(m[p + 1..p + 5])))
               else
                 && p + 2 < end && pos + n == p + 3 + Num(m[p + 1]) * 256 + Num(m[p + 2])
                 && h.value == Str(m[p + 3..pos + n])
  {
    hide ReadBe32;
    var s, k := m[pos..end], 1 + Num(m[pos]);
    var n := TakeHeader(s).value;
    assert s[0] == m[pos] && k < |s| && s[k] == m[pos + k];
    Within(m, pos, end, 1, k);
    if s[k] == INT32_TYPE {
      Within(m, pos, end, k + 1, k + 5);
    } else {
      assert s[k + 1] == m[pos + k + 1] && s[k + 2] == m[pos + k + 2];
      Within(m, pos, end, k + 3, n);
    }
  }

  /** The first of some validated headers. */
  lemma {:induction false} HeadersFirst(s: bytes, hs: seq<Header>)
    requires ParseHeaders(s) == Some(hs) && hs != []
    ensures TakeHeader(s).Some? && ReadHeader(s) == hs[0] && ParseHeaders(s[TakeHeader(s).value..]) == Some(hs[1..])
  {
    hide TakeHeader, ReadHeader;
    var n := TakeHeader(s).value;
    var rest := ParseHeaders(s[n..]).value;
    assert ([ReadHeader(s)] + rest)[1..] == rest;
  }

  /** Running the iterator until it refuses yields the headers in order and ends exactly at their end. */
  method ReadAll(it: HeaderIter, ghost end: nat, ghost all: seq<Header>) returns (hs: seq<Header>)
    requires it.Holds(end, all)
    modifies it
    ensures hs == all && it.pos == end && it.count == 0
  {
    hide ParseHeaders;
    hs := [];
    ghost var left := all;
    while true
      invariant it.Holds(end, left) && hs + left == all
      decreases |left|
    {
      var ret, h := it.Next(end, left);
      if ret != Ok {
        break;
      }
      hs := hs + [h];
      left := left[1..];
    }
    assert hs + [] == hs;
    NothingLeft(it.mem[it.pos..end]);
  }

  lemma NothingLeft(s: bytes)
    requires ParseHeaders(s) == Some([])
    ensures s == []
  {
  }

  // ---------- common headers ----------

  const MESSAGE_TYPE: bytes := Ascii(":message-type")
  const MESSAGE_FLAGS: bytes := Ascii(":message-flags")
  const STREAM_ID: bytes := Ascii(":stream-id")

  predicate IsCommon(name: bytes) {
    name == MESSAGE_TYPE || name == MESSAGE_FLAGS || name == STREAM_ID
  }

  /** None of the headers that must be integers is anything else. */
  predicate CommonOk(hs: seq<Header>) {
    forall h :: h in hs && IsCommon(h.name) ==> h.value.Int32?
  }

  lemma CommonNames(name: bytes)
    ensures IsCommon(name) <==> name == Ascii(":message-type") || name == Ascii(":message-flags") || name == Ascii(":stream-id")
  {
  }

  /** The value of the last header of that name, or 0. */
  function LastInt(hs: seq<Header>, name: bytes): int {
    if hs == [] then 0
    else
      var h := hs[|hs| - 1];
      if h.name == name && h.value.Int32? then h.value.i else LastInt(hs[..|hs| - 1], name)
  }

  lemma {:induction false} LastIntMeans(hs: seq<Header>, name: bytes, i: nat)
    requires i < |hs| && hs[i].name == name && hs[i].value.Int32?
    requires forall j :: i < j < |hs| ==> hs[j].name != name
    ensures LastInt(hs, name) == hs[i].value.i
  {
    if i < |hs| - 1 {
      LastIntMeans(hs[..|hs| - 1], name, i);
    }
  }

  /** A header that is absent counts as 0. */
  lemma {:induction false} AbsentIsZero(hs: seq<Header>, name: bytes)
    requires forall h :: h in hs ==> h.name != name
    ensures LastInt(hs, name) == 0
  {
    if hs != [] {
      assert hs[|hs| - 1] in hs;
      AbsentIsZero(hs[..|hs| - 1], name);
    }
  }

  lemma NamesDiffer()
    ensures MESSAGE_TYPE != MESSAGE_FLAGS && MESSAGE_TYPE != STREAM_ID && MESSAGE_FLAGS != STREAM_ID
  {
    assert |MESSAGE_TYPE| == 13 && |MESSAGE_FLAGS| == 14 && |STREAM_ID| == 10;
  }

  /** eventstream_get_common_headers. */
  method GetCommonHeaders(it: HeaderIter, ghost end: nat, ghost all: seq<Header>)
    returns (ret: Error, messageType: int, messageFlags: int, streamId: int)
    requires it.Holds(end, all)
    modifies it
    ensures ret == if CommonOk(all) then Ok else Invalid
    ensures ret == Ok ==>
              && messageType == LastInt(all, Ascii(":message-type")) && messageFlags == LastInt(all, Ascii(":message-flags"))
              && streamId == LastInt(all, Ascii(":stream-id"))
  {
    hide ParseHeaders;
    NamesDiffer();
    messageType, messageFlags, streamId := 0, 0, 0;
    ghost var done: seq<Header> := [];
    ghost var left := all;
    while true
      invariant it.Holds(end, left) && done + left == all && CommonOk(done)
      invariant messageType == LastInt(done, MESSAGE_TYPE) && messageFlags == LastInt(done, MESSAGE_FLAGS)
      invariant streamId == LastInt(done, STREAM_ID)
      decreases |left|
    {
      ghost var before := left;
      var r, h := it.Next(end, left);
      if r != Ok {
        break;
      }
      if IsCommon(h.name) && !h.value.Int32? {
        assert h in all;
        return Invalid, messageType, messageFlags, streamId;
      }
      if h.name == MESSAGE_TYPE {
        messageType := h.value.i;
      } else if h.name == MESSAGE_FLAGS {
        messageFlags := h.value.i;
      } else if h.name == STREAM_ID {
        streamId := h.value.i;
      }
      assert (done + [h])[..|done|] == done;
      done, left := done + [h], left[1..];
      assert done + left == all;
    }
    assert done == all;
    ret := Ok;
  }

  // ---------- packets ----------

  /** eventstream_decode on the first `dataLen` bytes of the buffer. */
  method DecodeMessage(table: seq<bv32>, prelude: Prelude, buf: array<byte>)
    returns (ret: Error, it: HeaderIter, payload: bytes)
    requires IsCrcTable(table) && 4 <= prelude.dataLen <= buf.Length && prelude.headersLen <= prelude.dataLen - 4
    ensures fresh(it)
    ensures var m := DecodeData(prelude, buf[..prelude.dataLen]);
            if m.Refused? then ret == m.err && ret != Ok
            else ret == Ok && it.mem == buf && it.pos == 0 && it.Holds(prelude.headersLen, m.value.headers) && payload == m.value.payload
  {
    hide Update, ParseHeaders, IsCrcTable, ReadBe32;
    ghost var data := buf[..prelude.dataLen];
    var n := prelude.dataLen - 4;
    assert data[..n] == buf[..n] && data[n..] == buf[n..prelude.dataLen];
    it := new HeaderIter(buf, 0, 0);
    payload := [];
    var crc := UpdateCrc(table, prelude.crc, buf[..n]);
    if crc as int != ReadBe32(buf[n..prelude.dataLen]) {
      return Parse, it, payload;
    }
    assert data[..prelude.headersLen] == buf[0..prelude.headersLen];
    var count;
    ret, count := CountHeaders(buf[0..prelude.headersLen]);
    if ret != Ok {
      return;
    }
    it := new HeaderIter(buf, 0, count);
    assert data[prelude.headersLen..n] == buf[prelude.headersLen..n];
    payload := buf[prelude.headersLen..n];
  }

  /** What reading one packet from a stream gives, and how many bytes it takes from it. */
  datatype Framed = Framed(ret: Error, msg: Message, used: nat)

  const NO_MESSAGE := Message([], [])

  function NextPacket(s: bytes, room: nat): (r: Framed)
    ensures r.used <= |s|
  {
    if |s| < 12 then Framed(Failure, NO_MESSAGE, |s|)
    else
      match DecodePrelude(s[..12])
      case Refused(e) => Framed(e, NO_MESSAGE, 12)
      case Got(prelude) =>
        if prelude.dataLen > room then Framed(NoMem, NO_MESSAGE, 12)
        else if |s| < 12 + prelude.dataLen then Framed(Failure, NO_MESSAGE, |s|)
        else
          match DecodeData(prelude, s[12..12 + prelude.dataLen])
          case Refused(e) => Framed(e, NO_MESSAGE, 12 + prelude.dataLen)
          case Got(m) => Framed(Ok, m, 12 + prelude.dataLen)
  }

  /** The socket: bytes that arrive in order. */
  class Input {
    const data: bytes
    var pos: nat

    ghost predicate Valid()
      reads this
    {
      pos <= |data|
    }

    ghost function Rest(): bytes
      requires Valid()
      reads this
    {
      data[pos..]
    }

    constructor (d: bytes)
      ensures Valid() && Rest() == d
    {
      data, pos := d, 0;
    }

    /** gg_reader_call_exact: as much as there is, and failure if that is not enough. */
    method ReadExact(buf: array<byte>, n: nat) returns (ret: Error)
      requires Valid() && n <= buf.Length
      modifies this, buf
      ensures Valid()
      ensures ret == if n <= |old(Rest())| then Ok else Failure
      ensures Rest() == old(Rest())[Min(n, |old(Rest())|)..]
      ensures ret == Ok ==> buf[..n] == old(Rest())[..n]
    {
      var k := Min(n, |data| - pos);
      WriteBytes(buf, 0, data[pos..pos + k]);
      assert buf[0..k] == buf[..k];
      pos := pos + k;
      return if k == n then Ok else Failure;
    }
  }

  /** eventsteam_get_packet: the buffer holds the prelude first and then the rest of the packet. */
  method GetPacket(table: seq<bv32>, input: Input, buffer: array<byte>)
    returns (ret: Error, it: HeaderIter, payload: bytes, ghost end: nat)
    requires IsCrcTable(table) && input.Valid() && buffer.Length >= 12
    modifies input, buffer
    ensures fresh(it) && input.Valid()
    ensures var r := NextPacket(old(input.Rest()), buffer.Length);
            && ret == r.ret && input.Rest() == old(input.Rest())[r.used..]
            && (ret == Ok ==> it.Holds(end, r.msg.headers) && payload == r.msg.payload)
  {
    hide Update, ParseHeaders, IsCrcTable, ReadBe32, DecodePrelude, DecodeData;
    ghost var s := input.Rest();
    it := new HeaderIter(buffer, 0, 0);
    payload, end := [], 0;
    ret := input.ReadExact(buffer, 12);
    if ret != Ok {
      return;
    }
    var prelude := ReadPrelude(table, buffer);
    if prelude.Refused? {
      return prelude.err, it, payload, end;
    }
    var n := prelude.value.dataLen;
    if n > buffer.Length {
      return NoMem, it, payload, end;
    }
    ghost var rest := input.Rest();
    ret := input.ReadExact(buffer, n);
    assert |rest| == |s| - 12;
    if ret != Ok {
      assert rest[|rest|..] == s[|s|..];
      return;
    }
    assert rest[n..] == s[12 + n..];
    assert buffer[..n] == s[12..12 + n];
    ret, it, payload := DecodeMessage(table, prelude.value, buffer);
    end := prelude.value.headersLen;
  }

  /** eventstream_decode_prelude on the first bytes of the buffer. */
  method ReadPrelude(table: seq<bv32>, buf: array<byte>) returns (r: Answer<Prelude>)
    requires IsCrcTable(table) && buf.Length >= 12
    ensures r == DecodePrelude(buf[..12])
    ensures r.Refused? ==> r.err != Ok
  {
    hide Update, IsCrcTable, ReadBe32;
    ghost var s := buf[..12];
    assert s[..8] == buf[..8] && s[8..12] == buf[8..12] && s[..4] == buf[..4] && s[4..8] == buf[4..8];
    var crc := UpdateCrc(table, 0, buf[..8]);
    if crc as int != ReadBe32(buf[8..12]) {
      return Refused(Parse);
    }
    var message, headers := ReadBe32(buf[..4]), ReadBe32(buf[4..8]);
    if message < 16 {
      return Refused(Parse);
    }
    if headers > message - 16 {
      return Refused(Parse);
    }
    var whole := UpdateCrc(table, crc, buf[8..12]);
    return Got(Prelude(message - 12, headers, whole));
  }

  /** Refusals: too short for a prelude, a prelude or packet that does not check, one that does not fit, a stream that ends. */
  lemma ReadErrors(s: bytes, room: nat)
    ensures var r := NextPacket(s, room);
            && (|s| < 12 ==> r.ret == Failure && r.used == |s|)
            && (|s| >= 12 && DecodePrelude(s).Refused? ==> r.ret == Parse && r.used == 12)
            && (|s| >= 12 && DecodePrelude(s).Got? ==>
                  var n := DecodePrelude(s).value.dataLen;
                  if n > room then r.ret == NoMem && r.used == 12
                  else if |s| < 12 + n then r.ret == Failure && r.used == |s|
                  else r.used == 12 + n && (r.ret == Ok || r.ret == Parse))
  {
    hide Update, ReadBe32, ParseHeaders;
    if |s| >= 12 {
      PreludeLocal(s);
    }
  }

  /** A prelude is refused for its CRC, for a message shorter than 16 bytes, or for headers longer than the message allows. */
  lemma PreludeRefusals(s: bytes)
    ensures |s| < 12 ==> DecodePrelude(s) == Refused(Range)
    ensures |s| >= 12 ==>
              (DecodePrelude(s) == Refused(Parse) <==>
               Update(0, s[..8]) as int != ReadBe32(s[8..12]) || ReadBe32(s[..4]) < 16 || ReadBe32(s[4..8]) > ReadBe32(s[..4]) - 16)
  {
    hide Update, ReadBe32;
  }

  // ---------- framing ----------

  lemma {:induction false} PacketReads(m: Message, rest: bytes, room: nat)
    requires MessageOk(m) && |Packet(m)| - 12 <= room
    ensures NextPacket(Packet(m) + rest, room) == Framed(Ok, m, |Packet(m)|)
  {
    hide Update, HeadersBytes, Be32, DecodePrelude, DecodeData;
    var h := HeadersBytes(m.headers);
    var front := Front(16 + |h| + |m.payload|, |h|);
    var p := Packet(m);
    var s := p + rest;
    PreludeReads(16 + |h| + |m.payload|, |h|, []);
    assert front + [] == front;
    assert s[..12] == p[..12] == front;
    assert s[12..|p|] == p[12..];
    DataReads(m);
  }

  /** A packet that is accepted is the encoding of the message it gives. */
  lemma {:induction false} ReadIsPacket(s: bytes, room: nat)
    requires NextPacket(s, room).ret == Ok
    ensures var r := NextPacket(s, room); MessageOk(r.msg) && s[..r.used] == Packet(r.msg) && 16 <= r.used
  {
    hide Update, HeadersBytes, Be32, ReadBe32, DecodeData, Packet;
    var r := NextPacket(s, room);
    var p := s[..r.used];
    assert p[..12] == s[..12] && p[12..] == s[12..r.used];
    PreludeLocal(p);
    PreludeErrors(s[..12]);
    DataErrors(DecodePrelude(s[..12]).value, p[12..]);
    AcceptedIsPacket(p);
  }

  /** Only the first twelve bytes matter to the prelude. */
  lemma PreludeLocal(s: bytes)
    requires |s| >= 12
    ensures DecodePrelude(s) == DecodePrelude(s[..12])
  {
    hide Update, ReadBe32;
    var t := s[..12];
    assert t[..8] == s[..8] && t[8..12] == s[8..12] && t[..4] == s[..4] && t[4..8] == s[4..8];
  }

  lemma PreludeErrors(s: bytes)
    ensures DecodePrelude(s).Refused? ==> DecodePrelude(s).err != Ok
  {
    hide Update, ReadBe32;
  }

  lemma DataErrors(prelude: Prelude, data: bytes)
    requires |data| == prelude.dataLen >= 4 && prelude.headersLen <= |data| - 4
    ensures DecodeData(prelude, data).Refused? ==> DecodeData(prelude, data).err != Ok
  {
    hide Update, ReadBe32, ParseHeaders;
  }

  function Stream(ms: seq<Message>): bytes
    requires forall m :: m in ms ==> MessageOk(m)
  {
    if ms == [] then [] else Packet(ms[0]) + Stream(ms[1..])
  }

  /** Reading packets until the stream ends. */
  function ReadPackets(s: bytes, room: nat): Option<seq<Message>>
    decreases |s|
  {
    if s == [] then Some([])
    else
      var r := NextPacket(s, room);
      if r.ret != Ok then None
      else
        ReadIsPacket(s, room);
        match ReadPackets(s[r.used..], room)
        case None => None
        case Some(ms) => Some([r.msg] + ms)
  }

  /**
   Framing: reading a concatenation of encoded packets gives exactly those messages, and only such a
   concatenation can be read to its end.
   */
  lemma {:induction false} Framing(ms: seq<Message>, room: nat)
    requires forall m :: m in ms ==> MessageOk(m) && |Packet(m)| - 12 <= room
    ensures ReadPackets(Stream(ms), room) == Some(ms)
  {
    hide NextPacket, Packet, MessageOk;
    if ms != [] {
      assert ms[0] in ms;
      var p, rest := Packet(ms[0]), Stream(ms[1..]);
      PacketReads(ms[0], rest, room);
      assert (p + rest)[|p|..] == rest;
      Framing(ms[1..], room);
      assert [ms[0]] + ms[1..] == ms;
    }
  }

  lemma {:induction false} FramingInverse(s: bytes, room: nat)
    requires ReadPackets(s, room).Some?
    ensures var ms := ReadPackets(s, room).value; (forall m :: m in ms ==> MessageOk(m)) && Stream(ms) == s
    decreases |s|
  {
    hide NextPacket, Packet, MessageOk;
    if s != [] {
      var r := NextPacket(s, room);
      ReadIsPacket(s, room);
      FramingInverse(s[r.used..], room);
      var ms := ReadPackets(s[r.used..], room).value;
      assert ([r.msg] + ms)[1..] == ms;
      assert s == s[..r.used] + s[r.used..];
    }
  }
}
