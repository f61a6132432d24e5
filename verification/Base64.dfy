/**
 Base64 (src/base64.c; sections 3.5 and 4 of RFC 4648): the decoder accepts exactly the texts that
 the encoder produces.
 */
module Base64 {
  import opened Common
  import opened Memory

  const PADDING: byte := 0x3D

  type digit = d: int | 0 <= d < 64

  /** base64_char_to_byte. */
  function CharValue(c: byte): Option<digit> {
    if 0x41 <= c <= 0x5A then Some(Num(c) - 0x41)
    else if 0x61 <= c <= 0x7A then Some(Num(c) - 0x61 + 26)
    else if 0x30 <= c <= 0x39 then Some(Num(c) - 0x30 + 52)
    else if c == 0x2B then Some(62)
    else if c == 0x2F then Some(63)
    else None
  }

  /** BASE64_TABLE. */
  function CharOf(d: digit): byte {
    if d < 26 then 0x41 + d as int
    else if d < 52 then 0x61 + (d as int - 26)
    else if d < 62 then 0x30 + (d as int - 52)
    else if d == 62 then 0x2B
    else 0x2F
  }

  lemma CharsRoundTrip(d: digit, c: byte)
    ensures CharValue(CharOf(d)) == Some(d) && CharOf(d) != PADDING
    ensures CharValue(c).Some? ==> CharOf(CharValue(c).value) == c
  {
  }

  lemma Upper1(d: nat)
    requires d < 13
    ensures CharOf(d) == Ascii("ABCDEFGHIJKLM")[d]
  {
  }

  lemma Upper2(d: nat)
    requires d < 13
    ensures CharOf(13 + d) == Ascii("NOPQRSTUVWXYZ")[d]
  {
  }

  lemma Lower1(d: nat)
    requires d < 13
    ensures CharOf(26 + d) == Ascii("abcdefghijklm")[d]
  {
  }

  lemma Lower2(d: nat)
    requires d < 13
    ensures CharOf(39 + d) == Ascii("nopqrstuvwxyz")[d]
  {
  }

  lemma Figures(d: nat)
    requires d < 12
    ensures CharOf(52 + d) == Ascii("0123456789+/")[d]
  {
  }

  /** The alphabet of section 4 of RFC 4648, in five parts. */
  lemma Alphabet(d: digit)
    ensures d < 13 ==> CharOf(d) == Ascii("ABCDEFGHIJKLM")[d]
    ensures 13 <= d < 26 ==> CharOf(d) == Ascii("NOPQRSTUVWXYZ")[d - 13]
    ensures 26 <= d < 39 ==> CharOf(d) == Ascii("abcdefghijklm")[d - 26]
    ensures 39 <= d < 52 ==> CharOf(d) == Ascii("nopqrstuvwxyz")[d - 39]
    ensures 52 <= d ==> CharOf(d) == Ascii("0123456789+/")[d - 52]
    ensures [PADDING] == Ascii("=")
  {
    hide CharOf;
    if d < 13 {
      Upper1(d);
    } else if d < 26 {
      Upper2(d - 13);
    } else if d < 39 {
      Lower1(d - 26);
    } else if d < 52 {
      Lower2(d - 39);
    } else {
      Figures(d - 52);
    }
  }

  // ---------- groups of three bytes ----------

  /** The bits of up to three bytes, as the encoder gathers them. */
  function Chunk(s: bytes): (c: int)
    requires 1 <= |s| <= 3
    ensures 0 <= c < 0x100_0000
  {
    Num(s[0]) * 0x1_0000 + (if |s| > 1 then Num(s[1]) * 256 else 0) + (if |s| > 2 then Num(s[2]) else 0)
  }

  /** The chunk shifted right and masked. */
  function Sextet(c: int, k: nat): digit
    requires 0 <= c < 0x100_0000 && k < 4
  {
    if k == 0 then c / 0x4_0000 else if k == 1 then c / 0x1000 % 64 else if k == 2 then c / 64 % 64 else c % 64
  }

  function EncodeGroup(s: bytes): (r: bytes)
    requires 1 <= |s| <= 3
    ensures |r| == 4
  {
    var c := Chunk(s);
    [CharOf(Sextet(c, 0)), CharOf(Sextet(c, 1)),
     if |s| > 1 then CharOf(Sextet(c, 2)) else PADDING,
     if |s| > 2 then CharOf(Sextet(c, 3)) else PADDING]
  }

  function EncodeAll(s: bytes): (r: bytes)
    ensures |r| == (|s| + 2) / 3 * 4
    decreases |s|
  {
    if s == [] then []
    else if |s| <= 3 then EncodeGroup(s)
    else EncodeGroup(s[..3]) + EncodeAll(s[3..])
  }

  function HighByte(d0: digit, d1: digit): byte {
    d0 as int * 4 + d1 as int / 16
  }

  function MiddleByte(d1: digit, d2: digit): byte {
    d1 as int % 16 * 16 + d2 as int / 4
  }

  function LowByte(d2: digit, d3: digit): byte {
    d2 as int % 4 * 64 + d3 as int
  }

  /** base64_decode_segment: one to three bytes, fewer than three only from a padded segment. */
  function DecodeGroup(t: bytes): (r: Option<bytes>)
    requires |t| == 4
    ensures r.Some? ==> 1 <= |r.value| <= 3
  {
    var d0, d1, d2, d3 := CharValue(t[0]), CharValue(t[1]), CharValue(t[2]), CharValue(t[3]);
    if d0.None? || d1.None? then None
    else
      var high := HighByte(d0.value, d1.value);
      if t[2] == PADDING then
        if t[3] != PADDING || MiddleByte(d1.value, 0) != 0 then None else Some([high])
      else if d2.None? then None
      else
        var middle := MiddleByte(d1.value, d2.value);
        if t[3] == PADDING then if LowByte(d2.value, 0) != 0 then None else Some([high, middle])
        else if d3.None? then None
        else Some([high, middle, LowByte(d2.value, d3.value)])
  }

  /** gg_base64_decode: segment by segment; nothing may follow a padded one. */
  function DecodeAll(t: bytes): (r: Option<bytes>)
    decreases |t|
  {
    if t == [] then Some([])
    else if |t| < 4 then None
    else
      match DecodeGroup(t[..4])
      case None => None
      case Some(v) =>
        if |v| < 3 && |t| > 4 then None
        else
          match DecodeAll(t[4..])
          case None => None
          case Some(rest) => Some(v + rest)
  }

  // ---------- round trips ----------

  /** The digits of three bytes. */
  datatype Digits = Digits(d0: digit, d1: digit, d2: digit, d3: digit)

  function ToDigits(a: byte, b: byte, c: byte): Digits {
    Digits(Num(a) / 4, Num(a) % 4 * 16 + Num(b) / 16, Num(b) % 16 * 4 + Num(c) / 64, Num(c) % 64)
  }

  lemma FromDigits(a: byte, b: byte, c: byte)
    ensures var d := ToDigits(a, b, c);
            HighByte(d.d0, d.d1) == a && MiddleByte(d.d1, d.d2) == b && LowByte(d.d2, d.d3) == c
    ensures b == 0 && c == 0 ==> ToDigits(a, b, c).d2 == 0
    ensures c == 0 ==> ToDigits(a, b, c).d3 == 0
  {
  }

  lemma Regrouped(d0: int, d1: int, d2: int, d3: int)
    requires 0 <= d0 < 64 && 0 <= d1 < 64 && 0 <= d2 < 64 && 0 <= d3 < 64
    ensures var a, b, c := d0 * 4 + d1 / 16, d1 % 16 * 16 + d2 / 4, d2 % 4 * 64 + d3;
            a / 4 == d0 && a % 4 * 16 + b / 16 == d1 && b % 16 * 4 + c / 64 == d2 && c % 64 == d3
  {
  }

  lemma DigitsBack(d0: digit, d1: digit, d2: digit, d3: digit)
    ensures ToDigits(HighByte(d0, d1), MiddleByte(d1, d2), LowByte(d2, d3)) == Digits(d0, d1, d2, d3)
  {
    Regrouped(d0, d1, d2, d3);
  }

  lemma Split(q: int, r: int)
    requires 0 <= r < 64
    ensures (q * 64 + r) / 64 == q && (q * 64 + r) % 64 == r
  {
  }

  lemma FirstSextet(a: int, b: int, c: int)
    requires 0 <= a < 256 && 0 <= b < 256 && 0 <= c < 256
    ensures (a * 0x1_0000 + b * 256 + c) / 0x4_0000 == a / 4
  {
    assert a * 0x1_0000 + b * 256 + c == (a / 4) * 0x4_0000 + (a % 4 * 0x1_0000 + b * 256 + c);
  }

  lemma Quotient(q: int, r: int)
    requires 0 <= r < 0x1000
    ensures (q * 0x1000 + r) / 0x1000 == q
  {
  }

  lemma SecondSextet(a: int, b: int, c: int)
    requires 0 <= a < 256 && 0 <= b < 256 && 0 <= c < 256
    ensures (a * 0x1_0000 + b * 256 + c) / 0x1000 % 64 == a % 4 * 16 + b / 16
  {
    Quotient(a * 16 + b / 16, b % 16 * 256 + c);
    Split(a / 4, a % 4 * 16 + b / 16);
  }

  lemma ThirdSextet(a: int, b: int, c: int)
    requires 0 <= a < 256 && 0 <= b < 256 && 0 <= c < 256
    ensures (a * 0x1_0000 + b * 256 + c) / 64 % 64 == b % 16 * 4 + c / 64
  {
    Split(a * 1024 + b * 4 + c / 64, c % 64);
    Split(a * 16 + b / 16, b % 16 * 4 + c / 64);
  }

  lemma LastSextet(a: int, b: int, c: int)
    requires 0 <= a < 256 && 0 <= b < 256 && 0 <= c < 256
    ensures (a * 0x1_0000 + b * 256 + c) % 64 == c % 64
  {
    Split(a * 1024 + b * 4 + c / 64, c % 64);
  }

  function ByteOr0(s: bytes, i: nat): byte {
    if i < |s| then s[i] else 0
  }

  /** Shifting and masking the chunk picks out those digits. */
  lemma ChunkDigits(s: bytes)
    requires 1 <= |s| <= 3
    ensures var d, c := ToDigits(s[0], ByteOr0(s, 1), ByteOr0(s, 2)), Chunk(s);
            Sextet(c, 0) == d.d0 && Sextet(c, 1) == d.d1 && Sextet(c, 2) == d.d2 && Sextet(c, 3) == d.d3
  {
    var a, b, c := Num(s[0]), Num(ByteOr0(s, 1)), Num(ByteOr0(s, 2));
    assert Chunk(s) == a * 0x1_0000 + b * 256 + c;
    FirstSextet(a, b, c);
    SecondSextet(a, b, c);
    ThirdSextet(a, b, c);
    LastSextet(a, b, c);
  }

  lemma GroupDecodes(s: bytes)
    requires 1 <= |s| <= 3
    ensures DecodeGroup(EncodeGroup(s)) == Some(s)
  {
    hide CharValue, CharOf, Sextet, Chunk, ToDigits, HighByte, MiddleByte, LowByte;
    ChunkDigits(s);
    assert s == if |s| == 1 then [s[0]] else if |s| == 2 then [s[0], s[1]] else [s[0], s[1], s[2]];
    var d := ToDigits(s[0], ByteOr0(s, 1), ByteOr0(s, 2));
    FromDigits(s[0], ByteOr0(s, 1), ByteOr0(s, 2));
    CharsRoundTrip(d.d0, 0);
    CharsRoundTrip(d.d1, 0);
    CharsRoundTrip(d.d2, 0);
    CharsRoundTrip(d.d3, 0);
  }

  /** Unused bits are refused, so an accepted segment is the only one for its bytes. */
  lemma GroupEncodes(t: bytes)
    requires |t| == 4 && DecodeGroup(t).Some?
    ensures EncodeGroup(DecodeGroup(t).value) == t
  {
    hide CharValue, CharOf, Sextet, Chunk, ToDigits, HighByte, MiddleByte, LowByte;
    CharsRoundTrip(0, t[0]);
    CharsRoundTrip(0, t[1]);
    CharsRoundTrip(0, t[2]);
    CharsRoundTrip(0, t[3]);
    ChunkDigits(DecodeGroup(t).value);
    var e2 := if t[2] == PADDING then 0 else CharValue(t[2]).value;
    var e3 := if t[3] == PADDING then 0 else CharValue(t[3]).value;
    DigitsBack(CharValue(t[0]).value, CharValue(t[1]).value, e2, e3);
    assert LowByte(0, 0) == 0 by { NoBits(); }
  }

  lemma NoBits()
    ensures LowByte(0, 0) == 0
  {
  }

  /** Decoding undoes encoding. */
  lemma {:induction false} DecodeEncoded(s: bytes)
    ensures DecodeAll(EncodeAll(s)) == Some(s)
    decreases |s|
  {
    hide DecodeGroup, EncodeGroup;
    if s != [] {
      var g := if |s| <= 3 then s else s[..3];
      var rest := s[|g|..];
      GroupDecodes(g);
      var e := EncodeGroup(g);
      if |s| <= 3 {
        assert e[..4] == e && e[4..] == [];
        assert s + [] == s;
      } else {
        DecodeEncoded(rest);
        var t := e + EncodeAll(rest);
        assert t[..4] == e && t[4..] == EncodeAll(rest);
        assert g + rest == s;
      }
    }
  }

  /** Every text that is accepted is the encoding of its result. */
  lemma {:induction false} EncodeDecoded(t: bytes)
    requires DecodeAll(t).Some?
    ensures EncodeAll(DecodeAll(t).value) == t
    decreases |t|
  {
    hide DecodeGroup, EncodeGroup;
    if t != [] {
      var v := DecodeGroup(t[..4]).value;
      var rest := DecodeAll(t[4..]).value;
      GroupEncodes(t[..4]);
      EncodeDecoded(t[4..]);
      assert t == t[..4] + t[4..];
      if |t| == 4 {
        assert t[4..] == [] && rest == [] && v + rest == v;
      } else {
        assert |rest| > 0;
        assert (v + rest)[..3] == v && (v + rest)[3..] == rest;
      }
    }
  }

  // ---------- as it runs ----------

  /**
   gg_base64_decode from `len` bytes of `mem` at `from` into `room` bytes of `target` at `at`. The two may
   be the same bytes: the write position stays at or behind the segment that has been read.
   */
  method Decode(mem: array<byte>, from: nat, len: nat, target: array<byte>, at: nat, room: nat)
    returns (ok: bool, n: nat)
    requires from + len <= mem.Length && at + room <= target.Length && (mem == target ==> at == from)
    modifies target
    ensures ok <==> DecodeAll(old(mem[from..from + len])).Some? && room >= len / 4 * 3
    ensures ok ==> n <= room && DecodeAll(old(mem[from..from + len])) == Some(target[at..at + n])
  {
    hide DecodeGroup, DecodeAll, SoFar;
    ghost var s := mem[from..from + len];
    n := 0;
    if len % 4 != 0 {
      WholeSegments(s);
      return false, 0;
    }
    if room < len / 4 * 3 {
      return false, 0;
    }
    var last := false;
    var i := 0;
    ghost var k, segments := 0, len / 4;
    assert len == 4 * segments && target[at..at] == [];
    Begun(s);
    while i < len
      invariant 0 <= i <= len && i == 4 * k && n <= 3 * k
      invariant SoFar(s, mem[from + i..from + len], target[at..at + n], last)
    {
      ghost var rest, done := mem[from + i..from + len], target[at..at + n];
      var segment := mem[from + i..from + i + 4];
      assert segment == rest[..4];
      SegmentTaken(s, rest, done, last);
      if last {
        return false, 0;
      }
      var group := DecodeGroup(segment);
      if group == None {
        return false, 0;
      }
      assert mem[from + i + 4..from + len] == rest[4..];
      WriteBehind(mem, from + i + 4, from + len, target, at, at + n, group.value);
      n := n + |group.value|;
      last := |group.value| != 3;
      i, k := i + 4, k + 1;
    }
    assert mem[from + i..from + len] == [];
    Finished(s, target[at..at + n], last);
    ok := true;
  }

  /** Between segments: `done` is decoded, `rest` is still to be read. */
  ghost predicate SoFar(s: bytes, rest: bytes, done: bytes, last: bool) {
    Before(done, Left(rest, last)) == DecodeAll(s)
  }

  lemma Begun(s: bytes)
    ensures SoFar(s, s, [], false)
  {
    hide DecodeAll;
    var r := DecodeAll(s);
    if r.Some? {
      assert [] + r.value == r.value;
    }
  }

  lemma SegmentTaken(s: bytes, rest: bytes, done: bytes, last: bool)
    requires |rest| >= 4 && SoFar(s, rest, done, last)
    ensures last ==> DecodeAll(s) == None
    ensures !last ==>
              var g := DecodeGroup(rest[..4]);
              if g.None? then DecodeAll(s) == None
              else 1 <= |g.value| <= 3 && SoFar(s, rest[4..], done + g.value, |g.value| != 3)
  {
    hide DecodeGroup, DecodeAll;
    SegmentStep(rest);
    var g := DecodeGroup(rest[..4]);
    if g.Some? {
      Extended(done, g.value, Left(rest[4..], |g.value| != 3));
    }
  }

  lemma Finished(s: bytes, done: bytes, last: bool)
    requires SoFar(s, [], done, last)
    ensures DecodeAll(s) == Some(done)
  {
    assert done + [] == done;
  }

  /** Bytes appended to the target; what is still to be read is not touched. */
  method WriteBehind(mem: array<byte>, read: nat, end: nat, target: array<byte>, at: nat, pos: nat, value: bytes)
    requires read <= end <= mem.Length && at <= pos && pos + |value| <= target.Length
    requires mem == target ==> pos + |value| <= read
    modifies target
    ensures target[at..pos + |value|] == old(target[at..pos]) + value
    ensures mem[read..end] == old(mem[read..end])
  {
    WriteBytes(target, pos, value);
    assert target[at..pos + |value|] == target[at..pos] + target[pos..pos + |value|];
  }

  /** What is still to come after a segment that was padded or not. */
  function Left(t: bytes, last: bool): Option<bytes> {
    if last && t != [] then None else DecodeAll(t)
  }

  function Before(done: bytes, r: Option<bytes>): Option<bytes> {
    if r.None? then None else Some(done + r.value)
  }

  lemma Extended(done: bytes, more: bytes, r: Option<bytes>)
    ensures Before(done + more, r) == Before(done, Before(more, r))
  {
    if r.Some? {
      assert done + more + r.value == done + (more + r.value);
    }
  }

  lemma {:induction false} SegmentStep(t: bytes)
    requires |t| >= 4
    ensures var g := DecodeGroup(t[..4]);
            DecodeAll(t) == if g.None? || (|g.value| < 3 && |t| > 4) then None else Before(g.value, DecodeAll(t[4..]))
    ensures DecodeGroup(t[..4]).Some? ==> 1 <= |DecodeGroup(t[..4]).value| <= 3
  {
    hide DecodeGroup;
  }

  lemma {:induction false} WholeSegments(t: bytes)
    requires |t| % 4 != 0
    ensures DecodeAll(t) == None
    decreases |t|
  {
    hide DecodeGroup;
    if |t| >= 4 {
      WholeSegments(t[4..]);
    }
  }

  /** gg_base64_decode_in_place gives what decoding into separate memory gives. */
  method DecodeInPlace(mem: array<byte>, from: nat, len: nat) returns (ok: bool, n: nat)
    requires from + len <= mem.Length
    modifies mem
    ensures ok <==> DecodeAll(old(mem[from..from + len])).Some?
    ensures ok ==> n <= len && DecodeAll(old(mem[from..from + len])) == Some(mem[from..from + n])
  {
    ok, n := Decode(mem, from, len, mem, from, len);
  }

  /** gg_base64_encode with `free` bytes left in the arena. */
  method Encode(buf: bytes, free: nat) returns (ret: Error, mem: array<byte>)
    ensures ret == if |EncodeAll(buf)| <= free then Ok else NoMem
    ensures ret == Ok ==> fresh(mem) && mem[..] == EncodeAll(buf)
  {
    hide EncodeGroup, EncodeAll;
    EncodeNothing();
    var len := (|buf| + 2) / 3 * 4;
    mem := new byte[0];
    if len > free {
      return NoMem, mem;
    }
    mem := new byte[len](_ => 0);
    var chunks := |buf| / 3;
    var i := 0;
    assert buf[..0] == [];
    while i < chunks
      invariant 0 <= i <= chunks && fresh(mem) && mem.Length == len
      invariant mem[..i * 4] == EncodeAll(buf[..i * 3])
    {
      var g := buf[i * 3..i * 3 + 3];
      WriteGroup(mem, i * 4, g);
      EncodeSnoc(buf[..i * 3], g);
      assert buf[..i * 3 + 3] == buf[..i * 3] + g;
      i := i + 1;
    }
    var remaining := |buf| % 3;
    if remaining > 0 {
      var g := buf[chunks * 3..];
      WriteGroup(mem, chunks * 4, g);
      assert mem[..] == mem[..chunks * 4 + 4];
      EncodeSnoc(buf[..chunks * 3], g);
      assert buf == buf[..chunks * 3] + g;
    } else {
      assert buf == buf[..chunks * 3] && mem[..] == mem[..chunks * 4];
    }
    ret := Ok;
  }

  method WriteGroup(mem: array<byte>, at: nat, g: bytes)
    requires at + 4 <= mem.Length && 1 <= |g| <= 3
    modifies mem
    ensures mem[..at + 4] == old(mem[..at]) + EncodeGroup(g)
  {
    hide EncodeGroup;
    WriteBytes(mem, at, EncodeGroup(g));
    assert mem[..at + 4] == mem[..at] + mem[at..at + 4];
  }

  lemma EncodeNothing()
    ensures EncodeAll([]) == []
  {
  }

  /** A last group after whole ones. */
  lemma {:induction false} EncodeSnoc(s: bytes, g: bytes)
    requires |s| % 3 == 0 && 1 <= |g| <= 3
    ensures EncodeAll(s + g) == EncodeAll(s) + EncodeGroup(g)
    decreases |s|
  {
    hide EncodeGroup;
    if s == [] {
      assert s + g == g;
    } else {
      assert (s + g)[..3] == s[..3] && (s + g)[3..] == s[3..] + g;
      EncodeSnoc(s[3..], g);
      if |s| == 3 {
        assert s[..3] == s && s[3..] == [];
      }
    }
  }

  /** Test vectors of section 10 of RFC 4648: both paddings and none. */
  lemma KnownTexts()
    ensures EncodeAll(Ascii("f")) == Ascii("Zg==") && EncodeAll(Ascii("fo")) == Ascii("Zm8=") && EncodeAll(Ascii("foo")) == Ascii("Zm9v")
  {
    assert Chunk(Ascii("f")) == 0x66_0000 && Chunk(Ascii("fo")) == 0x66_6F00 && Chunk(Ascii("foo")) == 0x66_6F6F;
  }
}
