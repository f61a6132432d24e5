/**
 String unescaping (src/json_decode.c): escapes are replaced in place, and UTF-16 escapes are
 re-encoded as UTF-8. Section 7 of RFC 8259, section 2.2 of RFC 2781, section 3 of RFC 3629.
 */
module JsonUnescape {
  import opened Common
  import opened JsonScan
  import opened Memory

  // ---------- code points ----------

  function HexVal(b: byte): (v: nat)
    requires IsHex(b)
    ensures v < 16
  {
    if b <= 0x39 then b - 0x30 else if b <= 0x46 then b - 0x41 + 10 else b - 0x61 + 10
  }

  predicate Hex4At(s: bytes, i: nat) {
    i + 4 <= |s| && IsHex(s[i]) && IsHex(s[i + 1]) && IsHex(s[i + 2]) && IsHex(s[i + 3])
  }

  function Hex4(s: bytes, i: nat): (v: nat)
    requires Hex4At(s, i)
    ensures v < 0x10000
  {
    HexVal(s[i]) * 4096 + HexVal(s[i + 1]) * 256 + HexVal(s[i + 2]) * 16 + HexVal(s[i + 3])
  }

  predicate IsHigh(code: nat) {
    0xD800 <= code <= 0xDBFF
  }

  predicate IsLow(code: nat) {
    0xDC00 <= code <= 0xDFFF
  }

  function Combine(high: nat, low: nat): (cp: nat)
    requires IsHigh(high) && IsLow(low)
    ensures 0x10000 <= cp <= 0x10FFFF
  {
    (high - 0xD800) * 1024 + (low - 0xDC00) + 0x10000
  }

  /** write_codepoint_utf8. */
  function Utf8(cp: nat): (r: bytes)
    requires cp <= 0x1FFFFF
    ensures 1 <= |r| <= 4 && (cp <= 0xFFFF ==> |r| <= 3)
  {
    if cp <= 0x7F then [cp]
    else if cp <= 0x7FF then [0xC0 + cp / 64, 0x80 + cp % 64]
    else if cp <= 0xFFFF then [0xE0 + cp / 4096, 0x80 + cp / 64 % 64, 0x80 + cp % 64]
    else [0xF0 + cp / 262144, 0x80 + cp / 4096 % 64, 0x80 + cp / 64 % 64, 0x80 + cp % 64]
  }

  /** The code point that a UTF-8 sequence encodes, if it is well formed and of minimal length. */
  function Utf8Decode(b: bytes): Option<nat> {
    if |b| == 1 && b[0] < 0x80 then Some(b[0])
    else if |b| == 2 && 0xC0 <= b[0] < 0xE0 && 0x80 <= b[1] < 0xC0 then
      var cp: int := (b[0] as int - 0xC0) * 64 + (b[1] as int - 0x80);
      if cp >= 0x80 then Some(cp) else None
    else if |b| == 3 && 0xE0 <= b[0] < 0xF0 && 0x80 <= b[1] < 0xC0 && 0x80 <= b[2] < 0xC0 then
      var cp: int := (b[0] as int - 0xE0) * 4096 + (b[1] as int - 0x80) * 64 + (b[2] as int - 0x80);
      if cp >= 0x800 then Some(cp) else None
    else if |b| == 4 && 0xF0 <= b[0] < 0xF8 && 0x80 <= b[1] < 0xC0 && 0x80 <= b[2] < 0xC0 && 0x80 <= b[3] < 0xC0 then
      var cp: int := (b[0] as int - 0xF0) * 262144 + (b[1] as int - 0x80) * 4096 + (b[2] as int - 0x80) * 64 + (b[3] as int - 0x80);
      if cp >= 0x10000 then Some(cp) else None
    else None
  }

  /** What is written for a code point decodes back to it. */
  lemma Utf8RoundTrip(cp: nat)
    requires cp <= 0x1FFFFF
    ensures Utf8Decode(Utf8(cp)) == Some(cp)
  {
    assert cp == cp / 64 * 64 + cp % 64;
    assert cp / 64 == cp / 4096 * 64 + cp / 64 % 64;
    assert cp / 4096 == cp / 262144 * 64 + cp / 4096 % 64;
  }

  /** Surrogate pairs and the code points beyond the basic plane correspond one to one. */
  lemma SurrogatesRoundTrip(high: nat, low: nat, cp: nat)
    requires IsHigh(high) && IsLow(low) && 0x10000 <= cp <= 0x10FFFF
    ensures Combine(high, low) == cp <==>
            high == 0xD800 + (cp - 0x10000) / 1024 && low == 0xDC00 + (cp - 0x10000) % 1024
  {
  }

  // ---------- unescaping as a function ----------

  function SimpleEscape(b: byte): byte
    requires IsSimpleEscape(b)
  {
    if b == 0x62 then 0x08
    else if b == 0x66 then 0x0C
    else if b == 0x6E then 0x0A
    else if b == 0x72 then 0x0D
    else if b == 0x74 then 0x09
    else b
  }

  /** Bytes consumed by the escape at the front and what replaces them. */
  datatype Piece = Piece(n: nat, text: bytes)

  predicate UnicodeAt(s: bytes, i: nat) {
    i + 6 <= |s| && s[i] == 0x5C && s[i + 1] == 0x75 && Hex4At(s, i + 2)
  }

  /** str_conv_handle_escape. */
  function Escape(s: bytes): (r: Option<Piece>)
    ensures r.Some? ==> 0 < |r.value.text| <= r.value.n <= |s|
  {
    if |s| < 2 || s[0] != 0x5C then None
    else if s[1] == 0x75 then
      if !UnicodeAt(s, 0) then None
      else
        var code := Hex4(s, 2);
        if IsHigh(code) then
          if UnicodeAt(s, 6) && IsLow(Hex4(s, 8)) then Some(Piece(12, Utf8(Combine(code, Hex4(s, 8))))) else None
        else if IsLow(code) then None
        else Some(Piece(6, Utf8(code)))
    else if IsSimpleEscape(s[1]) then Some(Piece(2, [SimpleEscape(s[1])]))
    else None
  }

  function Prepend(a: bytes, r: Option<bytes>): Option<bytes> {
    if r.None? then None else Some(a + r.value)
  }

  function Unescape(s: bytes): (r: Option<bytes>)
    ensures r.Some? ==> |r.value| <= |s|
    decreases |s|
  {
    if s == [] then Some([])
    else if s[0] != 0x5C then Prepend([s[0]], Unescape(s[1..]))
    else match Escape(s)
      case None => None
      case Some(p) => Prepend(p.text, Unescape(s[p.n..]))
  }

  // ---------- unescaping as UTF-16 decoding ----------

  /** What a string literal is made of before surrogates are looked at. */
  datatype Unit = Raw(b: byte) | Code(code: nat)

  predicate HighUnit(u: Unit) {
    u.Code? && IsHigh(u.code)
  }

  predicate LowUnit(u: Unit) {
    u.Code? && IsLow(u.code)
  }

  /** Split a literal into raw bytes and 16-bit code units. */
  function Units(s: bytes): (r: Option<seq<Unit>>)
    ensures r.Some? ==> forall i :: 0 <= i < |r.value| && r.value[i].Code? ==> r.value[i].code < 0x10000
    decreases |s|
  {
    if s == [] then Some([])
    else if s[0] != 0x5C then
      var r := Units(s[1..]);
      if r.None? then None else Some([Raw(s[0])] + r.value)
    else if |s| >= 2 && IsSimpleEscape(s[1]) then
      var r := Units(s[2..]);
      if r.None? then None else Some([Raw(SimpleEscape(s[1]))] + r.value)
    else if UnicodeAt(s, 0) then
      var r := Units(s[6..]);
      if r.None? then None else Some([Code(Hex4(s, 2))] + r.value)
    else None
  }

  /** Every high surrogate is directly followed by a low one and every low one directly preceded by a high one. */
  predicate Paired(u: seq<Unit>) {
    && (forall i :: 0 <= i < |u| && HighUnit(u[i]) ==> i + 1 < |u| && LowUnit(u[i + 1]))
    && (forall i :: 0 <= i < |u| && LowUnit(u[i]) ==> i > 0 && HighUnit(u[i - 1]))
  }

  /** The code points of paired units, in UTF-8; raw bytes pass through. */
  function Utf16ToUtf8(u: seq<Unit>): bytes
    requires Paired(u) && forall i :: 0 <= i < |u| && u[i].Code? ==> u[i].code < 0x10000
    decreases |u|
  {
    if u == [] then []
    else if u[0].Raw? then PairedTail(u, 1); [u[0].b] + Utf16ToUtf8(u[1..])
    else if HighUnit(u[0]) then PairedTail(u, 2); Utf8(Combine(u[0].code, u[1].code)) + Utf16ToUtf8(u[2..])
    else PairedTail(u, 1); Utf8(u[0].code) + Utf16ToUtf8(u[1..])
  }

  lemma PairedTail(u: seq<Unit>, k: nat)
    requires Paired(u) && k <= |u| && (0 < k ==> !HighUnit(u[k - 1]))
    ensures Paired(u[k..])
  {
    var t := u[k..];
    forall i | 0 <= i < |t| && LowUnit(t[i]) ensures i > 0 && HighUnit(t[i - 1]) {
      assert t[i] == u[k + i];
      if i > 0 { assert t[i - 1] == u[k + i - 1]; }
    }
    forall i | 0 <= i < |t| && HighUnit(t[i]) ensures i + 1 < |t| && LowUnit(t[i + 1]) {
      assert t[i] == u[k + i];
    }
  }

  lemma PairedCons(u: seq<Unit>, k: nat)
    requires 1 <= k <= |u| && Paired(u[k..])
    requires k == 1 ==> !HighUnit(u[0]) && !LowUnit(u[0])
    requires k == 2 ==> HighUnit(u[0]) && LowUnit(u[1])
    requires k <= 2
    ensures Paired(u)
  {
    var t := u[k..];
    forall i | 0 <= i < |u| && HighUnit(u[i]) ensures i + 1 < |u| && LowUnit(u[i + 1]) {
      if i >= k { assert t[i - k] == u[i]; assert t[i - k + 1] == u[i + 1]; }
    }
    forall i | 0 <= i < |u| && LowUnit(u[i]) ensures i > 0 && HighUnit(u[i - 1]) {
      if i >= k { assert t[i - k] == u[i]; assert i > k; assert t[i - k - 1] == u[i - 1]; }
    }
  }

  ghost function Decoded(u: Option<seq<Unit>>): Option<bytes>
    requires u.Some? ==> forall i :: 0 <= i < |u.value| && u.value[i].Code? ==> u.value[i].code < 0x10000
  {
    if u.None? || !Paired(u.value) then None else Some(Utf16ToUtf8(u.value))
  }

  /**
   A literal unescapes exactly when it is well formed and its surrogate escapes are paired, and then
   to the UTF-8 of its code points.
   */
  lemma {:induction false} UnescapeIsUtf16(s: bytes)
    ensures Unescape(s) == Decoded(Units(s))
    decreases |s|
  {
    if s == [] {
    } else if s[0] != 0x5C {
      UnescapeIsUtf16(s[1..]);
      OneUnit(Raw(s[0]), [s[0]], Units(s[1..]));
    } else if |s| >= 2 && IsSimpleEscape(s[1]) {
      UnescapeIsUtf16(s[2..]);
      OneUnit(Raw(SimpleEscape(s[1])), [SimpleEscape(s[1])], Units(s[2..]));
    } else if UnicodeAt(s, 0) {
      var code := Hex4(s, 2);
      var rest := Units(s[6..]);
      if IsHigh(code) {
        HighEscape(s);
      } else if IsLow(code) {
        if rest.Some? {
          assert LowUnit(([Code(code)] + rest.value)[0]);
        }
      } else {
        UnescapeIsUtf16(s[6..]);
        OneUnit(Code(code), Utf8(code), rest);
      }
    }
  }

  lemma OneUnit(x: Unit, text: bytes, rest: Option<seq<Unit>>)
    requires !HighUnit(x) && !LowUnit(x) && (x.Code? ==> x.code < 0x10000)
    requires text == if x.Raw? then [x.b] else Utf8(x.code)
    requires rest.Some? ==> forall i :: 0 <= i < |rest.value| && rest.value[i].Code? ==> rest.value[i].code < 0x10000
    ensures Decoded(if rest.None? then None else Some([x] + rest.value)) == Prepend(text, Decoded(rest))
  {
    if rest.Some? {
      var u := [x] + rest.value;
      assert u[1..] == rest.value;
      if Paired(u) {
        PairedTail(u, 1);
      }
      if Paired(rest.value) {
        PairedCons(u, 1);
      }
    }
  }

  /** A high surrogate with what follows it: a low one completes it, anything else spoils the literal. */
  lemma HighFirst(high: nat, rest: seq<Unit>)
    requires IsHigh(high) && forall i :: 0 <= i < |rest| && rest[i].Code? ==> rest[i].code < 0x10000
    ensures Decoded(Some([Code(high)] + rest)) ==
            if rest != [] && LowUnit(rest[0]) then Prepend(Utf8(Combine(high, rest[0].code)), Decoded(Some(rest[1..])))
            else None
  {
    var u := [Code(high)] + rest;
    assert HighUnit(u[0]);
    if rest != [] {
      assert u[1] == rest[0] && u[2..] == rest[1..];
      if Paired(u) {
        PairedTail(u, 2);
      }
      if LowUnit(rest[0]) && Paired(rest[1..]) {
        PairedCons(u, 2);
      }
    }
  }

  lemma {:induction false} HighEscape(s: bytes)
    requires UnicodeAt(s, 0) && IsHigh(Hex4(s, 2))
    ensures Unescape(s) == Decoded(Units(s))
    decreases |s|, 0
  {
    hide Utf8, Combine, Paired, Utf16ToUtf8, Hex4, Decoded;
    var high, t := Hex4(s, 2), s[6..];
    var rest := Units(t);
    assert Units(s) == if rest.None? then None else Some([Code(high)] + rest.value);
    if rest.Some? {
      HighFirst(high, rest.value);
    } else {
      assert Decoded(None) == None by { NoUnits(); }
    }
    if UnicodeAt(s, 6) {
      Hex4Shift(s);
      assert UnicodeAt(t, 0) && t[6..] == s[12..];
      UnescapeIsUtf16(s[12..]);
      var tail := Units(s[12..]);
      if tail.Some? {
        assert rest.value == [Code(Hex4(s, 8))] + tail.value;
        assert rest.value[1..] == tail.value;
      }
      NoUnits();
    } else if rest.Some? {
      NotLow(t);
    }
  }

  lemma NoUnits()
    ensures Decoded(None) == None
  {
  }

  lemma Hex4Shift(s: bytes)
    requires UnicodeAt(s, 6)
    ensures Hex4At(s[6..], 2) && Hex4(s[6..], 2) == Hex4(s, 8)
  {
  }

  /** Only a unicode escape yields a code unit. */
  lemma NotLow(s: bytes)
    requires Units(s).Some? && !UnicodeAt(s, 0)
    ensures Units(s).value == [] || Units(s).value[0].Raw?
  {
  }

  // ---------- in place ----------

  method Hex4FromMemory(mem: array<byte>, pos: nat, end: nat) returns (ok: bool, code: nat)
    requires pos + 6 <= end <= mem.Length
    ensures ok == Hex4At(mem[pos..end], 2)
    ensures ok ==> code == Hex4(mem[pos..end], 2)
  {
    ghost var s := mem[pos..end];
    code := 0;
    ok := IsHex(mem[pos + 2]) && IsHex(mem[pos + 3]) && IsHex(mem[pos + 4]) && IsHex(mem[pos + 5]);
    assert s[2] == mem[pos + 2] && s[3] == mem[pos + 3] && s[4] == mem[pos + 4] && s[5] == mem[pos + 5];
    if ok {
      code := HexVal(mem[pos + 2]) * 4096 + HexVal(mem[pos + 3]) * 256 + HexVal(mem[pos + 4]) * 16 + HexVal(mem[pos + 5]);
    }
  }

  /** str_conv_handle_escape up to the write: what the escape at `pos` stands for. */
  method ReadEscape(mem: array<byte>, pos: nat, end: nat) returns (ok: bool, next: nat, text: bytes)
    requires pos <= end <= mem.Length
    ensures pos <= next <= end
    ensures Escape(mem[pos..end]) == if ok then Some(Piece(next - pos, text)) else None
  {
    ghost var s := mem[pos..end];
    next, text := pos, [];
    if end - pos < 2 || mem[pos] != 0x5C {
      return false, next, text;
    }
    assert s[1] == mem[pos + 1];
    if mem[pos + 1] != 0x75 {
      if !IsSimpleEscape(mem[pos + 1]) {
        return false, next, text;
      }
      return true, pos + 2, [SimpleEscape(mem[pos + 1])];
    }
    if end - pos < 6 {
      return false, next, text;
    }
    var hex, code := Hex4FromMemory(mem, pos, end);
    if !hex || IsLow(code) {
      return false, next, text;
    }
    if !IsHigh(code) {
      return true, pos + 6, Utf8(code);
    }
    if end - pos < 12 || mem[pos + 6] != 0x5C || mem[pos + 7] != 0x75 {
      assert !UnicodeAt(s, 6);
      return false, next, text;
    }
    assert s[6] == mem[pos + 6] && s[7] == mem[pos + 7];
    var low;
    hex, low := Hex4FromMemory(mem, pos + 6, end);
    assert mem[pos + 6..end] == s[6..];
    if hex { Hex4Shift(s); }
    if !hex || !IsLow(low) {
      return false, next, text;
    }
    return true, pos + 12, Utf8(Combine(code, low));
  }

  lemma UnescapeEmpty(a: bytes)
    ensures Prepend(a, Unescape([])) == Some(a)
  {
    assert a + [] == a;
  }

  lemma UnescapeFails(s: bytes, a: bytes)
    requires s != [] && s[0] == 0x5C && Escape(s) == None
    ensures Prepend(a, Unescape(s)) == None
  {
  }

  /** One turn: a raw byte stands for itself, an escape for its text. */
  lemma UnescapeStep(s: bytes, n: nat, text: bytes)
    requires 0 < n <= |s|
    requires if s[0] == 0x5C then Escape(s) == Some(Piece(n, text)) else n == 1 && text == [s[0]]
    ensures Unescape(s) == Prepend(text, Unescape(s[n..]))
  {
  }

  lemma PrependNone(r: Option<bytes>)
    ensures Prepend([], r) == r
  {
    if r.Some? {
      assert [] + r.value == r.value;
    }
  }

  lemma PrependConcat(a: bytes, b: bytes, r: Option<bytes>)
    ensures Prepend(a + b, r) == Prepend(a, Prepend(b, r))
  {
    if r.Some? {
      assert a + b + r.value == a + (b + r.value);
    }
  }

  /** The next piece of a literal: a byte that stands for itself, or an escape. */
  method ReadPiece(mem: array<byte>, pos: nat, end: nat) returns (ok: bool, next: nat, text: bytes)
    requires pos < end <= mem.Length
    ensures pos <= next <= end && (ok ==> pos + |text| <= next && pos < next)
    ensures Unescape(mem[pos..end]) == if ok then Prepend(text, Unescape(mem[next..end])) else None
  {
    hide Unescape, Escape, Prepend;
    ghost var s := mem[pos..end];
    if mem[pos] == 0x5C {
      ok, next, text := ReadEscape(mem, pos, end);
      if !ok {
        UnescapeFails(s, []);
        PrependNone(Unescape(s));
        return;
      }
    } else {
      ok, next, text := true, pos + 1, [mem[pos]];
    }
    assert s == mem[..][pos..end] && mem[next..end] == mem[..][next..end];
    Suffix(mem[..], pos, next, end);
    UnescapeStep(s, next - pos, text);
  }

  lemma Suffix(m: bytes, pos: nat, next: nat, end: nat)
    requires pos <= next <= end <= |m|
    ensures m[pos..end][next - pos..] == m[next..end]
  {
  }

  /** Writing behind the read position leaves what is still to be read alone. */
  method WriteBehind(mem: array<byte>, start: nat, write: nat, read: nat, text: bytes)
    requires start <= write && write + |text| <= read <= mem.Length
    modifies mem
    ensures mem[start..write + |text|] == old(mem[start..write]) + text
    ensures mem[read..] == old(mem[read..])
    ensures forall i :: 0 <= i < start ==> mem[i] == old(mem[i])
  {
    WriteBytes(mem, write, text);
  }

  /**
   unescape_string: the write position never passes the read position, so every byte is read before
   it is overwritten, and the text that replaces the literal is its unescaped form.
   */
  method UnescapeString(mem: array<byte>, start: nat, end: nat) returns (ok: bool, stop: nat)
    requires start <= end <= mem.Length
    modifies mem
    ensures start <= stop <= end
    ensures Unescape(old(mem[start..end])) == if ok then Some(mem[start..stop]) else None
    ensures forall i :: 0 <= i < mem.Length && !(start <= i < end) ==> mem[i] == old(mem[i])
  {
    hide Unescape, Prepend;
    var read, write := start, start;
    ghost var goal := Unescape(mem[start..end]);
    PrependNone(goal);
    assert mem[start..write] == [];
    while read < end
      invariant start <= write <= read <= end && mem[read..] == old(mem[read..])
      invariant forall i :: 0 <= i < start ==> mem[i] == old(mem[i])
      invariant goal == Prepend(mem[start..write], Unescape(mem[read..end]))
    {
      ghost var done := mem[start..write];
      var next, text;
      ok, next, text := ReadPiece(mem, read, end);
      if !ok {
        PrependFails(done);
        assert forall i :: end <= i < mem.Length ==> mem[i] == mem[read..][i - read];
        return false, start;
      }
      ghost var rest := mem[next..end];
      PrependConcat(done, text, Unescape(rest));
      assert old(mem[next..]) == old(mem[read..])[next - read..] == mem[next..];
      WriteBehind(mem, start, write, next, text);
      read, write := next, write + |text|;
      assert mem[read..end] == mem[read..][..end - read] == rest;
    }
    assert mem[read..end] == [];
    UnescapeEmpty(mem[start..write]);
    assert forall i :: end <= i < mem.Length ==> mem[i] == mem[read..][i - read];
    return true, write;
  }

  lemma PrependFails(a: bytes)
    ensures Prepend(a, None) == None
  {
  }

  // ---------- the escapes, written out ----------

  lemma ShortEscape(c: byte, b: byte, r: bytes)
    requires IsSimpleEscape(c) && SimpleEscape(c) == b
    ensures Unescape([0x5C, c] + r) == Prepend([b], Unescape(r))
  {
    hide Unescape;
    var s := [0x5C, c] + r;
    assert s[0] == 0x5C && s[1] == c && s[2..] == r;
    assert Escape(s) == Some(Piece(2, [b]));
    UnescapeStep(s, 2, [b]);
  }

  /** The eight short escapes of section 7 of RFC 8259. */
  lemma ShortEscapes(r: bytes)
    ensures Unescape(Ascii("\\\"") + r) == Prepend([0x22], Unescape(r))
    ensures Unescape(Ascii("\\\\") + r) == Prepend([0x5C], Unescape(r))
    ensures Unescape(Ascii("\\/") + r) == Prepend([0x2F], Unescape(r))
    ensures Unescape(Ascii("\\b") + r) == Prepend([0x08], Unescape(r))
    ensures Unescape(Ascii("\\f") + r) == Prepend([0x0C], Unescape(r))
    ensures Unescape(Ascii("\\n") + r) == Prepend([0x0A], Unescape(r))
    ensures Unescape(Ascii("\\r") + r) == Prepend([0x0D], Unescape(r))
    ensures Unescape(Ascii("\\t") + r) == Prepend([0x09], Unescape(r))
  {
    hide Unescape, Prepend;
    ShortEscape(0x22, 0x22, r);
    ShortEscape(0x5C, 0x5C, r);
    ShortEscape(0x2F, 0x2F, r);
    ShortEscape(0x62, 0x08, r);
    ShortEscape(0x66, 0x0C, r);
    ShortEscape(0x6E, 0x0A, r);
    ShortEscape(0x72, 0x0D, r);
    ShortEscape(0x74, 0x09, r);
    assert Ascii("\\\"") == [0x5C, 0x22] && Ascii("\\\\") == [0x5C, 0x5C] && Ascii("\\/") == [0x5C, 0x2F];
    assert Ascii("\\b") == [0x5C, 0x62] && Ascii("\\f") == [0x5C, 0x66] && Ascii("\\n") == [0x5C, 0x6E];
    assert Ascii("\\r") == [0x5C, 0x72] && Ascii("\\t") == [0x5C, 0x74];
  }

  /** A hexadecimal digit in either case. */
  function HexChar(d: nat, upper: bool): byte
    requires d < 16
  {
    if upper then Ascii("0123456789ABCDEF")[d] else Ascii("0123456789abcdef")[d]
  }

  lemma HexCharValue(d: nat, upper: bool)
    requires d < 16
    ensures IsHex(HexChar(d, upper)) && HexVal(HexChar(d, upper)) == d
  {
  }

  /** A backslash, u and the four hexadecimal digits of a number, each in either case. */
  function UnicodeEscape(code: nat, upper: (bool, bool, bool, bool)): (r: bytes)
    requires code < 0x10000
    ensures |r| == 6
  {
    Ascii("\\u") + [HexChar(code / 4096, upper.0), HexChar(code / 256 % 16, upper.1),
                    HexChar(code / 16 % 16, upper.2), HexChar(code % 16, upper.3)]
  }

  lemma DigitsOf(code: nat)
    requires code < 0x10000
    ensures code / 4096 * 4096 + code / 256 % 16 * 256 + code / 16 % 16 * 16 + code % 16 == code
  {
    assert code / 16 == code / 256 * 16 + code / 16 % 16;
    assert code / 256 == code / 4096 * 16 + code / 256 % 16;
  }

  lemma EscapeReads(code: nat, upper: (bool, bool, bool, bool), s: bytes, i: nat)
    requires code < 0x10000 && i + 6 <= |s| && s[i..i + 6] == UnicodeEscape(code, upper)
    ensures UnicodeAt(s, i) && Hex4(s, i + 2) == code
  {
    var e := UnicodeEscape(code, upper);
    assert forall k :: 0 <= k < 6 ==> s[i + k] == s[i..i + 6][k] == e[k];
    HexCharValue(code / 4096, upper.0);
    HexCharValue(code / 256 % 16, upper.1);
    HexCharValue(code / 16 % 16, upper.2);
    HexCharValue(code % 16, upper.3);
    DigitsOf(code);
    hide HexVal, HexChar, IsHex;
    assert s[i] == 0x5C && s[i + 1] == 0x75 && s[i + 2] == e[2] && s[i + 3] == e[3] && s[i + 4] == e[4] && s[i + 5] == e[5];
  }

  /** An escaped code point of the basic plane becomes its UTF-8. */
  lemma UnicodeEscapes(code: nat, upper: (bool, bool, bool, bool), r: bytes)
    requires code < 0x10000 && !(0xD800 <= code <= 0xDFFF)
    ensures Unescape(UnicodeEscape(code, upper) + r) == Prepend(Utf8(code), Unescape(r))
  {
    hide Unescape, UnicodeEscape, Hex4, Utf8;
    var s := UnicodeEscape(code, upper) + r;
    assert s[0..6] == UnicodeEscape(code, upper) && s[6..] == r;
    EscapeReads(code, upper, s, 0);
    assert Escape(s) == Some(Piece(6, Utf8(code)));
    UnescapeStep(s, 6, Utf8(code));
  }

  /** A code point beyond it, escaped as the surrogate pair of section 2.2 of RFC 2781, becomes its UTF-8. */
  lemma SurrogateEscapes(cp: nat, upper: (bool, bool, bool, bool), upper': (bool, bool, bool, bool), r: bytes)
    requires 0x10000 <= cp <= 0x10FFFF
    ensures Unescape(UnicodeEscape(0xD800 + (cp - 0x10000) / 1024, upper) + UnicodeEscape(0xDC00 + (cp - 0x10000) % 1024, upper') + r) ==
            Prepend(Utf8(cp), Unescape(r))
  {
    hide Unescape, UnicodeEscape, Hex4, Utf8;
    var high, low := 0xD800 + (cp - 0x10000) / 1024, 0xDC00 + (cp - 0x10000) % 1024;
    var s := UnicodeEscape(high, upper) + UnicodeEscape(low, upper') + r;
    assert s[0..6] == UnicodeEscape(high, upper) && s[6..12] == UnicodeEscape(low, upper') && s[12..] == r;
    EscapeReads(high, upper, s, 0);
    EscapeReads(low, upper', s, 6);
    SurrogatesRoundTrip(high, low, cp);
    assert Escape(s) == Some(Piece(12, Utf8(cp)));
    UnescapeStep(s, 12, Utf8(cp));
  }

  /** One code point of each length, in UTF-8. */
  lemma KnownUtf8()
    ensures Utf8(0x41) == Ascii("A") && Utf8(0xE9) == [0xC3, 0xA9] && Utf8(0x20AC) == [0xE2, 0x82, 0xAC]
    ensures Utf8(0x1F600) == [0xF0, 0x9F, 0x98, 0x80]
  {
  }
}
