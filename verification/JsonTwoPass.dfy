/**
 The two passes agree: what the first pass counted is what the second pass finds, it finds it in
 exactly the content that was delimited, and none of the second pass's structural errors can occur.
 */
module JsonTwoPass {
  import opened Common
  import opened Objects
  import opened MapOrder
  import opened JsonGrammar
  import opened JsonScan
  import opened JsonScanProof
  import opened JsonLocal
  import opened JsonUnescape
  import opened JsonDecode

  /** The branches that a scanned value should never take. */
  predicate Structural(c: Cause) {
    c == NoValue || c == NoComma || c == NoColon || c == KeyNotText
  }

  // ---------- the content of containers ----------

  lemma {:induction false} WsTwice(s: bytes)
    ensures WsLen(s[WsLen(s)..]) == 0
  {
    if s != [] && IsSpace(s[0]) {
      WsTwice(s[1..]);
      assert s[1..][WsLen(s[1..])..] == s[WsLen(s)..];
    } else {
      assert s[0..] == s;
    }
  }

  /** Leading whitespace only shifts a value. */
  lemma {:induction false} ValSkip(s: bytes)
    ensures var w := WsLen(s); var v := Val(s[w..]);
            Val(s) == if v.None? then None else Some(v.value.(n := w + v.value.n, at := w + v.value.at))
  {
    hide Core, WsLen, Val;
    var w := WsLen(s);
    var t := s[w..];
    WsTwice(s);
    ValIs(s);
    ValIs(t);
    assert t[0..] == t;
    if Core(t).Some? {
      assert t[Core(t).value.n..] == s[w + Core(t).value.n..];
    }
  }

  lemma {:induction false} ValIs(s: bytes)
    ensures var w := WsLen(s); var c := Core(s[w..]);
            Val(s) == if c.None? then None
                      else Some(Scan(w + c.value.n + WsLen(s[w + c.value.n..]), c.value.ty, w + c.value.at, c.value.len, c.value.count))
  {
    hide Core, WsLen;
  }

  /** What the first pass knows about the content of an array or object. */
  ghost predicate ContentIs(v: Scan, e: Option<Extent>) {
    if e.Some? then v.len == e.value.n && v.count == e.value.count else v.len == 0 && v.count == 0
  }

  lemma {:induction false} ArrayContent(s: bytes)
    requires Val(s).Some? && Val(s).value.ty == TArray
    ensures var v := Val(s).value; v.at > 0 && ContentIs(v, Elems(s[v.at..]))
  {
    hide Elems, Members, WsLen, StrLen, NumLen;
    var w := WsLen(s);
    var t := s[w..];
    assert t[0] == 0x5B;
    var start := 1 + WsLen(t[1..]);
    assert t[start..] == s[w + start..];
  }

  lemma {:induction false} ObjectContent(s: bytes)
    requires Val(s).Some? && Val(s).value.ty == TObject
    ensures var v := Val(s).value; v.at > 0 && ContentIs(v, Members(s[v.at..]))
  {
    hide Elems, Members, WsLen, StrLen, NumLen;
    var w := WsLen(s);
    var t := s[w..];
    assert t[0] == 0x7B;
    var start := 1 + WsLen(t[1..]);
    assert t[start..] == s[w + start..];
  }

  // ---------- agreement ----------

  /** Decoding a value that scanned fails only over its text, its numbers or memory. */
  lemma {:induction false} DecodeAgrees(s: bytes, base: nat, space: Space, want: bool, strtod: Strtod)
    requires Val(s).Some?
    ensures var r := Decode(s, base, space, want, strtod); r.Bad? ==> !Structural(r.cause)
    decreases |s|, 0
  {
    hide Val, Elems, Members, Unescape, DecodeItems, DecodePairs, Canon;
    var v := Val(s).value;
    var content, at := s[v.at..v.at + v.len], base + v.at;
    if v.ty == TArray {
      ArrayContent(s);
      var space1 := space.(index := space.index + if want then ObjectBytes(v.count) else 0);
      if v.count == 0 {
        NoItems(content, at, space1, want, strtod);
      } else {
        assert s[v.at..][..v.len] == content;
        ItemsAgree(s[v.at..], at, space1, want, strtod);
      }
    } else if v.ty == TObject {
      ObjectContent(s);
      var space1 := space.(index := space.index + if want then PairBytes(v.count) else 0);
      if v.count == 0 {
        NoItems(content, at, space1, want, strtod);
      } else {
        assert s[v.at..][..v.len] == content;
        PairsAgree(s[v.at..], at, space1, want, strtod);
      }
    }
  }

  lemma {:induction false} NoItems(s: bytes, base: nat, space: Space, want: bool, strtod: Strtod)
    ensures DecodeItems(s, base, 0, space, want, strtod) == GoodItems([], 0, space)
    ensures DecodePairs(s, base, 0, space, want, strtod) == GoodPairs([], 0, space)
  {
  }

  ghost predicate ItemsMeet(r: Items, n: nat) {
    if r.BadItems? then !Structural(r.cause) else r.n == n
  }

  ghost predicate PairsMeet(r: Pairs, n: nat) {
    if r.BadPairs? then !Structural(r.cause) else r.n == n
  }

  /** Given `count` elements of total length `n`, the second pass decodes them from exactly those bytes. */
  lemma {:induction false} ItemsAgree(b: bytes, base: nat, space: Space, want: bool, strtod: Strtod)
    requires Elems(b).Some?
    ensures var e := Elems(b).value; ItemsMeet(DecodeItems(b[..e.n], base, e.count, space, want, strtod), e.n)
    decreases |b|, 1
  {
    hide Val, Decode;
    var e, v := Elems(b).value, Val(b).value;
    var c := b[..e.n];
    ValLocal(b, e.n);
    DecodeAgrees(c, base, space, want, strtod);
    var r := Decode(c, base, space, want, strtod);
    if r.Good? && e.count > 1 {
      var b1 := b[v.n + 1..];
      assert c[v.n + 1..] == b1[..e.n - v.n - 1];
      ItemsAgree(b1, base + v.n + 1, r.space, want, strtod);
    }
  }

  /** The key of a member scans as a value of its own. */
  lemma {:induction false} KeyVal(s: bytes)
    requires StrLen(s) > 0
    ensures var k := StrLen(s); Val(s) == Some(Scan(k + WsLen(s[k..]), TStr, 1, k - 2, 0))
  {
    hide StrLen;
    StrStarts(s);
    assert WsLen(s) == 0 && s[0..] == s;
  }

  lemma {:induction false} StrStarts(s: bytes)
    requires StrLen(s) > 0
    ensures s != [] && s[0] == 0x22
  {
  }

  /** A member's pieces within any buffer that holds the whole member. */
  lemma {:induction false} KvPieces(b: bytes, m: nat)
    requires 0 < KvLen(b) <= m <= |b|
    ensures var c, n := b[..m], StrLen(b) + WsLen(b[StrLen(b)..]);
            && Val(c) == Some(Scan(n, TStr, 1, StrLen(b) - 2, 0))
            && ByteAt(c, n, 0x3A)
            && Val(c[n + 1..]).Some? && n + 1 + Val(c[n + 1..]).value.n == KvLen(b)
  {
    hide Val, StrLen, WsLen, KvLen;
    var k := StrLen(b);
    var n := k + WsLen(b[k..]);
    KvIs(b);
    StrLocal(b, m);
    KeyVal(b[..m]);
    Cut(b, k, m);
    WsLocal(b[k..], m - k);
    Cut(b, n + 1, m);
    ValLocal(b[n + 1..], m - n - 1);
  }

  lemma {:induction false} KvIs(b: bytes)
    requires KvLen(b) > 0
    ensures var k := StrLen(b); var n := k + WsLen(b[k..]);
            k > 0 && ByteAt(b, n, 0x3A) && Val(b[n + 1..]).Some? && KvLen(b) == n + 1 + Val(b[n + 1..]).value.n
  {
  }

  // ---------- members, with the whitespace that the first pass skips after a comma ----------

  lemma {:induction false} DecodeSkip(s: bytes, base: nat, space: Space, want: bool, strtod: Strtod)
    ensures var w := WsLen(s); var r := Decode(s[w..], base + w, space, want, strtod);
            Decode(s, base, space, want, strtod) == if r.Bad? then r else r.(n := w + r.n)
  {
    hide Val, WsLen, Unescape, Number, DecodeItems, DecodePairs, Canon;
    var w := WsLen(s);
    ValSkip(s);
    if Val(s).Some? {
      var v := Val(s[w..]).value;
      assert s[w..][v.at..v.at + v.len] == s[w + v.at..w + v.at + v.len];
    }
  }

  lemma {:induction false} MemberSkip(s: bytes, base: nat, space: Space, want: bool, strtod: Strtod)
    ensures var w := WsLen(s); var r := DecodeMember(s[w..], base + w, space, want, strtod);
            DecodeMember(s, base, space, want, strtod) == if r.BadMember? then r else r.(n := w + r.n)
  {
    hide Val, WsLen, Decode;
    var w := WsLen(s);
    DecodeSkip(s, base, space, true, strtod);
    var key := Decode(s[w..], base + w, space, true, strtod);
    if key.Good? && ByteAt(s[w..], key.n, 0x3A) {
      assert s[w..][key.n + 1..] == s[w + key.n + 1..];
    }
  }

  /** Elements one by one. */
  lemma {:induction false} ItemsIs(s: bytes, base: nat, k: nat, space: Space, want: bool, strtod: Strtod)
    requires k > 0
    ensures var r := Decode(s, base, space, want, strtod);
            DecodeItems(s, base, k, space, want, strtod) ==
            if r.Bad? then BadItems(r.cause)
            else if k == 1 then GoodItems([r.obj], r.n, r.space)
            else if !ByteAt(s, r.n, 0x2C) then BadItems(NoComma)
            else
              var q := DecodeItems(s[r.n + 1..], base + r.n + 1, k - 1, r.space, want, strtod);
              if q.BadItems? then q else GoodItems([r.obj] + q.items, r.n + 1 + q.n, q.space)
  {
    hide Decode;
  }

  /** Members one by one. */
  lemma {:induction false} PairsIs(s: bytes, base: nat, k: nat, space: Space, want: bool, strtod: Strtod)
    requires k > 0
    ensures var r := DecodeMember(s, base, space, want, strtod);
            DecodePairs(s, base, k, space, want, strtod) ==
            if r.BadMember? then BadPairs(r.cause)
            else if k == 1 then GoodPairs([r.kv], r.n, r.space)
            else if !ByteAt(s, r.n, 0x2C) then BadPairs(NoComma)
            else
              var q := DecodePairs(s[r.n + 1..], base + r.n + 1, k - 1, r.space, want, strtod);
              if q.BadPairs? then q else GoodPairs([r.kv] + q.pairs, r.n + 1 + q.n, q.space)
  {
    hide DecodeMember;
  }

  lemma {:induction false} PairsSkip(s: bytes, base: nat, k: nat, space: Space, want: bool, strtod: Strtod)
    requires k > 0
    ensures var w := WsLen(s); var r := DecodePairs(s[w..], base + w, k, space, want, strtod);
            DecodePairs(s, base, k, space, want, strtod) == if r.BadPairs? then r else r.(n := w + r.n)
  {
    hide WsLen, DecodeMember, DecodePairs;
    var w := WsLen(s);
    MemberSkip(s, base, space, want, strtod);
    PairsIs(s, base, k, space, want, strtod);
    PairsIs(s[w..], base + w, k, space, want, strtod);
    var r := DecodeMember(s[w..], base + w, space, want, strtod);
    if r.GoodMember? && ByteAt(s[w..], r.n, 0x2C) {
      assert s[w..][r.n + 1..] == s[w + r.n + 1..];
    }
  }

  lemma {:induction false} MemberAgrees(b: bytes, m: nat, base: nat, space: Space, want: bool, strtod: Strtod)
    requires 0 < KvLen(b) <= m <= |b|
    ensures var r := DecodeMember(b[..m], base, space, want, strtod);
            if r.BadMember? then !Structural(r.cause) else r.n == KvLen(b)
    decreases |b|, 1
  {
    hide Val, KvLen, StrLen, WsLen, Decode;
    var c := b[..m];
    KvPieces(b, m);
    var n := StrLen(b) + WsLen(b[StrLen(b)..]);
    KeyDecodes(c, base, space, strtod);
    var key := Decode(c, base, space, true, strtod);
    if key.Good? {
      DecodeAgrees(c[n + 1..], base + n + 1, key.space, want, strtod);
    }
  }

  lemma {:induction false} PairsAgree(b: bytes, base: nat, space: Space, want: bool, strtod: Strtod)
    requires Members(b).Some?
    ensures var e := Members(b).value; PairsMeet(DecodePairs(b[..e.n], base, e.count, space, want, strtod), e.n)
    decreases |b|, 2
  {
    hide KvLen, WsLen, DecodeMember, KvCommaLen, DecodePairs, Members;
    MembersUnfold(b);
    var e, k, w := Members(b).value, KvLen(b), KvCommaLen(b);
    var c := b[..e.n];
    KvCommaReaches(b);
    MemberAgrees(b, e.n, base, space, want, strtod);
    PairsIs(c, base, e.count, space, want, strtod);
    var r := DecodeMember(c, base, space, want, strtod);
    if r.GoodMember? && w > 0 {
      CommaPieces(b, e.n);
      PairsSkip(c[k + 1..], base + k + 1, e.count - 1, r.space, want, strtod);
      PairsAgree(b[w..], base + w, r.space, want, strtod);
    }
  }

  /** Decoding a key gives text or complains about its escapes. */
  lemma {:induction false} KeyDecodes(s: bytes, base: nat, space: Space, strtod: Strtod)
    requires Val(s).Some? && Val(s).value.ty == TStr
    ensures var r := Decode(s, base, space, true, strtod); if r.Bad? then r.cause == BadText else r.obj.Buf?
  {
    hide Val, Unescape;
  }

  /** The comma after a member and the whitespace up to the next one, within the members' bytes. */
  lemma {:induction false} CommaPieces(b: bytes, m: nat)
    requires 0 < KvLen(b) < KvCommaLen(b) <= m <= |b|
    ensures var c, k, w := b[..m], KvLen(b), KvCommaLen(b);
            && ByteAt(c, k, 0x2C) && WsLen(c[k + 1..]) == w - k - 1
            && c[k + 1..][w - k - 1..] == b[w..][..m - w]
  {
    hide KvLen, WsLen;
    var k, w := KvLen(b), KvCommaLen(b);
    Cut(b, k + 1, m);
    WsLocal(b[k + 1..], m - k - 1);
    assert b[..m][k + 1..][w - k - 1..] == b[w..][..m - w];
  }

  // ---------- the theorem ----------

  /**
   For every document and every value in it: if the scan succeeds, decoding fails only for a string
   that does not unescape, a number out of range, or lack of memory; and a failed scan is reported
   as such before anything is decoded.
   */
  lemma {:induction false} TwoPassAgreement(s: bytes, base: nat, space: Space, want: bool, strtod: Strtod)
    ensures var r := Decode(s, base, space, want, strtod);
            && (r == Bad(NoValue) <==> Val(s) == None)
            && r != Bad(NoComma) && r != Bad(NoColon) && r != Bad(KeyNotText)
            && (r.Good? ==> r.n == Val(s).value.n)
  {
    if Val(s).Some? {
      DecodeAgrees(s, base, space, want, strtod);
    }
  }
}
