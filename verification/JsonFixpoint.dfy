/**
 Whatever document was decoded, not only a printed one: the tree is canonical, its strings are
 structurally UTF-8, and printing and decoding it again changes nothing.
 */
module JsonFixpoint {
  import opened Common
  import opened Objects
  import opened MapOrder
  import opened DeepCanonical
  import opened Equivalence
  import opened JsonGrammar
  import opened JsonScan
  import opened JsonScanProof
  import opened JsonLocal
  import opened JsonUnescape
  import opened IntParse
  import opened JsonDecode
  import opened JsonTwoPass
  import opened JsonEncode
  import opened JsonPrinted
  import opened JsonDecodeInPlace
  import opened JsonRoundTrip
  import opened JsonExact

  /** UTF-8, unless it was cut to the longest length that 16 bits hold. */
  predicate SoundText(s: bytes) {
    |s| <= UINT16_MAX && (Utf8Text(s) || |s| == UINT16_MAX)
  }

  predicate Sound(o: Obj)
    decreases o
  {
    match o
    case I64(i) => FitsInt64(i)
    case Buf(_, s) => SoundText(s)
    case List(_, items) => |items| <= UINT16_MAX && forall x :: x in items ==> Sound(x)
    case Map(_, pairs) => |pairs| <= UINT16_MAX && Canon(pairs) == pairs && forall kv :: kv in pairs ==> SoundKV(kv)
    case _ => true
  }

  predicate SoundKV(kv: KV)
    decreases kv
  {
    SoundText(kv.key) && Sound(kv.val)
  }

  // ---------- strings ----------

  lemma Utf8OfCodePoint(cp: nat)
    requires cp <= 0x1FFFFF
    ensures Utf8Text(Utf8(cp))
  {
    var t := Utf8(cp);
    assert Utf8Len(t[0]) == |t|;
    assert t[|t|..] == [];
  }

  /** An unescaped character: taken by the scan as it is, and left as it is. */
  lemma RawCharacter(s: bytes)
    requires CodepointLen(s) > 0
    ensures var c := CodepointLen(s); Unescape(s) == Prepend(s[..c], Unescape(s[c..])) && Utf8Text(s[..c])
  {
    hide Unescape, Prepend;
    var c := CodepointLen(s);
    assert s == s[..c] + s[c..];
    assert s[..c][c..] == [] && forall i :: 1 <= i < c ==> s[..c][i] == s[i];
    if c == 1 {
      assert s[..1] == [s[0]];
      UnescapeStep(s, 1, [s[0]]);
    } else {
      HighBytesStay(s[..c], s[c..]);
    }
  }

  /** An escape, or the two of a surrogate pair, stand for one character. */
  lemma EscapeText(s: bytes)
    requires Escape(s).Some?
    ensures Utf8Text(Escape(s).value.text)
  {
    hide Utf8Text, Utf8, Hex4, Combine;
    var p := Escape(s).value;
    if p.n == 12 {
      Utf8OfCodePoint(Combine(Hex4(s, 2), Hex4(s, 8)));
    } else if s[1] == 0x75 {
      Utf8OfCodePoint(Hex4(s, 2));
    } else {
      Utf8Ascii(p.text);
    }
  }

  /** What is scanned one escape at a time is unescaped by one or by two. */
  lemma EscapeLengths(s: bytes)
    requires CharsLen(s) == |s| > 0 && CodepointLen(s) == 0 && Escape(s).Some?
    ensures var p := Escape(s).value; p.n <= |s| && CharsLen(s[p.n..]) == |s| - p.n
  {
    hide CharsLen, Utf8, Hex4, Combine;
    var p := Escape(s).value;
    CharsUnfold(s);
    assert CharLen(s) == EscapeLen(s);
    if p.n == 12 {
      var t := s[6..];
      CharsUnfold(t);
      assert t[0] == 0x5C && t[1] == 0x75 && t[2] == s[8] && t[3] == s[9] && t[4] == s[10] && t[5] == s[11];
      assert CodepointLen(t) == 0 && EscapeLen(t) == 6;
      assert t[6..] == s[12..];
    }
  }

  /** What a scanned literal unescapes to is structurally UTF-8. */
  lemma {:induction false} UnescapedIsUtf8(s: bytes)
    requires CharsLen(s) == |s| && Unescape(s).Some?
    ensures Utf8Text(Unescape(s).value)
    decreases |s|
  {
    hide Utf8Text, Unescape, Escape, CharsLen;
    CharsUnfold(s);
    if s == [] {
      NothingIsUtf8();
    } else if CodepointLen(s) > 0 {
      var c := CodepointLen(s);
      RawCharacter(s);
      UnescapedIsUtf8(s[c..]);
      Utf8Concat(s[..c], Unescape(s[c..]).value);
    } else {
      EscapeFirst(s);
      EscapeText(s);
      EscapeLengths(s);
      var p := Escape(s).value;
      UnescapeStep(s, p.n, p.text);
      UnescapedIsUtf8(s[p.n..]);
      Utf8Concat(p.text, Unescape(s[p.n..]).value);
    }
  }

  lemma {:induction false} CharsUnfold(s: bytes)
    ensures CharsLen(s) == if CharLen(s) == 0 then 0 else CharLen(s) + CharsLen(s[CharLen(s)..])
  {
    hide CharLen;
  }

  lemma NothingIsUtf8()
    ensures Unescape([]) == Some([]) && Utf8Text([])
  {
  }

  lemma EscapeFirst(s: bytes)
    requires s != [] && CodepointLen(s) == 0 && CharLen(s) > 0 && Unescape(s).Some?
    ensures s[0] == 0x5C && Escape(s).Some?
  {
    hide Escape;
  }

  lemma {:induction false} TextScanned(s: bytes)
    requires Val(s).Some? && Val(s).value.ty == TStr
    ensures var v := Val(s).value; CharsLen(s[v.at..v.at + v.len]) == v.len
  {
    hide WsLen, NumLen, Elems, Members, CharsLen;
    var t := s[WsLen(s)..];
    var n := CharsLen(t[1..]);
    CharsLocal(t[1..], n);
    assert t[1..][..n] == s[Val(s).value.at..Val(s).value.at + n];
  }

  lemma CutText(s: bytes)
    requires Utf8Text(s)
    ensures SoundText(Trunc(s))
  {
    hide Utf8Text;
  }

  // ---------- maps ----------

  lemma CutPairs(pairs: seq<KV>)
    ensures var r := Trunc(Canon(pairs)); |r| <= UINT16_MAX && Canon(r) == r && forall kv :: kv in r ==> kv in pairs
  {
    hide Canon;
    var c := Canon(pairs);
    CanonMembers(pairs);
    CanonMeets(pairs);
    var r := Trunc(c);
    assert Sorted(r);
    CanonIdempotent(r);
  }

  // ---------- every decoded value ----------

  lemma {:induction false} DecodeSound(s: bytes, base: nat, space: Space, want: bool, strtod: Strtod)
    ensures var r := Decode(s, base, space, want, strtod); r.Good? ==> Sound(r.obj)
    decreases |s|, 0
  {
    hide Val, Decode, DecodeItems, DecodePairs, Unescape, Number, Canon, Utf8Text, Trunc, CharsLen, SoundText;
    if Val(s) == None {
      NoValueThere(s, base, space, want, strtod);
    } else {
      var v := Val(s).value;
      var content := s[v.at..v.at + v.len];
      if v.ty == TStr {
        DecodeTextIs(s, base, space, want, strtod);
        TextScanned(s);
        if Unescape(content).Some? {
          UnescapedIsUtf8(content);
          CutText(Unescape(content).value);
        }
      } else if v.ty == TNumber {
        DecodeNumberIs(s, base, space, want, strtod);
        NumberSound(content, strtod);
      } else if v.ty == TArray {
        DecodeArrayIs(s, base, space, want, strtod);
        ItemsSound(content, base + v.at, v.count, Used(space, if want then ObjectBytes(v.count) else 0), want, strtod);
        CutItems(DecodeItems(content, base + v.at, v.count, Used(space, if want then ObjectBytes(v.count) else 0), want, strtod));
      } else if v.ty == TObject {
        DecodeObjectIs(s, base, space, want, strtod);
        var space1 := Used(space, if want then PairBytes(v.count) else 0);
        PairsSound(content, base + v.at, v.count, space1, want, strtod);
        var r := DecodePairs(content, base + v.at, v.count, space1, want, strtod);
        if r.GoodPairs? {
          CutPairs(r.pairs);
        }
      } else {
        DecodeLiteralIs(s, base, space, want, strtod);
      }
    }
  }

  lemma NumberSound(content: bytes, strtod: Strtod)
    ensures var o := Number(content, strtod); o.Some? ==> Sound(o.value)
  {
    hide IntLen, FracLen, ExpLen, IntValue, IsIntText;
  }

  lemma CutItems(r: Items)
    ensures r.GoodItems? ==> |Trunc(r.items)| <= UINT16_MAX && forall x :: x in Trunc(r.items) ==> x in r.items
  {
  }

  lemma {:induction false} ItemsSound(s: bytes, base: nat, k: nat, space: Space, want: bool, strtod: Strtod)
    ensures var r := DecodeItems(s, base, k, space, want, strtod); r.GoodItems? ==> forall x :: x in r.items ==> Sound(x)
    decreases |s|, 1
  {
    hide Decode, DecodeItems, Sound;
    if k == 0 {
      NoItems(s, base, space, want, strtod);
    } else {
      ItemsIs(s, base, k, space, want, strtod);
      DecodeSound(s, base, space, want, strtod);
      var r := Decode(s, base, space, want, strtod);
      if r.Good? && k > 1 && ByteAt(s, r.n, 0x2C) {
        ItemsSound(s[r.n + 1..], base + r.n + 1, k - 1, r.space, want, strtod);
      }
    }
  }

  lemma {:induction false} MemberSound(s: bytes, base: nat, space: Space, want: bool, strtod: Strtod)
    ensures var r := DecodeMember(s, base, space, want, strtod); r.GoodMember? ==> SoundKV(r.kv)
    decreases |s|, 1
  {
    hide Decode, Utf8Text, Canon;
    DecodeSound(s, base, space, true, strtod);
    var key := Decode(s, base, space, true, strtod);
    if key.Good? && ByteAt(s, key.n, 0x3A) {
      DecodeSound(s[key.n + 1..], base + key.n + 1, key.space, want, strtod);
    }
  }

  lemma {:induction false} PairsSound(s: bytes, base: nat, k: nat, space: Space, want: bool, strtod: Strtod)
    ensures var r := DecodePairs(s, base, k, space, want, strtod); r.GoodPairs? ==> forall kv :: kv in r.pairs ==> SoundKV(kv)
    decreases |s|, 2
  {
    hide DecodeMember, DecodePairs, SoundKV;
    if k == 0 {
      NoItems(s, base, space, want, strtod);
    } else {
      PairsIs(s, base, k, space, want, strtod);
      MemberSound(s, base, space, want, strtod);
      var r := DecodeMember(s, base, space, want, strtod);
      if r.GoodMember? && k > 1 && ByteAt(s, r.n, 0x2C) {
        PairsSound(s[r.n + 1..], base + r.n + 1, k - 1, r.space, want, strtod);
      }
    }
  }

  // ---------- the fixpoint ----------

  lemma {:induction false} SoundIsCanonical(o: Obj)
    requires Sound(o)
    ensures IsCanonical(o)
    decreases o, 1
  {
    hide Utf8Text, Canon;
    if o.List? {
      SoundItemsCanonical(o.items);
    } else if o.Map? {
      SoundPairsCanonical(o.pairs);
    }
  }

  lemma {:induction false} SoundItemsCanonical(items: seq<Obj>)
    requires forall x :: x in items ==> Sound(x)
    ensures ItemsCanonical(items)
    decreases items, 0
  {
    hide Sound, IsCanonical;
    if items != [] {
      SoundIsCanonical(items[0]);
      SoundItemsCanonical(items[1..]);
    }
  }

  lemma {:induction false} SoundPairsCanonical(pairs: seq<KV>)
    requires forall kv :: kv in pairs ==> SoundKV(kv)
    ensures PairsCanonical(pairs)
    decreases pairs, 0
  {
    hide Sound, IsCanonical;
    if pairs != [] {
      assert SoundKV(pairs[0]);
      SoundIsCanonical(pairs[0].val);
      SoundPairsCanonical(pairs[1..]);
    }
  }

  /** No float, no integer beyond the print buffer, and no string that may have been cut. */
  predicate Printed18(o: Obj)
    decreases o
  {
    match o
    case I64(i) => INT_LOW < i < INT_HIGH
    case F64(_) => false
    case Buf(_, s) => |s| < UINT16_MAX
    case List(_, items) => forall x :: x in items ==> Printed18(x)
    case Map(_, pairs) => forall kv :: kv in pairs ==> |kv.key| < UINT16_MAX && Printed18(kv.val)
    case _ => true
  }

  lemma {:induction false} SoundIsSendable(o: Obj)
    requires Sound(o) && Printed18(o)
    ensures Sendable(o)
    decreases o
  {
    hide Utf8Text, Canon;
    if o.List? {
      forall x | x in o.items ensures Sendable(x) {
        SoundIsSendable(x);
      }
    } else if o.Map? {
      forall kv | kv in o.pairs ensures TextOk(kv.key) && Sendable(kv.val) {
        assert SoundKV(kv);
        SoundIsSendable(kv.val);
      }
    }
  }

  /** Every document that decodes gives a canonical tree of 64-bit integers and UTF-8 strings. */
  lemma DecodedIsSound(s: bytes, base: nat, space: Space, want: bool, strtod: Strtod)
    ensures var d := DecodeDocument(s, base, space, want, strtod); d.ret == Ok ==> Sound(d.obj) && IsCanonical(d.obj)
  {
    hide Decode, Sound, IsCanonical;
    DecodeSound(s, base, space, want, strtod);
    var r := Decode(s, base, space, want, strtod);
    if r.Good? {
      SoundIsCanonical(r.obj);
    }
  }

  /** Decoding, printing and decoding again gives the first tree. */
  lemma DecodeFixpoint(s: bytes, base: nat, space: Space, base': nat, space': Space, strtod: Strtod, show: Show)
    ensures var d := DecodeDocument(s, base, space, true, strtod);
            d.ret == Ok && Printed18(d.obj) && Need(d.obj) <= Free(space') ==>
              var e := DecodeDocument(Text(d.obj, show), base', space', true, strtod);
              Printable(d.obj, show) && e.ret == Ok && Erase(e.obj) == Erase(d.obj)
  {
    hide DecodeDocument, Sound, IsCanonical, Printed18, Sendable, Need, Text, Printable, Erase;
    DecodedIsSound(s, base, space, true, strtod);
    var d := DecodeDocument(s, base, space, true, strtod);
    if d.ret == Ok && Printed18(d.obj) && Need(d.obj) <= Free(space') {
      SoundIsSendable(d.obj);
      SendablePrints(d.obj, show);
      RoundTrip(d.obj, base', space', strtod, show);
    }
  }
}
