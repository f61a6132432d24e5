/**
 Printing a tree and decoding the text gives the tree's canonical form: the two programs of the JSON
 component agree on what a document means.
 */
module JsonRoundTrip {
  import opened Common
  import opened Memory
  import opened Objects
  import opened MapOrder
  import opened DeepCanonical
  import opened Equivalence
  import opened JsonGrammar
  import opened JsonScan
  import opened JsonScanProof
  import opened JsonLocal
  import opened JsonUnescape
  import opened IntParse
  import opened JsonDecode
  import opened JsonTwoPass
  import opened JsonEncode
  import opened JsonPrinted
  import opened JsonDecodeInPlace

  // ---------- which trees survive ----------

  const INT_LOW := -100_000_000_000_000_000
  const INT_HIGH := 1_000_000_000_000_000_000

  /** A string or key: UTF-8 in structure and of a length that 16 bits hold. */
  predicate TextOk(s: bytes) {
    Utf8Text(s) && |s| <= UINT16_MAX
  }

  /** No floats, proper strings, lengths that 16 bits hold, and integers that print in 18 characters. */
  predicate Sendable(o: Obj)
    decreases o, 0
  {
    match o
    case I64(i) => INT_LOW < i < INT_HIGH
    case F64(_) => false
    case Buf(_, s) => TextOk(s)
    case List(_, items) => |items| <= UINT16_MAX && forall x :: x in items ==> Sendable(x)
    case Map(_, pairs) => |pairs| <= UINT16_MAX && forall kv :: kv in pairs ==> TextOk(kv.key) && Sendable(kv.val)
    case _ => true
  }

  predicate AllSendable(items: seq<Obj>) {
    forall x :: x in items ==> Sendable(x)
  }

  predicate PairsSendable(pairs: seq<KV>) {
    forall kv :: kv in pairs ==> TextOk(kv.key) && Sendable(kv.val)
  }

  /** Arena memory that decoding the tree's text takes. */
  function Need(o: Obj): nat
    decreases o, 1
  {
    match o
    case List(_, items) => ObjectBytes(|items|) + NeedItems(items)
    case Map(_, pairs) => PairBytes(|pairs|) + NeedPairs(pairs)
    case _ => 0
  }

  function NeedItems(items: seq<Obj>): nat
    decreases items, 0
  {
    if items == [] then 0 else Need(items[0]) + NeedItems(items[1..])
  }

  function NeedPairs(pairs: seq<KV>): nat
    decreases pairs, 0
  {
    if pairs == [] then 0 else Need(pairs[0].val) + NeedPairs(pairs[1..])
  }

  // ---------- the length of printed integers ----------

  function Pow10(k: nat): (r: nat)
    ensures r > 0
  {
    if k == 0 then 1 else 10 * Pow10(k - 1)
  }

  lemma {:induction false} NatTextLength(n: nat, k: nat)
    requires k > 0
    ensures |NatText(n)| <= k <==> n < Pow10(k)
    decreases k
  {
    if n < 10 {
      assert Pow10(k) == 10 * Pow10(k - 1);
    } else if k == 1 {
      assert Pow10(1) == 10 * Pow10(0) == 10;
    } else {
      NatTextLength(n / 10, k - 1);
      assert n / 10 < Pow10(k - 1) <==> n < 10 * Pow10(k - 1);
    }
  }

  lemma Powers()
    ensures Pow10(17) == 100_000_000_000_000_000 && Pow10(18) == 1_000_000_000_000_000_000
    ensures Pow10(19) == 10_000_000_000_000_000_000
  {
    assert Pow10(4) == 10_000;
    assert Pow10(8) == 100_000_000;
    assert Pow10(12) == 1_000_000_000_000;
    assert Pow10(16) == 10_000_000_000_000_000;
  }

  lemma IntTextLength(v: int)
    ensures |IntText(v)| < INT_BUFFER <==> INT_LOW < v < INT_HIGH
    ensures |IntText(v)| <= INT_BUFFER <==> -INT_HIGH < v < 10 * INT_HIGH
  {
    hide NatText;
    Powers();
    NatTextLength(if v < 0 then -v else v, 17);
    NatTextLength(if v < 0 then -v else v, 18);
    NatTextLength(if v < 0 then -v else v, 19);
  }

  lemma TextOfInt(v: int, show: Show)
    requires INT_LOW < v < INT_HIGH
    ensures Text(I64(v), show) == IntText(v)
  {
    IntTextLength(v);
  }

  // ---------- the content of brackets ----------

  /** Elements separated by commas. */
  function ItemsBody(items: seq<Obj>, show: Show): bytes {
    if items == [] then [] else Text(items[0], show) + ItemsMore(items[1..], show)
  }

  function ItemsMore(items: seq<Obj>, show: Show): bytes
    decreases |items|
  {
    if items == [] then [] else [0x2C] + Text(items[0], show) + ItemsMore(items[1..], show)
  }

  function PairText(kv: KV, show: Show): bytes {
    Quoted(kv.key) + [0x3A] + Text(kv.val, show)
  }

  function PairsBody(pairs: seq<KV>, show: Show): bytes {
    if pairs == [] then [] else PairText(pairs[0], show) + PairsMore(pairs[1..], show)
  }

  function PairsMore(pairs: seq<KV>, show: Show): bytes
    decreases |pairs|
  {
    if pairs == [] then [] else [0x2C] + PairText(pairs[0], show) + PairsMore(pairs[1..], show)
  }

  lemma {:induction false} ItemsTextIs(items: seq<Obj>, i: nat, show: Show)
    requires 0 < i <= |items|
    ensures ItemsText(items, i, show) == ItemsMore(items[i..], show) + [0x5D]
    decreases |items| - i
  {
    hide Text;
    if i < |items| {
      assert items[i..][0] == items[i] && items[i..][1..] == items[i + 1..];
      ItemsTextIs(items, i + 1, show);
    }
  }

  lemma {:induction false} PairsTextIs(pairs: seq<KV>, i: nat, show: Show)
    requires 0 < i <= |pairs|
    ensures PairsText(pairs, i, show) == PairsMore(pairs[i..], show) + [0x7D]
    decreases |pairs| - i
  {
    hide Text, Quoted;
    if i < |pairs| {
      assert pairs[i..][0] == pairs[i] && pairs[i..][1..] == pairs[i + 1..];
      PairsTextIs(pairs, i + 1, show);
      var a, b, c := PairText(pairs[i], show), PairsMore(pairs[i + 1..], show), [0x7D];
      assert [0x2C] + a + (b + c) == [0x2C] + a + b + c;
      assert [0x2C] + Quoted(pairs[i].key) + [0x3A] + Text(pairs[i].val, show) == [0x2C] + a;
    }
  }

  lemma {:induction false} ListTextIs(at: nat, items: seq<Obj>, show: Show)
    ensures Text(List(at, items), show) == [0x5B] + ItemsBody(items, show) + [0x5D]
  {
    hide ItemsMore;
    if items != [] {
      ItemsTextIs(items, 1, show);
    }
  }

  lemma {:induction false} MapTextIs(at: nat, pairs: seq<KV>, show: Show)
    ensures Text(Map(at, pairs), show) == [0x7B] + PairsBody(pairs, show) + [0x7D]
  {
    hide PairsMore, Quoted;
    if pairs != [] {
      PairsTextIs(pairs, 1, show);
      var kv := pairs[0];
      assert Comma(0) + Quoted(kv.key) + [0x3A] + Text(kv.val, show) == PairText(kv, show);
    }
  }

  // ---------- scanning printed text ----------

  /** What follows a value inside a document. */
  predicate Follow(r: bytes) {
    r == [] || r[0] == 0x2C || r[0] == 0x5D || r[0] == 0x7D
  }

  /** A value's text begins with something that is not whitespace and not a closing bracket. */
  lemma {:induction false} TextStarts(o: Obj, show: Show)
    requires Sendable(o)
    ensures |Text(o, show)| > 0 && !IsSpace(Text(o, show)[0])
  {
    if o.I64? {
      TextOfInt(o.i, show);
      IntStarts(o.i);
    }
  }

  function ScanOf(o: Obj, show: Show): Scan {
    var n := |Text(o, show)|;
    match o
    case Null => Scan(n, TNull, 0, n, 0)
    case Bool(b) => Scan(n, if b then TTrue else TFalse, 0, n, 0)
    case Buf(_, _) => Scan(n, TStr, 1, if n < 2 then 0 else n - 2, 0)
    case List(_, items) => Scan(n, TArray, 1, |ItemsBody(items, show)|, |items|)
    case Map(_, pairs) => Scan(n, TObject, 1, |PairsBody(pairs, show)|, |pairs|)
    case _ => Scan(n, TNumber, 0, n, 0)
  }

  lemma LiteralScans(t: bytes, r: bytes)
    requires t == TRUE_TEXT || t == FALSE_TEXT || t == NULL_TEXT
    ensures Core(t + r) == Some(Scan(|t|, if t == TRUE_TEXT then TTrue else if t == FALSE_TEXT then TFalse else TNull, 0, |t|, 0))
  {
    var s := t + r;
    assert s[..|t|] == t && s[0] == t[0];
  }

  lemma {:induction false} ScanText(o: Obj, r: bytes, show: Show)
    requires Sendable(o) && Follow(r)
    ensures Val(Text(o, show) + r) == Some(ScanOf(o, show))
    decreases o, 2
  {
    hide Core, Val, ItemsBody, PairsBody, Quoted, IntText;
    var s := Text(o, show) + r;
    TextStarts(o, show);
    assert s[0] == Text(o, show)[0];
    assert s[|Text(o, show)|..] == r;
    if o.List? {
      ScanList(o, r, show);
    } else if o.Map? {
      ScanMap(o, r, show);
    } else if o.Buf? {
      CoreOfText(o.bytes, r);
    } else if o.I64? {
      TextOfInt(o.i, show);
      CoreOfInt(o.i, r);
    } else {
      LiteralScans(Text(o, show), r);
    }
    ValOfCore(s);
  }

  /** The bracketed content of an array or object. */
  lemma EnclosedIs(open: byte, body: bytes, close: byte, r: bytes, ty: JsonType, count: nat)
    requires body == [] || !IsSpace(body[0])
    requires !IsSpace(close)
    ensures var s := [open] + body + [close] + r;
            && WsLen(s[1..]) == 0 && s[1 + WsLen(s[1..])..] == body + [close] + r
            && (body != [] ==> Enclosed(s, ty, close, Some(Extent(|body|, count))) == Some(Scan(|body| + 2, ty, 1, |body|, count)))
            && (body == [] ==> Enclosed(s, ty, close, None) == Some(Scan(2, ty, 1, 0, 0)))
  {
    var s := [open] + body + [close] + r;
    assert s[1..] == body + [close] + r;
    assert s[1 + |body|] == close;
  }

  lemma {:induction false} ScanList(o: Obj, r: bytes, show: Show)
    requires o.List? && Sendable(o)
    ensures Core(Text(o, show) + r) == Some(ScanOf(o, show))
    decreases o, 1
  {
    hide Core, Val, Elems, ItemsBody, WsLen, Enclosed, Text;
    ListTextIs(o.at, o.items, show);
    var body := ItemsBody(o.items, show);
    var s := [0x5B] + body + [0x5D] + r;
    assert Text(o, show) + r == s && |Text(o, show)| == |body| + 2;
    if o.items == [] {
      assert body == [] by { EmptyBodies(show); }
      CloserIsNoMember(body + [0x5D] + r);
    } else {
      BodyStarts(o.items, show);
      ScanItems(o.items, [0x5D] + r, show);
      assert body + ([0x5D] + r) == body + [0x5D] + r;
    }
    EnclosedIs(0x5B, body, 0x5D, r, TArray, |o.items|);
    CoreArray(s);
  }

  lemma EmptyBodies(show: Show)
    ensures ItemsBody([], show) == [] && PairsBody([], show) == []
  {
  }

  lemma {:induction false} BodyStarts(items: seq<Obj>, show: Show)
    requires items != [] && AllSendable(items)
    ensures var b := ItemsBody(items, show); b != [] && !IsSpace(b[0])
  {
    hide Text, ItemsMore, Sendable;
    assert items[0] in items;
    TextStarts(items[0], show);
  }

  lemma PairStarts(kv: KV, show: Show)
    ensures |PairText(kv, show)| > 0
  {
    hide Text;
  }

  lemma {:induction false} PairsBodyStarts(pairs: seq<KV>, show: Show)
    requires pairs != []
    ensures var b := PairsBody(pairs, show); b != [] && b[0] == 0x22
  {
    hide Text, PairsMore;
  }

  lemma ScanLength(o: Obj, show: Show)
    ensures ScanOf(o, show).n == |Text(o, show)|
  {
    hide Text;
  }

  /** After an element comes the rest of the content and then whatever closes it. */
  lemma {:induction false} ScanItems(items: seq<Obj>, r: bytes, show: Show)
    requires items != [] && AllSendable(items) && Follow(r) && r != [] && r[0] != 0x2C
    ensures Elems(ItemsBody(items, show) + r) == Some(Extent(|ItemsBody(items, show)|, |items|))
    decreases items, 0
  {
    hide Val, Elems, Text, ItemsBody, Sendable, ScanOf;
    var body := ItemsBody(items, show);
    var t := Text(items[0], show);
    ScanLength(items[0], show);
    var s := body + r;
    BodyIs(items, show);
    assert items[0] in items;
    ElemsUnfold(s);
    if |items| == 1 {
      assert s == t + r;
      ScanText(items[0], r, show);
      assert s[|t|] == r[0];
    } else {
      var rest := items[1..];
      assert AllSendable(rest);
      var u := ItemsBody(rest, show) + r;
      assert s == t + ([0x2C] + u);
      ScanText(items[0], [0x2C] + u, show);
      assert s[|t|] == 0x2C && s[|t| + 1..] == u;
      ScanItems(rest, r, show);
    }
  }

  /** One element and then the rest. */
  lemma {:induction false} BodyIs(items: seq<Obj>, show: Show)
    requires items != []
    ensures ItemsBody(items, show) ==
            if |items| == 1 then Text(items[0], show)
            else Text(items[0], show) + [0x2C] + ItemsBody(items[1..], show)
  {
    hide Text;
    if |items| > 1 {
      var rest := items[1..];
      assert [0x2C] + Text(rest[0], show) + ItemsMore(rest[1..], show) == [0x2C] + ItemsBody(rest, show);
      assert ItemsMore(rest, show) == [0x2C] + ItemsBody(rest, show);
    } else {
      assert items[1..] == [] && ItemsMore([], show) == [];
    }
  }

  lemma {:induction false} PairsBodyIs(pairs: seq<KV>, show: Show)
    requires pairs != []
    ensures PairsBody(pairs, show) ==
            if |pairs| == 1 then PairText(pairs[0], show)
            else PairText(pairs[0], show) + [0x2C] + PairsBody(pairs[1..], show)
  {
    hide PairText;
    if |pairs| > 1 {
      var rest := pairs[1..];
      assert [0x2C] + PairText(rest[0], show) + PairsMore(rest[1..], show) == [0x2C] + PairsBody(rest, show);
      assert PairsMore(rest, show) == [0x2C] + PairsBody(rest, show);
    } else {
      assert pairs[1..] == [] && PairsMore([], show) == [];
    }
  }

  lemma {:induction false} ScanMap(o: Obj, r: bytes, show: Show)
    requires o.Map? && Sendable(o)
    ensures Core(Text(o, show) + r) == Some(ScanOf(o, show))
    decreases o, 1
  {
    hide Core, Val, Members, PairsBody, WsLen, Enclosed, Text;
    MapTextIs(o.at, o.pairs, show);
    var body := PairsBody(o.pairs, show);
    var s := [0x7B] + body + [0x7D] + r;
    assert Text(o, show) + r == s && |Text(o, show)| == |body| + 2;
    if o.pairs == [] {
      assert body == [] by { EmptyBodies(show); }
      CloserIsNoMember(body + [0x7D] + r);
    } else {
      PairsBodyStarts(o.pairs, show);
      ScanPairs(o.pairs, [0x7D] + r, show);
      assert body + ([0x7D] + r) == body + [0x7D] + r;
    }
    EnclosedIs(0x7B, body, 0x7D, r, TObject, |o.pairs|);
    CoreObject(s);
  }

  lemma {:induction false} ScanPair(kv: KV, r: bytes, show: Show)
    requires TextOk(kv.key) && Sendable(kv.val) && Follow(r)
    ensures KvLen(PairText(kv, show) + r) == |PairText(kv, show)|
    decreases kv, 3
  {
    hide Val, Text, Quoted, StrLen, WsLen, KvLen, Sendable;
    var q, t := Quoted(kv.key), Text(kv.val, show);
    var s := PairText(kv, show) + r;
    var u := [0x3A] + t + r;
    assert s == q + u;
    QuotedScans(kv.key, u);
    assert s[|q|..] == u && s[|q|] == 0x3A;
    assert WsLen(u) == 0 by { ColonIsNoSpace(u); }
    assert s[|q| + 1..] == t + r;
    ScanText(kv.val, r, show);
    KvUnfold(s);
  }

  lemma ColonIsNoSpace(u: bytes)
    requires u == [] || !IsSpace(u[0])
    ensures WsLen(u) == 0
  {
  }

  lemma {:induction false} ScanPairs(pairs: seq<KV>, r: bytes, show: Show)
    requires pairs != [] && PairsSendable(pairs) && Follow(r) && r != [] && r[0] != 0x2C
    ensures Members(PairsBody(pairs, show) + r) == Some(Extent(|PairsBody(pairs, show)|, |pairs|))
    decreases pairs, 0
  {
    hide Val, KvLen, Members, PairText, PairsBody, Sendable, TextOk, WsLen;
    var body := PairsBody(pairs, show);
    var t := PairText(pairs[0], show);
    var s := body + r;
    PairsBodyIs(pairs, show);
    assert pairs[0] in pairs;
    MembersUnfold(s);
    assert |t| > 0 by { PairStarts(pairs[0], show); }
    if |pairs| == 1 {
      assert s == t + r;
      ScanPair(pairs[0], r, show);
      assert |t| < |s| && s[|t|] == r[0];
    } else {
      var rest := pairs[1..];
      assert PairsSendable(rest);
      var u := PairsBody(rest, show) + r;
      assert s == t + ([0x2C] + u);
      ScanPair(pairs[0], [0x2C] + u, show);
      assert s[|t|] == 0x2C && s[|t| + 1..] == u;
      PairsBodyStarts(rest, show);
      assert WsLen(u) == 0 by { ColonIsNoSpace(u); }
      ScanPairs(rest, r, show);
    }
  }

  // ---------- decoding printed text ----------

  /** The arena after another `n` bytes. */
  function Used(space: Space, n: nat): Space {
    space.(index := space.index + n)
  }

  ghost predicate GivesBack(d: Decoded, o: Obj, n: nat, space: Space) {
    d.Good? && d.n == n && d.space == space && Erase(d.obj) == Norm(o)
  }

  ghost predicate GivesItems(d: Items, items: seq<Obj>, n: nat, space: Space) {
    d.GoodItems? && d.n == n && d.space == space && EraseItems(d.items) == EraseItems(DeepItems(items))
  }

  ghost predicate GivesPairs(d: Pairs, pairs: seq<KV>, n: nat, space: Space) {
    d.GoodPairs? && d.n == n && d.space == space && ErasePairs(d.pairs) == NormPairs(pairs)
  }

  lemma TruncWhole<T>(s: seq<T>)
    requires |s| <= UINT16_MAX
    ensures Trunc(s) == s
  {
  }

  lemma {:induction false} DecodeInt(v: int, r: bytes, base: nat, space: Space, strtod: Strtod, show: Show)
    requires INT_LOW < v < INT_HIGH && Follow(r)
    ensures var t := Text(I64(v), show); Decode(t + r, base, space, true, strtod) == Good(I64(v), |t|, space)
  {
    hide Decode, Val, IntText, Text, IntLen, FracLen, ExpLen;
    var t := Text(I64(v), show);
    ScanText(I64(v), r, show);
    TextOfInt(v, show);
    DecodeNumberIs(t + r, base, space, true, strtod);
    assert (t + r)[0..0 + |t|] == t;
    IntScans(v, []);
    assert t + [] == t && t[|t|..] == [];
    NothingMore();
    IntParses(v);
  }

  lemma NothingMore()
    ensures FracLen([]) == 0 && ExpLen([]) == 0
  {
  }

  lemma {:induction false} DecodeString(s: bytes, r: bytes, base: nat, space: Space, strtod: Strtod)
    requires TextOk(s) && (r == [] || !IsSpace(r[0]))
    ensures Decode(Quoted(s) + r, base, space, true, strtod) == Good(Buf(base + 1, s), |Quoted(s)|, space)
  {
    hide Decode, Val, Core, Unescape, EscapedText;
    var q := Quoted(s);
    CoreOfText(s, r);
    assert (q + r)[0] == 0x22;
    assert |q| < |q + r| ==> (q + r)[|q|] == r[0];
    ValOfCore(q + r);
    DecodeTextIs(q + r, base, space, true, strtod);
    TruncWhole(s);
  }

  lemma {:induction false} DecodeText(o: Obj, r: bytes, base: nat, space: Space, strtod: Strtod, show: Show)
    requires Sendable(o) && Follow(r) && Need(o) <= Free(space)
    ensures GivesBack(Decode(Text(o, show) + r, base, space, true, strtod), o, |Text(o, show)|, Used(space, Need(o)))
    decreases o, 2
  {
    hide Decode, Val, Quoted, IntText;
    if o.List? {
      DecodeList(o, r, base, space, strtod, show);
    } else if o.Map? {
      DecodeMap(o, r, base, space, strtod, show);
    } else if o.Buf? {
      DecodeString(o.bytes, r, base, space, strtod);
    } else if o.I64? {
      DecodeInt(o.i, r, base, space, strtod, show);
    } else {
      ScanText(o, r, show);
      DecodeLiteralIs(Text(o, show) + r, base, space, true, strtod);
    }
  }

  /** The content of brackets in a document. */
  lemma Inside(open: byte, body: bytes, close: byte, r: bytes)
    ensures ([open] + body + [close] + r)[1..1 + |body|] == body
  {
  }

  lemma {:induction false} DecodeList(o: Obj, r: bytes, base: nat, space: Space, strtod: Strtod, show: Show)
    requires o.List? && Sendable(o) && Follow(r) && Need(o) <= Free(space)
    ensures GivesBack(Decode(Text(o, show) + r, base, space, true, strtod), o, |Text(o, show)|, Used(space, Need(o)))
    decreases o, 1
  {
    hide Decode, Val, Text, ItemsBody, DecodeItems, ObjectBytes, NeedItems, DeepItems, Trunc;
    var items := o.items;
    var s, body := Text(o, show) + r, ItemsBody(items, show);
    ScanText(o, r, show);
    ListTextIs(o.at, items, show);
    Inside(0x5B, body, 0x5D, r);
    DecodeArrayIs(s, base, space, true, strtod);
    var space1 := Used(space, ObjectBytes(|items|));
    DecodeListItems(items, base + 1, space1, strtod, show);
    var d := DecodeItems(body, base + 1, |items|, space1, true, strtod);
    TruncWhole(d.items);
  }

  lemma {:induction false} DecodeListItems(items: seq<Obj>, base: nat, space: Space, strtod: Strtod, show: Show)
    requires AllSendable(items) && NeedItems(items) <= Free(space)
    ensures GivesItems(DecodeItems(ItemsBody(items, show), base, |items|, space, true, strtod),
                       items, |ItemsBody(items, show)|, Used(space, NeedItems(items)))
    decreases items, 0
  {
    hide Decode, Text, ItemsBody, DecodeItems, Sendable, Need, Erase, DeepCanon;
    var body := ItemsBody(items, show);
    if items == [] {
      EmptyBodies(show);
      NoItems(body, base, space, true, strtod);
    } else {
      var o, t, rest := items[0], Text(items[0], show), items[1..];
      assert o in items;
      BodyIs(items, show);
      ItemsIs(body, base, |items|, space, true, strtod);
      EraseSplit(items);
      if |items| == 1 {
        DecodeText(o, [], base, space, strtod, show);
        assert t + [] == t;
        assert rest == [];
        EraseOne(Decode(body, base, space, true, strtod).obj);
        assert EraseItems(DeepItems(rest)) == [];
        assert NeedItems(rest) == 0;
      } else {
        assert AllSendable(rest);
        var body1 := ItemsBody(rest, show);
        assert body == t + ([0x2C] + body1);
        DecodeText(o, [0x2C] + body1, base, space, strtod, show);
        var d := Decode(body, base, space, true, strtod);
        assert ByteAt(body, |t|, 0x2C) && body[|t| + 1..] == body1;
        DecodeListItems(rest, base + |t| + 1, d.space, strtod, show);
        EraseCons(d.obj, DecodeItems(body1, base + |t| + 1, |rest|, d.space, true, strtod).items);
      }
    }
  }

  lemma EraseSplit(items: seq<Obj>)
    requires items != []
    ensures EraseItems(DeepItems(items)) == [Norm(items[0])] + EraseItems(DeepItems(items[1..]))
  {
    hide Erase, DeepCanon;
    assert DeepItems(items)[1..] == DeepItems(items[1..]);
  }

  lemma EraseOne(o: Obj)
    ensures EraseItems([o]) == [Erase(o)]
  {
    hide Erase;
    assert [o][1..] == [];
  }

  lemma EraseCons(o: Obj, items: seq<Obj>)
    ensures EraseItems([o] + items) == [Erase(o)] + EraseItems(items)
  {
    hide Erase;
    assert ([o] + items)[1..] == items;
  }

  lemma {:induction false} DecodeMap(o: Obj, r: bytes, base: nat, space: Space, strtod: Strtod, show: Show)
    requires o.Map? && Sendable(o) && Follow(r) && Need(o) <= Free(space)
    ensures GivesBack(Decode(Text(o, show) + r, base, space, true, strtod), o, |Text(o, show)|, Used(space, Need(o)))
    decreases o, 1
  {
    hide Decode, Val, Text, PairsBody, DecodePairs, PairBytes, NeedPairs, DeepPairs, Trunc, Canon, Norm, NormPairs;
    var pairs := o.pairs;
    var s, body := Text(o, show) + r, PairsBody(pairs, show);
    ScanText(o, r, show);
    MapTextIs(o.at, pairs, show);
    Inside(0x7B, body, 0x7D, r);
    DecodeObjectIs(s, base, space, true, strtod);
    var space1 := Used(space, PairBytes(|pairs|));
    DecodeMapPairs(pairs, base + 1, space1, strtod, show);
    var d := DecodePairs(body, base + 1, |pairs|, space1, true, strtod);
    TruncWhole(Canon(d.pairs));
    EraseCanon(d.pairs);
    NormMap(o.at, pairs);
  }

  lemma {:induction false} DecodeMapPairs(pairs: seq<KV>, base: nat, space: Space, strtod: Strtod, show: Show)
    requires PairsSendable(pairs) && NeedPairs(pairs) <= Free(space)
    ensures GivesPairs(DecodePairs(PairsBody(pairs, show), base, |pairs|, space, true, strtod),
                       pairs, |PairsBody(pairs, show)|, Used(space, NeedPairs(pairs)))
    decreases pairs, 0
  {
    hide Decode, DecodeMember, PairText, PairsBody, DecodePairs, Sendable, TextOk, Need, EraseKV, DeepKV, NormPairs;
    var body := PairsBody(pairs, show);
    if pairs == [] {
      EmptyBodies(show);
      NoItems(body, base, space, true, strtod);
      assert NormPairs([]) == [] by { NoPairs(); }
    } else {
      var kv, t, rest := pairs[0], PairText(pairs[0], show), pairs[1..];
      assert kv in pairs;
      PairsBodyIs(pairs, show);
      PairsIs(body, base, |pairs|, space, true, strtod);
      NormSplit(pairs);
      if |pairs| == 1 {
        DecodePair(kv, [], base, space, strtod, show);
        assert t + [] == t;
        assert rest == [];
        NoPairs();
        ErasePairCons(DecodeMember(body, base, space, true, strtod).kv, []);
        assert NeedPairs(rest) == 0;
      } else {
        assert PairsSendable(rest);
        var body1 := PairsBody(rest, show);
        assert body == t + ([0x2C] + body1);
        DecodePair(kv, [0x2C] + body1, base, space, strtod, show);
        var d := DecodeMember(body, base, space, true, strtod);
        assert ByteAt(body, |t|, 0x2C) && body[|t| + 1..] == body1;
        DecodeMapPairs(rest, base + |t| + 1, d.space, strtod, show);
        ErasePairCons(d.kv, DecodePairs(body1, base + |t| + 1, |rest|, d.space, true, strtod).pairs);
      }
    }
  }

  lemma NoPairs()
    ensures NormPairs([]) == [] && ErasePairs([]) == []
  {
  }

  lemma NormSplit(pairs: seq<KV>)
    requires pairs != []
    ensures NormPairs(pairs) == [NormKV(pairs[0])] + NormPairs(pairs[1..])
  {
    hide EraseKV, DeepKV;
    assert DeepPairs(pairs)[1..] == DeepPairs(pairs[1..]);
  }

  lemma ErasePairCons(kv: KV, pairs: seq<KV>)
    ensures ErasePairs([kv] + pairs) == [EraseKV(kv)] + ErasePairs(pairs)
    ensures pairs == [] ==> ErasePairs([kv]) == [EraseKV(kv)]
  {
    hide EraseKV;
    assert ([kv] + pairs)[1..] == pairs;
    assert [kv] + [] == [kv];
  }

  lemma {:induction false} DecodePair(kv: KV, r: bytes, base: nat, space: Space, strtod: Strtod, show: Show)
    requires TextOk(kv.key) && Sendable(kv.val) && Follow(r) && Need(kv.val) <= Free(space)
    ensures var d := DecodeMember(PairText(kv, show) + r, base, space, true, strtod);
            d.GoodMember? && d.n == |PairText(kv, show)| && d.space == Used(space, Need(kv.val)) && EraseKV(d.kv) == NormKV(kv)
    decreases kv, 3
  {
    hide Decode, DecodeMember, Text, Quoted, Sendable, TextOk, Need, Erase, DeepCanon;
    var q, t := Quoted(kv.key), Text(kv.val, show);
    var s := PairText(kv, show) + r;
    var u := [0x3A] + t + r;
    assert s == q + u;
    MemberIs(s, base, space, true, strtod);
    DecodeString(kv.key, u, base, space, strtod);
    assert ByteAt(s, |q|, 0x3A) && s[|q| + 1..] == t + r;
    DecodeText(kv.val, r, base + |q| + 1, space, strtod, show);
  }

  lemma {:induction false} MemberIs(s: bytes, base: nat, space: Space, want: bool, strtod: Strtod)
    ensures var key := Decode(s, base, space, true, strtod);
            key.Good? && key.obj.Buf? && ByteAt(s, key.n, 0x3A) ==>
              DecodeMember(s, base, space, want, strtod) ==
              MemberOf(key, Decode(s[key.n + 1..], base + key.n + 1, key.space, want, strtod))
  {
    hide Decode;
  }

  // ---------- the round trip ----------

  lemma {:induction false} NeedBound(o: Obj)
    ensures Need(o) <= OBJECT_SIZE * Count(o)
    decreases o, 1
  {
    if o.List? {
      NeedItemsBound(o.items);
    } else if o.Map? {
      NeedPairsBound(o.pairs);
    }
  }

  lemma {:induction false} NeedItemsBound(items: seq<Obj>)
    ensures NeedItems(items) <= OBJECT_SIZE * CountItems(items)
    decreases items, 0
  {
    if items != [] {
      NeedBound(items[0]);
      NeedItemsBound(items[1..]);
    }
  }

  lemma {:induction false} NeedPairsBound(pairs: seq<KV>)
    ensures NeedPairs(pairs) <= OBJECT_SIZE * CountPairs(pairs)
    decreases pairs, 0
  {
    if pairs != [] {
      NeedBound(pairs[0].val);
      NeedPairsBound(pairs[1..]);
    }
  }

  lemma {:induction false} SendablePrints(o: Obj, show: Show)
    requires Sendable(o)
    ensures Printable(o, show)
    decreases o
  {
    hide IntText;
    if o.List? {
      forall x | x in o.items ensures Printable(x, show) {
        SendablePrints(x, show);
      }
    } else if o.Map? {
      forall kv | kv in o.pairs ensures Printable(kv.val, show) {
        SendablePrints(kv.val, show);
      }
    } else if o.I64? {
      IntTextLength(o.i);
    }
  }

  /**
   Decoding the text of a tree, with room for an object per element and a pair per member, gives the
   tree's deep canonical form; a canonical tree comes back unchanged.
   */
  lemma {:induction false} RoundTrip(o: Obj, base: nat, space: Space, strtod: Strtod, show: Show)
    requires Sendable(o) && Need(o) <= Free(space)
    ensures var d := DecodeDocument(Text(o, show), base, space, true, strtod);
            && d.ret == Ok && d.space == Used(space, Need(o))
            && Erase(d.obj) == Erase(DeepCanon(o))
            && (IsCanonical(o) ==> Erase(d.obj) == Erase(o))
  {
    hide Decode, Text, Sendable, Need, Erase, DeepCanon, IsCanonical;
    DecodeText(o, [], base, space, strtod, show);
    assert Text(o, show) + [] == Text(o, show);
    DeepCanonMeets(o);
  }

  /**
   gg_json_encode followed by gg_json_decode_destructive, on the buffer itself. `ret` is the code of
   the first call that fails.
   */
  method EncodeThenDecode(o: Obj, capacity: nat, space: Space, strtod: Strtod, show: Show)
    returns (ret: Error, text: bytes, obj: Obj, space': Space)
    ensures Sendable(o) && WithinLimits(o) && |Text(o, show)| <= capacity && OBJECT_SIZE * Count(o) <= Free(space) ==>
              ret == Ok && text == Text(o, show) && Erase(obj) == Erase(DeepCanon(o))
    ensures ret == Ok ==> WithinLimits(o) && Printable(o, show) && text == Text(o, show)
    ensures ret == Ok ==> Document(ret, obj, space') == DecodeDocument(text, 0, space, true, strtod)
  {
    hide Text, Sendable, Need, Erase, DeepCanon, IsCanonical, Printable, WithinLimits, DecodeDocument, Backed, SameOutside;
    obj, space' := Null, space;
    ret, text := Encode(o, capacity, show);
    if Sendable(o) {
      SendablePrints(o, show);
      NeedBound(o);
    }
    if ret != Ok {
      return;
    }
    var mem := new byte[|text|](i requires 0 <= i < |text| => text[i]);
    assert mem[..] == text && mem[..][0..|text|] == text;
    ret, obj, space' := DecodeDestructive(mem, 0, |text|, space, true, strtod);
    if Sendable(o) && Need(o) <= Free(space) {
      RoundTrip(o, 0, space, strtod, show);
      DocumentIs(ret, obj, space', text, space, strtod);
    }
  }

  lemma DocumentIs(ret: Error, obj: Obj, space': Space, s: bytes, space: Space, strtod: Strtod)
    requires Document(ret, obj, space') == DecodeDocument(s, 0, space, true, strtod)
    ensures var d := DecodeDocument(s, 0, space, true, strtod); d.ret == ret && d.obj == obj
  {
    hide DecodeDocument;
  }
}
