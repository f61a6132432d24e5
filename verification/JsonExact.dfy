/**
 Which trees survive. The print buffer holds 18 characters and a terminator, and a text of 19 is let
 through with its last digit replaced by NUL; strings are printed whatever their bytes are. No scan
 accepts a NUL or text that is not structurally UTF-8, so a tree comes back exactly when all its
 integers are in range and all its strings are UTF-8.
 */
module JsonExact {
  import opened Common
  import opened Objects
  import opened JsonGrammar
  import opened JsonScan
  import opened JsonScanProof
  import opened JsonLocal
  import opened JsonDecode
  import opened JsonTwoPass
  import opened JsonEncode
  import opened JsonPrinted
  import opened JsonDecodeInPlace
  import opened JsonRoundTrip
  import opened IntParse
  import opened Visitor

  // ---------- structural UTF-8 ----------

  lemma {:induction false} Utf8Concat(a: bytes, b: bytes)
    requires Utf8Text(a) && Utf8Text(b)
    ensures Utf8Text(a + b)
    decreases |a|
  {
    if a == [] {
      assert a + b == b;
    } else {
      var n := Utf8Len(a[0]);
      assert (a + b)[n..] == a[n..] + b;
      Utf8Concat(a[n..], b);
      assert forall i :: 1 <= i < n ==> (a + b)[i] == a[i];
    }
  }

  lemma StaysInside(a: bytes, b: bytes)
    requires a != [] && Utf8Text(a + b) && (b == [] || b[0] < 0x80)
    ensures Utf8Len(a[0]) <= |a|
  {
    if b != [] {
      assert (a + b)[|a|] == b[0];
    }
  }

  /** No character reaches across the beginning of an ASCII character. */
  lemma {:induction false} Utf8Split(a: bytes, b: bytes)
    requires Utf8Text(a + b) && (b == [] || b[0] < 0x80)
    ensures Utf8Text(a) && Utf8Text(b)
    decreases |a|
  {
    var s := a + b;
    if a == [] {
      assert s == b;
    } else {
      var n := Utf8Len(s[0]);
      StaysInside(a, b);
      assert s[n..] == a[n..] + b;
      Utf8Split(a[n..], b);
      assert forall i :: 1 <= i < n ==> s[i] == a[i];
    }
  }

  lemma {:induction false} Utf8Ascii(s: bytes)
    requires forall i :: 0 <= i < |s| ==> s[i] < 0x80
    ensures Utf8Text(s)
    decreases |s|
  {
    if s != [] {
      Utf8Ascii(s[1..]);
    }
  }

  /** ASCII in front makes no difference. */
  lemma Utf8After(a: bytes, b: bytes)
    requires forall i :: 0 <= i < |a| ==> a[i] < 0x80
    ensures Utf8Text(a + b) <==> Utf8Text(b)
    decreases |a|
  {
    if a == [] {
      assert a + b == b;
    } else {
      assert (a + b)[1..] == a[1..] + b;
      Utf8After(a[1..], b);
    }
  }

  // ---------- no scan accepts a NUL or broken UTF-8 ----------

  /** The first `n` bytes hold no NUL and are structurally UTF-8. */
  ghost predicate Clean(s: bytes, n: nat) {
    n <= |s| && (forall i :: 0 <= i < n ==> s[i] != 0) && Utf8Text(s[..n])
  }

  lemma CleanJoin(s: bytes, a: nat, b: nat)
    requires Clean(s, a) && Clean(s[a..], b)
    ensures Clean(s, a + b)
  {
    hide Utf8Text;
    forall i | 0 <= i < a + b ensures s[i] != 0 {
      if i >= a {
        assert s[i] == s[a..][i - a];
      }
    }
    Utf8Concat(s[..a], s[a..][..b]);
    assert s[..a + b] == s[..a] + s[a..][..b];
  }

  lemma CleanAscii(s: bytes, n: nat)
    requires n <= |s| && forall i :: 0 <= i < n ==> 0 < s[i] < 0x80
    ensures Clean(s, n)
  {
    Utf8Ascii(s[..n]);
  }

  lemma CleanByte(s: bytes)
    requires s != [] && 0 < s[0] < 0x80
    ensures Clean(s, 1)
  {
    CleanAscii(s, 1);
  }

  lemma {:induction false} CleanRuns(s: bytes)
    ensures Clean(s, WsLen(s)) && Clean(s, DigitsLen(s))
  {
    hide Clean;
    CleanNone(s);
    if s != [] {
      CleanRuns(s[1..]);
      if IsSpace(s[0]) {
        CleanByte(s);
        CleanJoin(s, 1, WsLen(s[1..]));
      } else if IsDigit(s[0]) {
        CleanByte(s);
        CleanJoin(s, 1, DigitsLen(s[1..]));
      }
    }
  }

  lemma CleanChar(s: bytes)
    ensures Clean(s, CharLen(s))
  {
    var n := CodepointLen(s);
    if n > 0 {
      assert forall i :: 1 <= i < n ==> IsContinuation(s[i]);
      assert s[..n][n..] == [];
      assert forall i :: 1 <= i < n ==> s[..n][i] == s[i];
    } else {
      CleanAscii(s, EscapeLen(s));
    }
  }

  lemma {:induction false} CleanStr(s: bytes)
    ensures Clean(s, StrLen(s))
  {
    hide CharsLen, Clean;
    CleanNone(s);
    if StrLen(s) > 0 {
      var n := CharsLen(s[1..]);
      CleanByte(s);
      CleanChars(s[1..]);
      CleanJoin(s, 1, n);
      CleanByte(s[1 + n..]);
      CleanJoin(s, 1 + n, 1);
    }
  }

  lemma {:induction false} CleanChars(s: bytes)
    ensures Clean(s, CharsLen(s))
    decreases |s|
  {
    hide CharLen, Clean;
    CleanChar(s);
    var c := CharLen(s);
    if c > 0 {
      CleanChars(s[c..]);
      CleanJoin(s, c, CharsLen(s[c..]));
    }
  }

  lemma {:induction false} CleanInt(s: bytes)
    ensures Clean(s, IntLen(s))
  {
    hide DigitsLen, Clean;
    CleanNone(s);
    var g := SignLen(s);
    var t := s[g..];
    if NatLen(t) > 0 {
      CleanByte(t);
      CleanRuns(t[1..]);
      CleanNone(t[1..]);
      CleanJoin(t, 1, if t[0] == 0x30 then 0 else DigitsLen(t[1..]));
      if g > 0 {
        CleanByte(s);
      }
      CleanJoin(s, g, NatLen(t));
    }
  }

  lemma {:induction false} CleanTail(s: bytes)
    ensures Clean(s, FracLen(s)) && Clean(s, ExpLen(s))
  {
    hide DigitsLen, Clean;
    CleanNone(s);
    if s != [] {
      CleanRuns(s[1..]);
      if FracLen(s) > 0 {
        CleanByte(s);
        CleanJoin(s, 1, DigitsLen(s[1..]));
      } else if ExpLen(s) > 0 {
        var g := ExpSignLen(s[1..]);
        CleanByte(s);
        CleanNone(s[1..]);
        if g > 0 {
          CleanByte(s[1..]);
        }
        CleanJoin(s, 1, g);
        CleanRuns(s[1 + g..]);
        CleanJoin(s, 1 + g, DigitsLen(s[1 + g..]));
      }
    }
  }

  lemma {:induction false} CleanNum(s: bytes)
    ensures Clean(s, NumLen(s))
  {
    hide IntLen, FracLen, ExpLen, Clean;
    if NumLen(s) > 0 {
      var i := IntLen(s);
      CleanInt(s);
      CleanTail(s[i..]);
      var f := FracLen(s[i..]);
      CleanJoin(s, i, f);
      CleanTail(s[i + f..]);
      CleanJoin(s, i + f, ExpLen(s[i + f..]));
    } else {
      CleanNone(s);
    }
  }

  lemma CleanNone(s: bytes)
    ensures Clean(s, 0)
  {
  }

  lemma {:induction false} CleanVal(s: bytes)
    ensures Val(s).Some? ==> Clean(s, Val(s).value.n)
    decreases |s|, 2
  {
    hide Core, WsLen, Clean, Val;
    ValIs(s);
    var w := WsLen(s);
    CleanRuns(s);
    CleanCore(s[w..]);
    if Core(s[w..]).Some? {
      var n := Core(s[w..]).value.n;
      CleanJoin(s, w, n);
      CleanRuns(s[w + n..]);
      CleanJoin(s, w + n, WsLen(s[w + n..]));
    }
  }

  lemma {:induction false} CleanCore(s: bytes)
    ensures Core(s).Some? ==> Clean(s, Core(s).value.n)
    decreases |s|, 1
  {
    hide Elems, Members, WsLen, StrLen, NumLen, Clean, Enclosed;
    if s == [] {
    } else if s[0] == 0x22 {
      CleanStr(s);
    } else if s[0] == 0x2D || IsDigit(s[0]) {
      CleanNum(s);
    } else if s[0] == 0x7B || s[0] == 0x5B {
      var start := 1 + WsLen(s[1..]);
      var b := s[start..];
      var braces := s[0] == 0x7B;
      if braces {
        CleanMembers(b);
      } else {
        CleanElems(b);
      }
      CleanEnclosed(s, if braces then TObject else TArray, if braces then 0x7D else 0x5D, if braces then Members(b) else Elems(b));
    } else if Core(s).Some? {
      CleanLiteral(s);
    }
  }

  lemma CleanLiteral(s: bytes)
    ensures StartsWith(s, TRUE_TEXT) ==> Clean(s, 4)
    ensures StartsWith(s, FALSE_TEXT) ==> Clean(s, 5)
    ensures StartsWith(s, NULL_TEXT) ==> Clean(s, 4)
  {
    if StartsWith(s, TRUE_TEXT) {
      assert forall i :: 0 <= i < 4 ==> s[i] == s[..4][i] == TRUE_TEXT[i];
      CleanAscii(s, 4);
    }
    if StartsWith(s, FALSE_TEXT) {
      assert forall i :: 0 <= i < 5 ==> s[i] == s[..5][i] == FALSE_TEXT[i];
      CleanAscii(s, 5);
    }
    if StartsWith(s, NULL_TEXT) {
      assert forall i :: 0 <= i < 4 ==> s[i] == s[..4][i] == NULL_TEXT[i];
      CleanAscii(s, 4);
    }
  }

  lemma {:induction false} CleanEnclosed(s: bytes, ty: JsonType, close: byte, content: Option<Extent>)
    requires s != [] && 0 < s[0] < 0x80 && 0 < close < 0x80
    requires content.Some? ==> content.value.n <= |s| - 1 - WsLen(s[1..]) && Clean(s[1 + WsLen(s[1..])..], content.value.n)
    ensures var r := Enclosed(s, ty, close, content); r.Some? ==> Clean(s, r.value.n)
  {
    hide WsLen, Clean;
    CleanByte(s);
    CleanRuns(s[1..]);
    CleanJoin(s, 1, WsLen(s[1..]));
    var start := 1 + WsLen(s[1..]);
    var n := if content.Some? then content.value.n else 0;
    CleanNone(s[start..]);
    CleanJoin(s, start, n);
    if start + n < |s| && s[start + n] == close {
      CleanByte(s[start + n..]);
      CleanJoin(s, start + n, 1);
    }
  }

  lemma {:induction false} CleanElems(s: bytes)
    ensures Elems(s).Some? ==> Clean(s, Elems(s).value.n)
    decreases |s|, 3
  {
    hide Val, Clean, Elems;
    ElemsUnfold(s);
    CleanVal(s);
    if Val(s).Some? {
      var n := Val(s).value.n;
      if n < |s| && s[n] == 0x2C {
        CleanByte(s[n..]);
        CleanJoin(s, n, 1);
        CleanElems(s[n + 1..]);
        if Elems(s[n + 1..]).Some? {
          CleanJoin(s, n + 1, Elems(s[n + 1..]).value.n);
        }
      }
    }
  }

  lemma {:induction false} CleanKv(s: bytes)
    ensures Clean(s, KvLen(s))
    decreases |s|, 3
  {
    hide Val, Clean, StrLen, WsLen, KvLen;
    KvUnfold(s);
    CleanNone(s);
    if KvLen(s) > 0 {
      var k := StrLen(s);
      var w := k + WsLen(s[k..]);
      CleanStr(s);
      CleanRuns(s[k..]);
      CleanJoin(s, k, WsLen(s[k..]));
      CleanByte(s[w..]);
      CleanJoin(s, w, 1);
      CleanVal(s[w + 1..]);
      CleanJoin(s, w + 1, Val(s[w + 1..]).value.n);
    }
  }

  lemma {:induction false} CleanMembers(s: bytes)
    ensures Members(s).Some? ==> Clean(s, Members(s).value.n)
    decreases |s|, 5
  {
    hide Clean, KvLen, WsLen, Members;
    MembersUnfold(s);
    CleanKv(s);
    var k, w := KvLen(s), KvCommaLen(s);
    if w > 0 {
      CleanByte(s[k..]);
      CleanJoin(s, k, 1);
      CleanRuns(s[k + 1..]);
      CleanJoin(s, k + 1, WsLen(s[k + 1..]));
      CleanMembers(s[w..]);
      if Members(s[w..]).Some? {
        CleanJoin(s, w, Members(s[w..]).value.n);
      }
    }
  }

  /** A document with a NUL in it, or that is not structurally UTF-8, is never decoded. */
  lemma {:induction false} DirtIsRefused(s: bytes, base: nat, space: Space, strtod: Strtod)
    requires 0 in s || !Utf8Text(s)
    ensures DecodeDocument(s, base, space, true, strtod).ret != Ok
  {
    hide Val, Decode, Utf8Text;
    CleanVal(s);
    assert s[..|s|] == s;
  }

  // ---------- where printed text is not clean ----------

  /** Any 64-bit integers, any bytes in strings, and lengths that 16 bits hold. */
  predicate Presentable(o: Obj)
    decreases o, 0
  {
    match o
    case I64(i) => FitsInt64(i)
    case F64(_) => false
    case Buf(_, s) => |s| <= UINT16_MAX
    case List(_, items) => |items| <= UINT16_MAX && forall x :: x in items ==> Presentable(x)
    case Map(_, pairs) => |pairs| <= UINT16_MAX && forall kv :: kv in pairs ==> |kv.key| <= UINT16_MAX && Presentable(kv.val)
    case _ => true
  }

  predicate IntsInRange(o: Obj)
    decreases o, 0
  {
    match o
    case I64(i) => INT_LOW < i < INT_HIGH
    case List(_, items) => forall x :: x in items ==> IntsInRange(x)
    case Map(_, pairs) => forall kv :: kv in pairs ==> IntsInRange(kv.val)
    case _ => true
  }

  predicate StringsUtf8(o: Obj)
    decreases o, 0
  {
    match o
    case Buf(_, s) => Utf8Text(s)
    case List(_, items) => forall x :: x in items ==> StringsUtf8(x)
    case Map(_, pairs) => forall kv :: kv in pairs ==> Utf8Text(kv.key) && StringsUtf8(kv.val)
    case _ => true
  }

  lemma {:induction false} SendableIs(o: Obj)
    requires Presentable(o)
    ensures Sendable(o) <==> IntsInRange(o) && StringsUtf8(o)
    decreases o
  {
    hide Utf8Text;
    if o.List? {
      forall x | x in o.items ensures Sendable(x) <==> IntsInRange(x) && StringsUtf8(x) {
        SendableIs(x);
      }
    } else if o.Map? {
      forall kv | kv in o.pairs ensures Sendable(kv.val) <==> IntsInRange(kv.val) && StringsUtf8(kv.val) {
        SendableIs(kv.val);
      }
    }
  }

  /** An integer out of range either does not print or prints a NUL. */
  lemma {:induction false} OutOfRangePrintsNul(o: Obj, show: Show)
    requires Presentable(o) && Printable(o, show) && !IntsInRange(o)
    ensures 0 in Text(o, show)
    decreases o, 1
  {
    hide IntText, ItemsBody, PairsBody;
    if o.List? {
      var i :| 0 <= i < |o.items| && !IntsInRange(o.items[i]);
      assert o.items[i] in o.items;
      OutOfRangePrintsNul(o.items[i], show);
      NulInItems(o.items, 0, i, show);
    } else if o.Map? {
      var i :| 0 <= i < |o.pairs| && !IntsInRange(o.pairs[i].val);
      assert o.pairs[i] in o.pairs;
      OutOfRangePrintsNul(o.pairs[i].val, show);
      NulInPairs(o.pairs, 0, i, show);
    } else {
      IntTextLength(o.i);
      var t := IntText(o.i)[..INT_BUFFER - 1] + [0];
      assert t[|t| - 1] == 0;
    }
  }

  lemma {:induction false} NulInItems(items: seq<Obj>, j: nat, i: nat, show: Show)
    requires j <= i < |items| && 0 in Text(items[i], show)
    ensures 0 in ItemsText(items, j, show)
    decreases i - j
  {
    hide Text;
    if j < i {
      NulInItems(items, j + 1, i, show);
    }
  }

  lemma {:induction false} NulInPairs(pairs: seq<KV>, j: nat, i: nat, show: Show)
    requires j <= i < |pairs| && 0 in Text(pairs[i].val, show)
    ensures 0 in PairsText(pairs, j, show)
    decreases i - j
  {
    hide Text, Quoted;
    if j < i {
      NulInPairs(pairs, j + 1, i, show);
    }
  }

  lemma HighFirst(s: bytes)
    requires |EscapedText(s)| > 0 && EscapedText(s)[0] >= 0x80
    ensures s != [] && EscapedText(s) == [s[0]] + EscapedText(s[1..])
  {
  }

  /** High bytes at the front of escaped text are bytes of the string itself. */
  lemma {:induction false} HighPrefix(s: bytes, n: nat)
    requires n <= |EscapedText(s)| && forall i :: 0 <= i < n ==> EscapedText(s)[i] >= 0x80
    ensures n <= |s| && s[..n] == EscapedText(s)[..n] && EscapedText(s[n..]) == EscapedText(s)[n..]
    decreases n
  {
    hide EscapedText;
    if n > 0 {
      HighFirst(s);
      var rest := EscapedText(s[1..]);
      assert forall i :: 0 <= i < n - 1 ==> rest[i] == EscapedText(s)[i + 1];
      HighPrefix(s[1..], n - 1);
      assert EscapedText(s)[n..] == rest[n - 1..];
      assert EscapedText(s)[..n] == [s[0]] + rest[..n - 1];
      assert s[1..][n - 1..] == s[n..];
      assert s[..n] == [s[0]] + s[1..][..n - 1];
    } else {
      assert s[0..] == s;
    }
  }

  /** Escaping neither repairs nor breaks UTF-8. */
  lemma {:induction false} EscapedUtf8(s: bytes)
    requires Utf8Text(EscapedText(s))
    ensures Utf8Text(s)
    decreases |s|
  {
    hide EscapedByte;
    if s != [] {
      var t := EscapedText(s);
      if s[0] < 0x80 {
        EscapedIsAscii(s[0]);
        Utf8After(EscapedByte(s[0]), EscapedText(s[1..]));
        EscapedUtf8(s[1..]);
      } else {
        EscapedIsAscii(s[0]);
        assert t[0] == s[0];
        var n := Utf8Len(t[0]);
        HighPrefix(s, n);
        EscapedUtf8(s[n..]);
        assert forall i :: 1 <= i < n ==> s[i] == s[..n][i] == t[..n][i] == t[i];
      }
    }
  }

  lemma EscapedIsAscii(b: byte)
    ensures b < 0x80 ==> forall i :: 0 <= i < |EscapedByte(b)| ==> EscapedByte(b)[i] < 0x80
    ensures b >= 0x80 ==> EscapedByte(b) == [b]
  {
  }

  lemma QuotedUtf8(s: bytes, rest: bytes)
    requires Utf8Text(Quoted(s) + rest) && (rest == [] || rest[0] < 0x80)
    ensures Utf8Text(s) && Utf8Text(rest)
  {
    hide EscapedText, Utf8Text;
    var e := EscapedText(s);
    assert Quoted(s) + rest == [0x22] + (e + ([0x22] + rest));
    Utf8After([0x22], e + ([0x22] + rest));
    Utf8Split(e, [0x22] + rest);
    Utf8After([0x22], rest);
    EscapedUtf8(s);
  }

  /** If the text of a tree is UTF-8, so are all its strings. */
  lemma {:induction false} TextUtf8(o: Obj, rest: bytes, show: Show)
    requires Presentable(o) && Printable(o, show)
    requires Utf8Text(Text(o, show) + rest) && (rest == [] || rest[0] < 0x80)
    ensures StringsUtf8(o) && Utf8Text(rest)
    decreases o, 1
  {
    hide IntText, Quoted, Utf8Text;
    var t := Text(o, show);
    Utf8Split(t, rest);
    assert t + [] == t;
    if o.List? {
      Utf8After([0x5B], ItemsText(o.items, 0, show));
      ItemsUtf8(o.items, 0, show);
    } else if o.Map? {
      Utf8After([0x7B], PairsText(o.pairs, 0, show));
      PairsUtf8(o.pairs, 0, show);
    } else if o.Buf? {
      QuotedUtf8(o.bytes, []);
    }
  }

  lemma CommaUtf8(i: nat, rest: bytes)
    requires Utf8Text(Comma(i) + rest)
    ensures Utf8Text(rest)
  {
    hide Utf8Text;
    Utf8After(Comma(i), rest);
  }

  lemma MoreAscii(items: seq<Obj>, pairs: seq<KV>, i: nat, show: Show)
    ensures 0 < i <= |items| ==> |ItemsText(items, i, show)| > 0 && ItemsText(items, i, show)[0] < 0x80
    ensures 0 < i <= |pairs| ==> |PairsText(pairs, i, show)| > 0 && PairsText(pairs, i, show)[0] < 0x80
  {
    hide Text, Quoted;
  }

  lemma {:induction false} ItemsUtf8(items: seq<Obj>, i: nat, show: Show)
    requires i <= |items| && Utf8Text(ItemsText(items, i, show))
    requires forall x :: x in items ==> Presentable(x) && Printable(x, show)
    ensures forall k :: i <= k < |items| ==> StringsUtf8(items[k])
    decreases items, 0, |items| - i
  {
    hide Text, Utf8Text, Presentable, Printable, StringsUtf8, Comma;
    if i < |items| {
      var t, rest := Text(items[i], show), ItemsText(items, i + 1, show);
      assert items[i] in items;
      assert Comma(i) + t + rest == Comma(i) + (t + rest);
      CommaUtf8(i, t + rest);
      MoreAscii(items, [], i + 1, show);
      TextUtf8(items[i], rest, show);
      ItemsUtf8(items, i + 1, show);
    }
  }

  lemma {:induction false} PairsUtf8(pairs: seq<KV>, i: nat, show: Show)
    requires i <= |pairs| && Utf8Text(PairsText(pairs, i, show))
    requires forall kv :: kv in pairs ==> Presentable(kv.val) && Printable(kv.val, show)
    ensures forall k :: i <= k < |pairs| ==> Utf8Text(pairs[k].key) && StringsUtf8(pairs[k].val)
    decreases pairs, 0, |pairs| - i
  {
    hide Text, Utf8Text, Presentable, Printable, StringsUtf8, Comma, Quoted;
    if i < |pairs| {
      var kv := pairs[i];
      assert kv in pairs && kv.val < kv;
      var q, t, rest := Quoted(kv.key), Text(kv.val, show), PairsText(pairs, i + 1, show);
      assert Comma(i) + q + [0x3A] + t + rest == Comma(i) + (q + ([0x3A] + (t + rest)));
      CommaUtf8(i, q + ([0x3A] + (t + rest)));
      QuotedUtf8(kv.key, [0x3A] + (t + rest));
      Utf8After([0x3A], t + rest);
      MoreAscii([], pairs, i + 1, show);
      TextUtf8(kv.val, rest, show);
      PairsUtf8(pairs, i + 1, show);
    }
  }

  /**
   For any tree of 64-bit integers, strings of any bytes, lists and maps: its text can be produced and
   decoded if and only if every integer lies strictly between -10^17 and 10^18 and every string and
   key is structurally UTF-8.
   */
  lemma {:induction false} SurvivesIff(o: Obj, base: nat, space: Space, strtod: Strtod, show: Show)
    requires Presentable(o) && Need(o) <= Free(space)
    ensures Printable(o, show) && DecodeDocument(Text(o, show), base, space, true, strtod).ret == Ok <==>
            IntsInRange(o) && StringsUtf8(o)
  {
    hide Presentable, Printable, IntsInRange, StringsUtf8, Text, DecodeDocument, Need, Sendable, Utf8Text;
    SendableIs(o);
    if IntsInRange(o) && StringsUtf8(o) {
      SendablePrints(o, show);
      RoundTrip(o, base, space, strtod, show);
    } else if Printable(o, show) {
      if !IntsInRange(o) {
        OutOfRangePrintsNul(o, show);
      } else if Utf8Text(Text(o, show)) {
        assert Text(o, show) + [] == Text(o, show);
        TextUtf8(o, [], show);
      }
      DirtIsRefused(Text(o, show), base, space, strtod);
    }
  }

  /** The first integer that does not come back: its last digit has become a NUL. */
  lemma NineteenDigitsAreLost(base: nat, space: Space, strtod: Strtod, show: Show)
    ensures Printable(I64(INT_HIGH), show) && 0 in Text(I64(INT_HIGH), show)
    ensures DecodeDocument(Text(I64(INT_HIGH), show), base, space, true, strtod).ret != Ok
  {
    hide IntText, DecodeDocument;
    IntTextLength(INT_HIGH);
    OutOfRangePrintsNul(I64(INT_HIGH), show);
    DirtIsRefused(Text(I64(INT_HIGH), show), base, space, strtod);
  }
}
