/**
 The JSON component against the text of RFC 8259: its tokens as characters, one document printed in
 full, whitespace around values, what a number becomes, and the error codes.
 */
module JsonKnown {
  import opened Common
  import opened Objects
  import opened JsonGrammar
  import opened JsonScan
  import opened JsonScanProof
  import opened JsonLocal
  import opened JsonUnescape
  import opened IntParse
  import opened JsonDecode
  import opened JsonTwoPass
  import opened JsonEncode
  import opened JsonPrinted
  import opened JsonDecodeInPlace
  import opened JsonRoundTrip

  // ---------- tokens ----------

  lemma Literals()
    ensures TRUE_TEXT == Ascii("true") && FALSE_TEXT == Ascii("false") && NULL_TEXT == Ascii("null")
  {
  }

  lemma CharacterClasses(b: byte)
    ensures IsSpace(b) <==> b in Ascii(" \n\r\t")
    ensures IsDigit(b) <==> b in Ascii("0123456789")
    ensures IsSimpleEscape(b) <==> b in Ascii("\"\\/bfnrt")
  {
    var w, d, e := Ascii(" \n\r\t"), Ascii("0123456789"), Ascii("\"\\/bfnrt");
    assert w == [0x20, 0x0A, 0x0D, 0x09];
    assert d == [0x30, 0x31, 0x32, 0x33, 0x34, 0x35, 0x36, 0x37, 0x38, 0x39];
    assert e == [0x22, 0x5C, 0x2F, 0x62, 0x66, 0x6E, 0x72, 0x74];
  }

  lemma HexDigits(b: byte)
    ensures IsHex(b) <==> b in Ascii("0123456789") || b in Ascii("ABCDEF") || b in Ascii("abcdef")
  {
    CharacterClasses(b);
    assert Ascii("ABCDEF") == [0x41, 0x42, 0x43, 0x44, 0x45, 0x46];
    assert Ascii("abcdef") == [0x61, 0x62, 0x63, 0x64, 0x65, 0x66];
  }

  /** A leading zero ends the integer, a fraction may lack digits, an exponent may not. */
  lemma ShortNumbers()
    ensures NumLen(Ascii("01")) == 1 && NumLen(Ascii("1.")) == 2 && NumLen(Ascii("1e")) == 1
    ensures NumLen(Ascii("+1")) == 0 && NumLen(Ascii("-")) == 0
  {
    hide NumLen;
    TwoBytes(0x30, 0x31);
    TwoBytes(0x31, 0x2E);
    TwoBytes(0x31, 0x65);
    TwoBytes(0x2B, 0x31);
    MinusAlone();
    assert Ascii("01") == [0x30, 0x31] && Ascii("1.") == [0x31, 0x2E] && Ascii("1e") == [0x31, 0x65];
    assert Ascii("+1") == [0x2B, 0x31] && Ascii("-") == [0x2D];
  }

  lemma TwoBytes(a: byte, b: byte)
    requires a != 0x2D
    ensures NumLen([a, b]) ==
            if !IsDigit(a) then 0 else if a == 0x30 && b != 0x2E then 1 else if IsDigit(b) || b == 0x2E then 2 else 1
  {
    var s := [a, b];
    assert s[0..] == s && s[1..] == [b] && [b][1..] == [] && s[2..] == [];
    assert DigitsLen([]) == 0 && DigitsLen([b]) == if IsDigit(b) then 1 else 0;
    assert FracLen([]) == 0 && ExpLen([]) == 0 && FracLen([b]) == if b == 0x2E then 1 else 0;
    assert ExpLen([b]) == 0;
  }

  lemma MinusAlone()
    ensures NumLen([0x2D]) == 0
  {
    assert [0x2D][1..] == [];
  }

  predicate NoDigit(r: bytes) {
    r == [] || !IsDigit(r[0])
  }

  /** An optional minus; one zero, or digits that do not start with zero. */
  predicate IntegerPart(g: bytes, i: bytes) {
    (g == [] || g == Ascii("-")) && AllDigits(i) && |i| > 0 && (i[0] == Ascii("0")[0] ==> |i| == 1)
  }

  /** Nothing, or a point and any number of digits. */
  predicate FractionPart(p: bytes) {
    p == [] || (p[0] == Ascii(".")[0] && AllDigits(p[1..]))
  }

  /** Nothing, or one of the letters, an optional sign and at least one digit. */
  predicate ExponentPart(p: bytes, g: nat) {
    p == [] || (|p| > 1 + g && g <= 1 && (p[0] == Ascii("e")[0] || p[0] == Ascii("E")[0])
                && (g == 1 ==> p[1] == Ascii("+")[0] || p[1] == Ascii("-")[0]) && AllDigits(p[1 + g..]))
  }

  lemma IntegerForm(g: bytes, i: bytes, r: bytes)
    requires IntegerPart(g, i) && NoDigit(r)
    ensures IntLen(g + (i + r)) == |g| + |i|
  {
    var s := g + (i + r);
    assert s[|g|..] == i + r && (i + r)[1..] == i[1..] + r;
    DigitsAll(i[1..], r);
    assert g == [] ==> s == i + r;
  }

  lemma FractionForm(p: bytes, r: bytes)
    requires FractionPart(p) && NoDigit(r) && (p == [] ==> r == [] || r[0] != 0x2E)
    ensures FracLen(p + r) == |p|
  {
    if p == [] {
      assert p + r == r;
    } else {
      assert (p + r)[1..] == p[1..] + r;
      DigitsAll(p[1..], r);
    }
  }

  lemma ExponentForm(p: bytes, g: nat, r: bytes)
    requires ExponentPart(p, g) && NoDigit(r) && (p == [] ==> r == [] || (r[0] != 0x65 && r[0] != 0x45))
    ensures ExpLen(p + r) == |p|
  {
    var s := p + r;
    if p == [] {
      assert s == r;
    } else {
      assert s[1..] == p[1..] + r && s[1 + g..] == p[1 + g..] + r;
      DigitsAll(p[1 + g..], r);
    }
  }

  /** Exactly these parts, in this order, are taken as a number, up to what cannot continue it. */
  lemma NumberForm(g: bytes, i: bytes, p: bytes, e: bytes, h: nat, r: bytes)
    requires IntegerPart(g, i) && FractionPart(p) && ExponentPart(e, h) && NumberEnds(r)
    ensures NumLen(g + (i + (p + (e + r)))) == |g| + |i| + |p| + |e|
  {
    hide IntLen, FracLen, ExpLen, IntegerPart, FractionPart, ExponentPart, NumberEnds;
    var y := e + r;
    var x := p + y;
    Separate(p, e, h, r);
    IntegerForm(g, i, x);
    FractionForm(p, y);
    ExponentForm(e, h, r);
    IntegerNotEmpty(g, i);
    Behind(g, i, x);
    Joined(p, y);
    AddUp(g + (i + x), |g| + |i|, |p|, |e|);
  }

  lemma AddUp(s: bytes, i: nat, f: nat, e: nat)
    requires 0 < i <= |s| && IntLen(s) == i && FracLen(s[i..]) == f && f <= |s| - i && ExpLen(s[i..][f..]) == e
    ensures NumLen(s) == i + f + e
  {
    hide IntLen, FracLen, ExpLen;
    Further(s, i, f);
  }

  lemma IntegerNotEmpty(g: bytes, i: bytes)
    requires IntegerPart(g, i)
    ensures |i| > 0
  {
  }

  lemma Separate(p: bytes, e: bytes, h: nat, r: bytes)
    requires FractionPart(p) && ExponentPart(e, h) && NumberEnds(r)
    ensures NoDigit(r) && NoDigit(e + r) && NoDigit(p + (e + r))
    ensures p == [] ==> e + r == [] || (e + r)[0] != 0x2E
    ensures e == [] ==> r == [] || (r[0] != 0x65 && r[0] != 0x45)
  {
    FirstOf(p, e + r);
    FirstOf(e, r);
  }

  lemma Behind(a: bytes, b: bytes, c: bytes)
    ensures (a + (b + c))[|a| + |b|..] == c
  {
  }

  lemma Further(s: bytes, k: nat, m: nat)
    requires k + m <= |s|
    ensures s[k..][m..] == s[k + m..]
  {
  }

  lemma FirstOf(a: bytes, b: bytes)
    ensures a != [] ==> (a + b)[0] == a[0]
    ensures a == [] ==> a + b == b
  {
  }

  // ---------- printing ----------

  /** Control characters are written with the two hexadecimal digits of the byte, in capitals. */
  lemma ControlCharacters(b: byte)
    requires b < 0x20
    ensures EscapedByte(b) == Ascii("\\u00") + [Ascii("0123456789ABCDEF")[b / 16], Ascii("0123456789ABCDEF")[b % 16]]
  {
    assert Ascii("\\u00") == [0x5C, 0x75, 0x30, 0x30];
    CapitalHex(b / 16);
    CapitalHex(b % 16);
  }

  lemma CapitalHex(d: nat)
    requires d < 16
    ensures HexDigit(d) == Ascii("0123456789ABCDEF")[d]
  {
  }

  lemma Punctuation()
    ensures Ascii("[") == [0x5B] && Ascii("]") == [0x5D] && Ascii("{") == [0x7B] && Ascii("}") == [0x7D]
    ensures Ascii(",") == [0x2C] && Ascii(":") == [0x3A] && Ascii("\"") == [0x22]
  {
  }

  /** Scalars: an integer, the literals, and a string with every kind of escape. */
  lemma PrintedScalars(show: Show)
    ensures Text(I64(-12), show) == Ascii("-12") && Text(Bool(true), show) == Ascii("true") && Text(Bool(false), show) == Ascii("false")
    ensures Text(Null, show) == Ascii("null")
  {
    Literals();
    assert NatText(1) == [0x31] && NatText(12) == [0x31, 0x32] && IntText(-12) == [0x2D, 0x31, 0x32];
  }

  lemma PrintedString(at: nat, show: Show)
    ensures Text(Buf(at, Ascii("a\"\\")), show) == Ascii("\"a") + Ascii("\\\"") + Ascii("\\\\") + Ascii("\"")
  {
    var s := Ascii("a\"\\");
    assert s == [0x61, 0x22, 0x5C];
    EscapedOne(0x5C, []);
    EscapedOne(0x22, [0x5C]);
    EscapedOne(0x61, [0x22, 0x5C]);
    hide EscapedText;
    NothingEscaped();
    assert [0x61] + [0x22, 0x5C] == s && [0x22] + [0x5C] == [0x22, 0x5C] && [0x5C] + [] == [0x5C];
    assert Ascii("\"a") == [0x22, 0x61] && Ascii("\"") == [0x22] && Ascii("\\\"") == [0x5C, 0x22] && Ascii("\\\\") == [0x5C, 0x5C];
  }

  lemma EscapedOne(b: byte, rest: bytes)
    ensures EscapedText([b] + rest) == EscapedByte(b) + EscapedText(rest)
  {
    assert ([b] + rest)[1..] == rest;
  }

  /** Brackets, commas and colons around what elements and members print. */
  lemma PrintedList(at: nat, x: Obj, y: Obj, show: Show)
    ensures Text(List(at, []), show) == Ascii("[") + Ascii("]")
    ensures Text(List(at, [x, y]), show) == Ascii("[") + Text(x, show) + Ascii(",") + Text(y, show) + Ascii("]")
  {
    hide Text, ItemsBody;
    Punctuation();
    ListTextIs(at, [], show);
    EmptyBodies(show);
    ListTextIs(at, [x, y], show);
    assert [x, y][1..] == [y];
    BodyIs([x, y], show);
    BodyIs([y], show);
    var a, b := Text(x, show), Text(y, show);
    assert [0x5B] + (a + [0x2C] + b) + [0x5D] == [0x5B] + a + [0x2C] + b + [0x5D];
    assert [0x5B] + [] + [0x5D] == [0x5B] + [0x5D];
  }

  lemma PrintedMap(at: nat, x: KV, y: KV, show: Show)
    ensures Text(Map(at, []), show) == Ascii("{") + Ascii("}")
    ensures Text(Map(at, [x, y]), show) ==
            Ascii("{") + Quoted(x.key) + Ascii(":") + Text(x.val, show) + Ascii(",") + Quoted(y.key) + Ascii(":") + Text(y.val, show) + Ascii("}")
  {
    hide Text, PairsBody, Quoted;
    Punctuation();
    MapTextIs(at, [], show);
    EmptyBodies(show);
    MapTextIs(at, [x, y], show);
    assert [x, y][1..] == [y];
    PairsBodyIs([x, y], show);
    PairsBodyIs([y], show);
    var a, b := PairText(x, show), PairText(y, show);
    assert [0x7B] + (a + [0x2C] + b) + [0x7D] == [0x7B] + a + [0x2C] + b + [0x7D];
    assert [0x7B] + [] + [0x7D] == [0x7B] + [0x7D];
    assert [0x7B] + a == [0x7B] + Quoted(x.key) + [0x3A] + Text(x.val, show);
    var front := [0x7B] + a + [0x2C];
    assert front + b == front + Quoted(y.key) + [0x3A] + Text(y.val, show);
  }

  /** A float prints through a buffer of 26 characters. */
  lemma FloatBuffer(bits: nat, show: Show)
    ensures Printable(F64(bits), show) <==> |show(bits)| <= 26
    ensures |show(bits)| < 26 ==> Text(F64(bits), show) == show(bits)
  {
  }

  // ---------- whitespace ----------

  predicate AllSpace(w: bytes) {
    forall i :: 0 <= i < |w| ==> IsSpace(w[i])
  }

  lemma {:induction false} SpaceRuns(w: bytes, r: bytes)
    requires AllSpace(w) && (r == [] || !IsSpace(r[0]))
    ensures WsLen(w + r) == |w|
    decreases |w|
  {
    if w == [] {
      assert w + r == r;
    } else {
      assert (w + r)[1..] == w[1..] + r;
      SpaceRuns(w[1..], r);
    }
  }

  /** Whitespace before and after a value belongs to it and changes nothing else. */
  lemma PaddedText(o: Obj, before: bytes, after: bytes, r: bytes, show: Show)
    requires Sendable(o) && Follow(r) && AllSpace(before) && AllSpace(after)
    ensures var v := ScanOf(o, show);
            Val(before + (Text(o, show) + (after + r))) == Some(v.(n := |before| + v.n + |after|, at := |before| + v.at))
  {
    hide Val, Core, WsLen, Text, ScanOf, Sendable, AllSpace, Follow, IsSpace;
    TextStarts(o, show);
    CoreBeforeSpace(o, after, r, show);
    ScanLength(o, show);
    var t, u := Text(o, show), after + r;
    Joined(t, u);
    Padded(before, t + u, ScanOf(o, show), after, r);
  }

  lemma Joined(t: bytes, u: bytes)
    ensures t != [] ==> (t + u)[0] == t[0]
    ensures (t + u)[|t|..] == u
  {
  }

  lemma Padded(before: bytes, rest: bytes, c: Scan, after: bytes, r: bytes)
    requires |rest| > 0 && !IsSpace(rest[0]) && AllSpace(before) && AllSpace(after) && Follow(r)
    requires c.n <= |rest| && rest[c.n..] == after + r && Core(rest) == Some(c)
    ensures Val(before + rest) == Some(c.(n := |before| + c.n + |after|, at := |before| + c.at))
  {
    hide Val, Core, WsLen, AllSpace;
    SpaceRuns(before, rest);
    SpaceRuns(after, r);
    assert (before + rest)[|before|..] == rest;
    Further(before + rest, |before|, c.n);
    ValFrom(before + rest, |before|, c, |after|);
  }

  lemma ValFrom(s: bytes, w: nat, c: Scan, a: nat)
    requires w <= |s| && WsLen(s) == w && Core(s[w..]) == Some(c) && w + c.n <= |s| && WsLen(s[w + c.n..]) == a
    ensures Val(s) == Some(c.(n := w + c.n + a, at := w + c.at))
  {
    hide Val, Core, WsLen;
    ValIs(s);
  }

  /** What follows a value's text, space or not, is not taken for part of it. */
  lemma {:induction false} CoreBeforeSpace(o: Obj, after: bytes, r: bytes, show: Show)
    requires Sendable(o) && Follow(r) && AllSpace(after)
    ensures Core(Text(o, show) + (after + r)) == Some(ScanOf(o, show))
  {
    hide Core, ItemsBody, PairsBody, Quoted, IntText;
    var rest := after + r;
    if o.List? {
      ScanList(o, rest, show);
    } else if o.Map? {
      ScanMap(o, rest, show);
    } else if o.Buf? {
      CoreOfText(o.bytes, rest);
    } else if o.I64? {
      TextOfInt(o.i, show);
      CoreOfInt(o.i, rest);
    } else {
      LiteralScans(Text(o, show), rest);
    }
  }

  // ---------- numbers ----------

  /** A scanned number is integer text exactly if it has neither fraction nor exponent. */
  lemma IntegerIff(c: bytes)
    requires NumLen(c) == |c| > 0
    ensures var t := c[IntLen(c)..]; (FracLen(t) == 0 && ExpLen(t[FracLen(t)..]) == 0) <==> IsIntText(c)
  {
    hide FracLen, ExpLen, IntLen;
    var i := IntLen(c);
    var t := c[i..];
    var f := FracLen(t);
    assert t[f..] == c[i + f..];
    if f == 0 && ExpLen(t[f..]) == 0 {
      IntegerText(c);
    } else {
      var k := if f > 0 then i else i + f;
      PartStarts(t);
      PartStarts(t[f..]);
      IntLonger(c);
      assert c[k] == c[k..][0] && !IsDigit(c[k]);
      var m := Magnitude(c);
      assert c[k] == m[if IsNegative(c) then k - 1 else k];
    }
  }

  lemma PartStarts(t: bytes)
    ensures FracLen(t) > 0 ==> t != [] && t[0] == 0x2E
    ensures ExpLen(t) > 0 ==> t != [] && (t[0] == 0x65 || t[0] == 0x45)
  {
  }

  lemma IntLonger(c: bytes)
    requires NumLen(c) > 0
    ensures IntLen(c) > SignLen(c)
  {
  }

  /**
   What a number in a document becomes: integer text its value, or RANGE if that does not fit 64 bits;
   any other number what strtod makes of it, or RANGE if strtod reports one.
   */
  lemma NumberOutcome(c: bytes, base: nat, space: Space, strtod: Strtod)
    requires NumLen(c) == |c| > 0
    ensures var d := DecodeDocument(c, base, space, true, strtod);
            if IsIntText(c) then
              if FitsInt64(IntValue(c)) then d.ret == Ok && d.obj == I64(IntValue(c)) else d.ret == Range
            else if strtod(c).Some? then d.ret == Ok && d.obj == F64(strtod(c).value)
            else d.ret == Range
  {
    hide Val, Core, NumLen, IntLen, FracLen, ExpLen, IsIntText, IntValue, Decode;
    NumberAlone(c);
    DecodeNumberIs(c, base, space, true, strtod);
    assert c[0..|c|] == c;
    IntegerIff(c);
  }

  lemma NumberAlone(c: bytes)
    requires NumLen(c) == |c| > 0
    ensures Val(c) == Some(Scan(|c|, TNumber, 0, |c|, 0))
  {
    hide IntLen, FracLen, ExpLen, NumLen;
    if !(c[0] == 0x2D || IsDigit(c[0])) {
      NumStarts(c);
    }
    assert Core(c) == Some(Scan(|c|, TNumber, 0, |c|, 0));
    ValOfCore(c);
  }

  // ---------- error codes ----------

  /** PARSE for text that is no document, RANGE for numbers, NOMEM for memory. */
  lemma ErrorCodes(s: bytes, base: nat, space: Space, strtod: Strtod)
    ensures var ret := DecodeDocument(s, base, space, true, strtod).ret;
            && ret in {Ok, Parse, Range, NoMem}
            && (Val(s) == None ==> ret == Parse)
            && (Val(s).Some? ==>
                  var v := Val(s).value; var content := s[v.at..v.at + v.len];
                  && (v.n < |s| && ret != Range && ret != NoMem ==> ret == Parse)
                  && (v.ty == TStr && Unescape(content) == None ==> ret == Parse)
                  && (v.ty == TArray && v.count * 11 > space.capacity - space.index ==> ret == NoMem)
                  && (v.ty == TObject && v.count * 21 > space.capacity - space.index ==> ret == NoMem))
  {
    hide Val, Decode, Unescape, DecodeItems, DecodePairs;
    if Val(s) == None {
      NoValueThere(s, base, space, true, strtod);
    } else {
      var v := Val(s).value;
      if v.ty == TStr {
        DecodeTextIs(s, base, space, true, strtod);
      } else if v.ty == TArray {
        DecodeArrayIs(s, base, space, true, strtod);
      } else if v.ty == TObject {
        DecodeObjectIs(s, base, space, true, strtod);
      }
    }
  }
}
