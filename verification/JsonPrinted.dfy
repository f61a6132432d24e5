/**
 What the scanner makes of printed text: numbers and strings as the encoder writes them are taken
 whole, and unescaping and integer parsing give back what was printed.
 */
module JsonPrinted {
  import opened Common
  import opened Objects
  import opened JsonGrammar
  import opened JsonScan
  import opened JsonTwoPass
  import opened JsonUnescape
  import opened JsonEncode
  import opened IntParse

  // ---------- integers ----------

  /** What may follow an integer without being read as part of it. */
  predicate NumberEnds(r: bytes) {
    r == [] || (!IsDigit(r[0]) && r[0] != 0x2E && r[0] != 0x65 && r[0] != 0x45)
  }

  lemma {:induction false} NatTextMeets(n: nat)
    ensures AllDigits(NatText(n)) && Decimal(NatText(n)) == n
    ensures if n == 0 then NatText(n) == [0x30] else NatText(n)[0] != 0x30
    decreases n
  {
    if n >= 10 {
      NatTextMeets(n / 10);
      var t := NatText(n);
      assert t[..|t| - 1] == NatText(n / 10);
    } else {
      assert NatText(n)[..0] == [];
    }
  }

  lemma {:induction false} DigitsAll(a: bytes, r: bytes)
    requires AllDigits(a)
    ensures DigitsLen(a + r) == |a| + DigitsLen(r)
    decreases |a|
  {
    if a == [] {
      assert a + r == r;
    } else {
      assert (a + r)[1..] == a[1..] + r;
      DigitsAll(a[1..], r);
    }
  }

  lemma NatScans(n: nat, r: bytes)
    requires NumberEnds(r)
    ensures NatLen(NatText(n) + r) == |NatText(n)|
  {
    NatTextMeets(n);
    var t := NatText(n);
    assert (t + r)[1..] == t[1..] + r;
    DigitsAll(t[1..], r);
  }

  lemma IntScans(v: int, r: bytes)
    requires NumberEnds(r)
    ensures IntLen(IntText(v) + r) == |IntText(v)|
  {
    hide NatText, NatLen;
    var n := if v < 0 then -v else v;
    var t := IntText(v);
    NatScans(n, r);
    NatTextMeets(n);
    if v < 0 {
      assert (t + r)[1..] == NatText(n) + r;
    } else {
      assert SignLen(t + r) == 0 && (t + r)[0..] == t + r;
    }
  }

  lemma NumScans(v: int, r: bytes)
    requires NumberEnds(r)
    ensures NumLen(IntText(v) + r) == |IntText(v)|
  {
    hide IntLen, IntText;
    var t := IntText(v);
    IntScans(v, r);
    assert (t + r)[|t|..] == r;
    assert FracLen(r) == 0 && (t + r)[|t| + 0..] == r && ExpLen(r) == 0;
  }

  lemma IntStarts(v: int)
    ensures IntText(v)[0] == 0x2D || IsDigit(IntText(v)[0])
  {
    NatTextMeets(if v < 0 then -v else v);
  }

  /** gg_str_to_int64 reads back what was printed. */
  lemma IntParses(v: int)
    requires FitsInt64(v)
    ensures ParseInt(IntText(v)) == Some(v)
  {
    hide NatText;
    var n := if v < 0 then -v else v;
    NatTextMeets(n);
    var t := IntText(v);
    if v < 0 {
      assert t[1..] == NatText(n);
    }
  }

  /** The same for an integer inside a document, where a number is text up to what follows. */
  lemma CoreOfInt(v: int, r: bytes)
    requires NumberEnds(r)
    ensures var t := IntText(v); Core(t + r) == Some(Scan(|t|, TNumber, 0, |t|, 0))
  {
    hide IntText, NumLen;
    IntStarts(v);
    NumScans(v, r);
    var t := IntText(v);
    assert (t + r)[0] == t[0];
  }

  // ---------- strings ----------

  /** Structurally UTF-8: lead bytes followed by the continuation bytes they announce. */
  predicate Utf8Text(s: bytes)
    decreases |s|
  {
    s == [] ||
    var n := Utf8Len(s[0]);
    n > 0 && n <= |s| && (forall i :: 1 <= i < n ==> IsContinuation(s[i])) && Utf8Text(s[n..])
  }

  lemma {:induction false} EscapedConcat(a: bytes, b: bytes)
    ensures EscapedText(a + b) == EscapedText(a) + EscapedText(b)
    decreases |a|
  {
    if a == [] {
      assert a + b == b;
    } else {
      assert (a + b)[1..] == a[1..] + b;
      EscapedConcat(a[1..], b);
    }
  }

  /** Bytes of a multi-byte character are written as they are. */
  lemma {:induction false} HighBytesStay(s: bytes, r: bytes)
    requires forall i :: 0 <= i < |s| ==> s[i] >= 0x80
    ensures EscapedText(s) == s && Unescape(s + r) == Prepend(s, Unescape(r))
    decreases |s|
  {
    hide Unescape, Prepend;
    if s == [] {
      assert s + r == r;
      PrependNone(Unescape(r));
    } else {
      HighBytesStay(s[1..], r);
      assert (s + r)[1..] == s[1..] + r;
      UnescapeStep(s + r, 1, [s[0]]);
      PrependConcat([s[0]], s[1..], Unescape(r));
      assert [s[0]] + s[1..] == s;
    }
  }

  /** One printed character: scanned as one, and unescaped to what it was. */
  lemma ByteScans(b: byte, r: bytes)
    requires b < 0x80
    ensures var e := EscapedByte(b); CharLen(e + r) == |e|
  {
    var e := EscapedByte(b);
    var t := e + r;
    if b == 0x22 || b == 0x5C {
      assert t[0] == 0x5C && t[1] == b;
    } else if b <= 0x1F {
      assert t[0] == 0x5C && t[1] == 0x75 && t[2] == 0x30 && t[3] == 0x30 && t[4] == e[4] && t[5] == e[5];
    } else {
      assert t[0] == b;
    }
  }

  lemma ByteUnescapes(b: byte, r: bytes)
    requires b < 0x80
    ensures Unescape(EscapedByte(b) + r) == Prepend([b], Unescape(r))
  {
    hide Unescape;
    var e := EscapedByte(b);
    var t := e + r;
    assert t[|e|..] == r;
    if b == 0x22 || b == 0x5C {
      assert t[0] == 0x5C && t[1] == b;
      assert Escape(t) == Some(Piece(2, [b]));
    } else if b <= 0x1F {
      assert t[0] == 0x5C && t[1] == 0x75 && t[2] == 0x30 && t[3] == 0x30 && t[4] == e[4] && t[5] == e[5];
      assert Hex4(t, 2) == b;
      assert Escape(t) == Some(Piece(6, [b]));
    }
    UnescapeStep(t, |e|, [b]);
  }

  /** A string literal is scanned up to its closing quote. */
  lemma {:induction false} TextScans(s: bytes, r: bytes)
    requires Utf8Text(s)
    ensures CharsLen(EscapedText(s) + [0x22] + r) == |EscapedText(s)|
    decreases |s|
  {
    hide EscapedByte, EscapedText, CharLen;
    var t := EscapedText(s) + [0x22] + r;
    if s == [] {
      assert EscapedText(s) == [] by { NothingEscaped(); }
      assert t[0] == 0x22;
      QuoteEnds(t);
    } else {
      var n := Utf8Len(s[0]);
      var e, rest := EscapedText(s[..n]), s[n..];
      EscapedConcat(s[..n], rest);
      assert s == s[..n] + rest;
      var u := EscapedText(rest) + [0x22] + r;
      assert t == e + u;
      CharacterScans(s[..n], u);
      TextScans(rest, r);
      assert t[|e|..] == u;
    }
  }

  lemma NothingEscaped()
    ensures EscapedText([]) == []
  {
  }

  lemma QuoteEnds(t: bytes)
    requires t != [] && t[0] == 0x22
    ensures CharLen(t) == 0
  {
  }

  predicate OneCharacter(c: bytes) {
    c != [] && Utf8Len(c[0]) == |c| && forall i :: 1 <= i < |c| ==> IsContinuation(c[i])
  }

  lemma CharacterScans(c: bytes, r: bytes)
    requires OneCharacter(c)
    ensures CharLen(EscapedText(c) + r) == |EscapedText(c)| > 0
  {
    if |c| == 1 {
      assert EscapedText(c) == EscapedByte(c[0]) by {
        assert c[1..] == [];
        assert EscapedByte(c[0]) + [] == EscapedByte(c[0]);
      }
      ByteScans(c[0], r);
    } else {
      HighBytesStay(c, r);
      var t := c + r;
      assert forall i :: 0 <= i < |c| ==> t[i] == c[i];
      assert CodepointLen(t) == |c|;
    }
  }

  lemma CharacterUnescapes(c: bytes, r: bytes)
    requires OneCharacter(c)
    ensures Unescape(EscapedText(c) + r) == Prepend(c, Unescape(r))
  {
    if |c| == 1 {
      assert EscapedText(c) == EscapedByte(c[0]) by {
        assert c[1..] == [];
        assert EscapedByte(c[0]) + [] == EscapedByte(c[0]);
      }
      ByteUnescapes(c[0], r);
      assert c == [c[0]];
    } else {
      HighBytesStay(c, r);
    }
  }

  /** Unescaping undoes escaping. */
  lemma {:induction false} TextUnescapes(s: bytes)
    requires Utf8Text(s)
    ensures Unescape(EscapedText(s)) == Some(s)
    decreases |s|
  {
    hide EscapedText;
    if s == [] {
      NothingEscaped();
    } else {
      var n := Utf8Len(s[0]);
      assert s == s[..n] + s[n..];
      EscapedConcat(s[..n], s[n..]);
      CharacterUnescapes(s[..n], EscapedText(s[n..]));
      TextUnescapes(s[n..]);
    }
  }

  lemma QuotedScans(s: bytes, r: bytes)
    requires Utf8Text(s)
    ensures StrLen(Quoted(s) + r) == |Quoted(s)| == |EscapedText(s)| + 2
  {
    hide EscapedText;
    var q := Quoted(s) + r;
    assert q[0] == 0x22 && q[1..] == EscapedText(s) + [0x22] + r;
    TextScans(s, r);
    assert q[1..][|EscapedText(s)|] == 0x22;
  }

  /** A printed string and what it unescapes to. */
  lemma CoreOfText(s: bytes, r: bytes)
    requires Utf8Text(s)
    ensures var t := Quoted(s); Core(t + r) == Some(Scan(|t|, TStr, 1, |t| - 2, 0))
    ensures Unescape((Quoted(s) + r)[1..1 + (|Quoted(s)| - 2)]) == Some(s)
  {
    hide EscapedText, StrLen, Unescape;
    QuotedScans(s, r);
    TextUnescapes(s);
    var t := Quoted(s) + r;
    assert t[0] == 0x22;
    assert t[1..1 + |EscapedText(s)|] == EscapedText(s);
  }

  /** Without whitespace around it a value is its core. */
  lemma ValOfCore(s: bytes)
    requires s != [] && !IsSpace(s[0]) && Core(s).Some?
    requires var n := Core(s).value.n; n == |s| || !IsSpace(s[n])
    ensures Val(s) == Core(s)
  {
    hide Core;
    assert WsLen(s) == 0 && s[0..] == s;
    ValIs(s);
    assert WsLen(s[Core(s).value.n..]) == 0;
  }
}
