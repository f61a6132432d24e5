/** Running the grammar and the scan functions agree, on matching and on failing. */
module JsonScanProof {
  import opened Common
  import opened JsonGrammar
  import opened JsonScan

  /** Alternatives are tried in order; a failing one hands on the ParseResult as it left it. */
  lemma Alternative(p: Parser, rest: Parsers, s: bytes, out: Out, limit: nat)
    ensures var r := Run(p, s, out, limit);
            RunOneOf(Next(p, rest), s, out, limit) == if r.Fail? then RunOneOf(rest, s, r.out, limit) else r
    ensures RunOneOf(End, s, out, limit) == Fail(out)
  {
  }

  /** A sequence is its first part and then the others on what remains. */
  lemma Step(p: Parser, rest: Parsers, s: bytes, out: Out, limit: nat)
    ensures var r := Run(p, s, out, limit);
            RunSequence(Next(p, rest), s, out, limit) ==
            if r.Match? then Shift(r.n, RunSequence(rest, s[r.n..], r.out, limit)) else r
    ensures Run(Sequence(Next(p, rest)), s, out, limit) == RunSequence(Next(p, rest), s, out, limit)
  {
  }

  lemma SequenceOne(p: Parser, s: bytes, out: Out, limit: nat)
    ensures RunSequence(Next(p, End), s, out, limit) == Run(p, s, out, limit)
  {
  }

  lemma MaybeRuns(p: Parser, s: bytes, out: Out, limit: nat)
    ensures var r := Run(p, s, out, limit); Run(Maybe(p), s, out, limit) == if r.Fail? then Match(0, r.out) else r
  {
    hide RunOneOf, RunSequence, CodepointLen;
  }

  lemma ResultRuns(ty: JsonType, p: Parser, s: bytes, out: Out, limit: nat)
    ensures var r := Run(p, s, out, limit);
            Run(ResultVal(ty, p), s, out, limit) == if r.Match? then Match(r.n, Marked(r.out, ty, s, r.n)) else r
  {
    hide RunOneOf, RunSequence, CodepointLen;
  }

  lemma CountRuns(p: Parser, s: bytes, out: Out, limit: nat)
    ensures var r := Run(p, s, out, limit);
            Run(IncrementCount(p), s, out, limit) == if r.Match? then Match(r.n, Counted(r.out, 1)) else r
  {
    hide RunOneOf, RunSequence, CodepointLen;
  }

  lemma NestedRuns(p: Parser, s: bytes, out: Out, limit: nat)
    ensures var r := Run(p, s, None, limit);
            Run(Nested(p), s, out, limit) == if r.Stuck? then r else if r.Fail? then Fail(out) else Match(r.n, out)
  {
    hide RunOneOf, RunSequence, CodepointLen;
  }

  lemma RunSpace(s: bytes, out: Out, limit: nat)
    ensures Run(SPACE, s, out, limit) == if s == [] || !IsSpace(s[0]) then Fail(out) else Match(1, out)
  {
    var l4 := Next(Char(0x09), End);
    var l3 := Next(Char(0x0D), l4);
    var l2 := Next(Char(0x0A), l3);
    Alternative(Char(0x20), l2, s, out, limit);
    Alternative(Char(0x0A), l3, s, out, limit);
    Alternative(Char(0x0D), l4, s, out, limit);
    Alternative(Char(0x09), End, s, out, limit);
  }

  lemma {:induction false} RunWs(s: bytes, out: Out, limit: nat)
    ensures Run(WHITESPACE, s, out, limit) == Match(WsLen(s), out)
  {
    RunSpace(s, out, limit);
    if s != [] && IsSpace(s[0]) {
      RunWs(s[1..], out, limit);
    }
  }

  lemma RunDigit(s: bytes, out: Out, limit: nat)
    ensures Run(DIGIT, s, out, limit) == if s == [] || !IsDigit(s[0]) then Fail(out) else Match(1, out)
  {
  }

  lemma {:induction false} RunDigits(s: bytes, out: Out, limit: nat)
    ensures Run(ZeroOrMore(DIGIT), s, out, limit) == Match(DigitsLen(s), out)
  {
    RunDigit(s, out, limit);
    if s != [] && IsDigit(s[0]) {
      RunDigits(s[1..], out, limit);
    }
  }

  lemma RunHex(s: bytes, out: Out, limit: nat)
    ensures Run(HEX_DIGIT, s, out, limit) == if s == [] || !IsHex(s[0]) then Fail(out) else Match(1, out)
  {
    var l3 := Next(CharRange(0x61, 0x66), End);
    var l2 := Next(CharRange(0x41, 0x46), l3);
    Alternative(DIGIT, l2, s, out, limit);
    Alternative(CharRange(0x41, 0x46), l3, s, out, limit);
    Alternative(CharRange(0x61, 0x66), End, s, out, limit);
  }

  function HexRun(s: bytes, k: nat): bool {
    |s| >= k && forall i :: 0 <= i < k ==> IsHex(s[i])
  }

  function Hexes(k: nat): Parsers {
    if k == 0 then End else Next(HEX_DIGIT, Hexes(k - 1))
  }

  lemma {:induction false} RunHexes(s: bytes, out: Out, limit: nat, k: nat)
    ensures RunSequence(Hexes(k), s, out, limit) == if HexRun(s, k) then Match(k, out) else Fail(out)
  {
    if k > 0 {
      RunHex(s, out, limit);
      if s != [] && IsHex(s[0]) {
        RunHexes(s[1..], out, limit, k - 1);
        assert HexRun(s, k) <==> HexRun(s[1..], k - 1) by {
          assert forall i :: 0 < i < |s| ==> s[i] == s[1..][i - 1];
        }
      }
    }
  }

  lemma RunUnicodeEscape(s: bytes, out: Out, limit: nat)
    ensures Run(UNICODE_ESCAPE, s, out, limit) ==
            if s != [] && s[0] == 0x75 && HexRun(s[1..], 4) then Match(5, out) else Fail(out)
  {
    assert Hexes(4) == Next(HEX_DIGIT, Next(HEX_DIGIT, Next(HEX_DIGIT, Next(HEX_DIGIT, End)))) by {
      assert Hexes(2) == Next(HEX_DIGIT, Next(HEX_DIGIT, End));
    }
    Step(Char(0x75), Hexes(4), s, out, limit);
    if s != [] {
      RunHexes(s[1..], out, limit, 4);
    }
  }

  lemma RunEscaped(s: bytes, out: Out, limit: nat)
    ensures Run(ESCAPED, s, out, limit) ==
            if s != [] && IsSimpleEscape(s[0]) then Match(1, out)
            else if s != [] && s[0] == 0x75 && HexRun(s[1..], 4) then Match(5, out)
            else Fail(out)
  {
    var l9 := Next(UNICODE_ESCAPE, End);
    var l8 := Next(Char(0x74), l9);
    var l7 := Next(Char(0x72), l8);
    var l6 := Next(Char(0x6E), l7);
    var l5 := Next(Char(0x66), l6);
    var l4 := Next(Char(0x62), l5);
    var l3 := Next(Char(0x2F), l4);
    var l2 := Next(Char(0x5C), l3);
    RunUnicodeEscape(s, out, limit);
    Alternative(Char(0x22), l2, s, out, limit);
    Alternative(Char(0x5C), l3, s, out, limit);
    Alternative(Char(0x2F), l4, s, out, limit);
    Alternative(Char(0x62), l5, s, out, limit);
    Alternative(Char(0x66), l6, s, out, limit);
    Alternative(Char(0x6E), l7, s, out, limit);
    Alternative(Char(0x72), l8, s, out, limit);
    Alternative(Char(0x74), l9, s, out, limit);
    Alternative(UNICODE_ESCAPE, End, s, out, limit);
  }

  lemma RunStrEscape(s: bytes, out: Out, limit: nat)
    ensures Run(STR_ESCAPE, s, out, limit) == if EscapeLen(s) == 0 then Fail(out) else Match(EscapeLen(s), out)
  {
    Step(Char(0x5C), Next(ESCAPED, End), s, out, limit);
    if s != [] && s[0] == 0x5C {
      RunEscaped(s[1..], out, limit);
      SequenceOne(ESCAPED, s[1..], out, limit);
      if |s| >= 2 {
        assert HexRun(s[1..][1..], 4) <==> |s| >= 6 && IsHex(s[2]) && IsHex(s[3]) && IsHex(s[4]) && IsHex(s[5]) by {
          if |s| >= 6 {
            assert forall i :: 0 <= i < 4 ==> s[1..][1..][i] == s[2 + i];
          }
        }
      }
    }
  }

  lemma RunStrChar(s: bytes, out: Out, limit: nat)
    ensures Run(STR_CHAR, s, out, limit) == if CharLen(s) == 0 then Fail(out) else Match(CharLen(s), out)
  {
    RunStrEscape(s, out, limit);
    Alternative(Codepoint, Next(STR_ESCAPE, End), s, out, limit);
    Alternative(STR_ESCAPE, End, s, out, limit);
  }

  lemma {:induction false} RunChars(s: bytes, out: Out, limit: nat)
    ensures Run(ZeroOrMore(STR_CHAR), s, out, limit) == Match(CharsLen(s), out)
    decreases |s|
  {
    RunStrChar(s, out, limit);
    if CharLen(s) > 0 {
      RunChars(s[CharLen(s)..], out, limit);
    }
  }

  // ---------- strings ----------

  lemma RunStr(s: bytes, out: Out, limit: nat)
    ensures var r := Run(STR, s, out, limit);
            if StrLen(s) == 0 then r.Fail? && (s == [] || s[0] != 0x22 ==> r.out == out)
            else r == Match(StrLen(s), Marked(out, TStr, s[1..], StrLen(s) - 2))
  {
    var close := Next(Char(0x22), End);
    var chars := ResultVal(TStr, ZeroOrMore(STR_CHAR));
    Step(Char(0x22), Next(chars, close), s, out, limit);
    if s != [] && s[0] == 0x22 {
      var t := s[1..];
      RunChars(t, out, limit);
      var n := CharsLen(t);
      assert Run(chars, t, out, limit) == Match(n, Marked(out, TStr, t, n));
      Step(chars, close, t, out, limit);
      SequenceOne(Char(0x22), t[n..], Marked(out, TStr, t, n), limit);
    }
  }

  // ---------- numbers ----------

  lemma RunSign(s: bytes, out: Out, limit: nat)
    ensures Run(Maybe(Char(0x2D)), s, out, limit) == Match(SignLen(s), out)
  {
  }

  lemma RunNat(s: bytes, out: Out, limit: nat)
    ensures Run(OneOf(Next(Char(0x30), Next(NONZERO, End))), s, out, limit) ==
            if NatLen(s) == 0 then Fail(out) else Match(NatLen(s), out)
  {
    Alternative(Char(0x30), Next(NONZERO, End), s, out, limit);
    Alternative(NONZERO, End, s, out, limit);
    Step(CharRange(0x31, 0x39), Next(ZeroOrMore(DIGIT), End), s, out, limit);
    if s != [] {
      RunDigits(s[1..], out, limit);
      SequenceOne(ZeroOrMore(DIGIT), s[1..], out, limit);
    }
  }

  lemma RunInt(s: bytes, out: Out, limit: nat)
    ensures Run(INT_PART, s, out, limit) == if IntLen(s) == 0 then Fail(out) else Match(IntLen(s), out)
  {
    var magnitude := OneOf(Next(Char(0x30), Next(NONZERO, End)));
    RunSign(s, out, limit);
    Step(Maybe(Char(0x2D)), Next(magnitude, End), s, out, limit);
    var t := s[SignLen(s)..];
    RunNat(t, out, limit);
    SequenceOne(magnitude, t, out, limit);
  }

  lemma RunFrac(s: bytes, out: Out, limit: nat)
    ensures Run(FRAC_PART, s, out, limit) == if FracLen(s) == 0 then Fail(out) else Match(FracLen(s), out)
  {
    Step(Char(0x2E), Next(ZeroOrMore(DIGIT), End), s, out, limit);
    if s != [] {
      RunDigits(s[1..], out, limit);
      SequenceOne(ZeroOrMore(DIGIT), s[1..], out, limit);
    }
  }

  lemma RunEither(a: byte, b: byte, s: bytes, out: Out, limit: nat)
    ensures Run(OneOf(Next(Char(a), Next(Char(b), End))), s, out, limit) ==
            if s != [] && (s[0] == a || s[0] == b) then Match(1, out) else Fail(out)
  {
    Alternative(Char(a), Next(Char(b), End), s, out, limit);
    Alternative(Char(b), End, s, out, limit);
  }

  lemma RunDigitPlus(s: bytes, out: Out, limit: nat)
    ensures RunSequence(Next(DIGIT, Next(ZeroOrMore(DIGIT), End)), s, out, limit) ==
            if DigitsLen(s) == 0 then Fail(out) else Match(DigitsLen(s), out)
  {
    Step(DIGIT, Next(ZeroOrMore(DIGIT), End), s, out, limit);
    RunDigit(s, out, limit);
    if s != [] {
      RunDigits(s[1..], out, limit);
      SequenceOne(ZeroOrMore(DIGIT), s[1..], out, limit);
    }
  }

  lemma RunExp(s: bytes, out: Out, limit: nat)
    ensures Run(EXPONENT, s, out, limit) == if ExpLen(s) == 0 then Fail(out) else Match(ExpLen(s), out)
  {
    var digits := Next(DIGIT, Next(ZeroOrMore(DIGIT), End));
    var sign := Maybe(OneOf(Next(Char(0x2B), Next(Char(0x2D), End))));
    RunEither(0x65, 0x45, s, out, limit);
    Step(OneOf(Next(Char(0x65), Next(Char(0x45), End))), Next(sign, digits), s, out, limit);
    if s != [] {
      var t := s[1..];
      RunEither(0x2B, 0x2D, t, out, limit);
      assert Run(sign, t, out, limit) == Match(ExpSignLen(t), out);
      Step(sign, digits, t, out, limit);
      RunDigitPlus(t[ExpSignLen(t)..], out, limit);
    }
  }

  lemma RunNumber(s: bytes, out: Out, limit: nat)
    ensures Run(NUMBER, s, out, limit) ==
            if NumLen(s) == 0 then Fail(out) else Match(NumLen(s), Marked(out, TNumber, s, NumLen(s)))
  {
    hide Run, RunSequence, RunOneOf, IntLen, FracLen, ExpLen;
    var last := Next(Maybe(EXPONENT), End);
    var body := Sequence(Next(INT_PART, Next(Maybe(FRAC_PART), last)));
    ResultRuns(TNumber, body, s, out, limit);
    RunInt(s, out, limit);
    Step(INT_PART, Next(Maybe(FRAC_PART), last), s, out, limit);
    var i := IntLen(s);
    if i > 0 {
      var t := s[i..];
      RunFrac(t, out, limit);
      MaybeRuns(FRAC_PART, t, out, limit);
      Step(Maybe(FRAC_PART), last, t, out, limit);
      var u := t[FracLen(t)..];
      RunExp(u, out, limit);
      MaybeRuns(EXPONENT, u, out, limit);
      SequenceOne(Maybe(EXPONENT), u, out, limit);
      assert u == s[i + FracLen(t)..];
    }
  }

  // ---------- objects and arrays ----------

  /** One turn of zero-or-more at the head of a sequence. */
  lemma LoopStep(q: Parser, last: Parsers, s: bytes, out: Out, limit: nat)
    ensures var r := Run(q, s, out, limit); var loop := Next(ZeroOrMore(q), last);
            && (r.Fail? ==> RunSequence(loop, s, out, limit) == RunSequence(last, s, r.out, limit))
            && (r.Match? && r.n > 0 ==>
                  RunSequence(loop, s, out, limit) == Shift(r.n, RunSequence(loop, s[r.n..], r.out, limit)))
  {
    hide Run;
    var r := Run(q, s, out, limit);
    LoopRuns(q, s, out, limit);
    Step(ZeroOrMore(q), last, s, out, limit);
    if r.Fail? {
      assert s[0..] == s;
    } else if r.Match? && r.n > 0 {
      Step(ZeroOrMore(q), last, s[r.n..], r.out, limit);
      var z := Run(ZeroOrMore(q), s[r.n..], r.out, limit);
      if z.Match? {
        assert s[r.n..][z.n..] == s[r.n + z.n..];
      }
    }
  }

  lemma LoopRuns(q: Parser, s: bytes, out: Out, limit: nat)
    ensures var r := Run(q, s, out, limit);
            Run(ZeroOrMore(q), s, out, limit) ==
            if r.Stuck? then r
            else if r.Fail? then Match(0, r.out)
            else if r.n == 0 then Stuck
            else Shift(r.n, Run(ZeroOrMore(q), s[r.n..], r.out, limit))
  {
  }

  /** What scanning a value writes to the ParseResult. */
  function Filled(out: Out, s: bytes, v: Scan): Out
    requires v.at <= |s|
  {
    if out.None? then None else Some(ParseResult(v.ty, |s| - v.at, v.len, out.value.count + v.count))
  }

  ghost predicate Agrees(r: Outcome, s: bytes, out: Out, v: Option<Scan>)
    requires v.Some? ==> v.value.at <= |s|
  {
    match v
    case None => r.Fail?
    case Some(v) => r == Match(v.n, Filled(out, s, v))
  }

  /** What scanning elements or members does: on failure `out` may be spoilt, but not at a closing bracket. */
  ghost predicate Lists(r: Outcome, s: bytes, out: Out, close: byte, e: Option<Extent>) {
    match e
    case None => r.Fail? && (s != [] && s[0] == close ==> r.out == out)
    case Some(e) => r == Match(e.n, Counted(out, e.count))
  }

  lemma CloserIsNoValue(s: bytes)
    requires s != [] && (s[0] == 0x5D || s[0] == 0x7D)
    ensures Val(s) == None && KvLen(s) == 0
  {
    assert WsLen(s) == 0 && s[0..] == s;
  }

  lemma RunElem(s: bytes, out: Out, limit: nat)
    requires |s| < limit && Agrees(Run(JSON_VALUE, s, None, |s|), s, None, Val(s))
    ensures Run(ARRAY_ELEM, s, out, limit) == if Val(s).None? then Fail(out) else Match(Val(s).value.n, out)
  {
    NestedRuns(Value, s, out, limit);
  }

  lemma {:induction false} ElemsUnfold(s: bytes)
    ensures var v := Val(s);
            Elems(s) ==
            if v.None? then None
            else if v.value.n < |s| && s[v.value.n] == 0x2C then
              var e := Elems(s[v.value.n + 1..]);
              if e.None? then None else Some(Extent(v.value.n + 1 + e.value.n, 1 + e.value.count))
            else Some(Extent(v.value.n, 1))
  {
    hide Val;
  }

  lemma {:induction false} RunElems(s: bytes, out: Out, limit: nat)
    requires |s| < limit
    ensures Lists(Run(ELEMENTS, s, out, limit), s, out, 0x5D, Elems(s))
    decreases |s|, 3
  {
    hide Run, RunOneOf, RunSequence, Val, Elems;
    ElemsUnfold(s);
    var q, last := IncrementCount(ELEM_COMMA), Next(IncrementCount(ARRAY_ELEM), End);
    RunVal(s, None);
    RunElem(s, out, limit);
    Step(ZeroOrMore(q), last, s, out, limit);
    Step(ARRAY_ELEM, Next(Char(0x2C), End), s, out, limit);
    CountRuns(ELEM_COMMA, s, out, limit);
    LoopStep(q, last, s, out, limit);
    SequenceOne(IncrementCount(ARRAY_ELEM), s, out, limit);
    CountRuns(ARRAY_ELEM, s, out, limit);
    if s != [] && s[0] == 0x5D {
      CloserIsNoValue(s);
    }
    if Val(s).Some? {
      var n := Val(s).value.n;
      CharRuns(0x2C, s[n..], out, limit);
      SequenceOne(Char(0x2C), s[n..], out, limit);
      if n < |s| && s[n] == 0x2C {
        var o := Counted(out, 1);
        assert s[n + 1..] == s[n..][1..];
        RunElems(s[n + 1..], o, limit);
        Step(ZeroOrMore(q), last, s[n + 1..], o, limit);
        if Elems(s[n + 1..]).Some? {
          assert Counted(o, Elems(s[n + 1..]).value.count) == Counted(out, 1 + Elems(s[n + 1..]).value.count);
        }
      }
    }
  }

  lemma CharRuns(c: byte, s: bytes, out: Out, limit: nat)
    ensures Run(Char(c), s, out, limit) == if s == [] || s[0] != c then Fail(out) else Match(1, out)
  {
    hide RunOneOf, RunSequence, CodepointLen;
  }

  lemma {:induction false} RunKv(s: bytes, out: Out, limit: nat)
    requires |s| < limit
    ensures Run(OBJECT_KV, s, out, limit) == if KvLen(s) == 0 then Fail(out) else Match(KvLen(s), out)
    decreases |s|, 3
  {
    hide Run, RunOneOf, RunSequence, Val, StrLen, WsLen, KvLen;
    KvUnfold(s);
    var l2, l3 := Next(Char(0x3A), Next(Value, End)), Next(Value, End);
    var inner := Sequence(Next(STR, Next(WHITESPACE, l2)));
    NestedRuns(inner, s, out, limit);
    RunStr(s, None, limit);
    Step(STR, Next(WHITESPACE, l2), s, None, limit);
    var k := StrLen(s);
    if k > 0 {
      var t := s[k..];
      RunWs(t, None, limit);
      Step(WHITESPACE, l2, t, None, limit);
      var u := t[WsLen(t)..];
      assert u == s[k + WsLen(t)..];
      CharRuns(0x3A, u, None, limit);
      Step(Char(0x3A), l3, u, None, limit);
      if u != [] {
        SequenceOne(Value, u[1..], None, limit);
        ValueRuns(u[1..], None, limit);
        RunVal(u[1..], None);
        assert u[1..] == s[k + WsLen(t) + 1..];
      }
    }
  }

  lemma {:induction false} MembersUnfold(s: bytes)
    ensures var k, w := KvLen(s), KvCommaLen(s);
            Members(s) ==
            if k == 0 then None
            else if w == 0 then Some(Extent(k, 1))
            else var e := Members(s[w..]); if e.None? then None else Some(Extent(w + e.value.n, 1 + e.value.count))
  {
    hide KvLen, KvCommaLen;
  }

  lemma {:induction false} KvUnfold(s: bytes)
    ensures var k := StrLen(s); var w := k + WsLen(s[k..]);
            KvLen(s) ==
            if k == 0 || w == |s| || s[w] != 0x3A || Val(s[w + 1..]).None? then 0
            else w + 1 + Val(s[w + 1..]).value.n
  {
    hide Val, StrLen, WsLen;
  }

  lemma ValueRuns(s: bytes, out: Out, limit: nat)
    ensures Run(Value, s, out, limit) == if |s| < limit then Run(JSON_VALUE, s, out, |s|) else Stuck
  {
    hide RunOneOf, RunSequence, CodepointLen;
  }

  lemma {:induction false} RunKvComma(s: bytes, out: Out, limit: nat)
    requires |s| < limit
    ensures Run(IncrementCount(KV_COMMA), s, out, limit) ==
            if KvCommaLen(s) == 0 then Fail(out) else Match(KvCommaLen(s), Counted(out, 1))
    decreases |s|, 4
  {
    hide Run, RunOneOf, RunSequence, Val, KvLen, WsLen;
    RunKv(s, out, limit);
    Step(OBJECT_KV, Next(Char(0x2C), Next(WHITESPACE, End)), s, out, limit);
    CountRuns(KV_COMMA, s, out, limit);
    var k := KvLen(s);
    if k > 0 {
      var t := s[k..];
      CharRuns(0x2C, t, out, limit);
      Step(Char(0x2C), Next(WHITESPACE, End), t, out, limit);
      if t != [] && t[0] == 0x2C {
        assert t[1..] == s[k + 1..];
        RunWs(t[1..], out, limit);
        SequenceOne(WHITESPACE, t[1..], out, limit);
      }
    }
  }

  lemma {:induction false} RunMembers(s: bytes, out: Out, limit: nat)
    requires |s| < limit
    ensures Lists(Run(MEMBERS, s, out, limit), s, out, 0x7D, Members(s))
    decreases |s|, 5
  {
    hide Run, RunOneOf, RunSequence, Val, KvLen, WsLen;
    var q, last := IncrementCount(KV_COMMA), Next(IncrementCount(OBJECT_KV), End);
    Step(ZeroOrMore(q), last, s, out, limit);
    RunKvComma(s, out, limit);
    LoopStep(q, last, s, out, limit);
    if KvCommaLen(s) == 0 {
      RunKv(s, out, limit);
      SequenceOne(IncrementCount(OBJECT_KV), s, out, limit);
      CountRuns(OBJECT_KV, s, out, limit);
    } else {
      var w, o := KvCommaLen(s), Counted(out, 1);
      RunMembers(s[w..], o, limit);
      Step(ZeroOrMore(q), last, s[w..], o, limit);
      if Members(s[w..]).Some? {
        assert Counted(o, Members(s[w..]).value.count) == Counted(out, 1 + Members(s[w..]).value.count);
      }
    }
    if s != [] && s[0] == 0x7D {
      CloserIsNoValue(s);
    }
  }

  /** A bracketed construct, given what its content does. */
  lemma RunEnclosed(open: byte, ty: JsonType, content: Parser, close: byte, s: bytes, out: Out, limit: nat, e: Option<Extent>)
    requires s != [] ==> (e.Some? ==> e.value.n <= |s| - 1 - WsLen(s[1..]))
    requires s != [] ==> var b := s[1 + WsLen(s[1..])..]; Lists(Run(content, b, out, limit), b, out, close, e)
    ensures var p := Sequence(Next(Char(open), Next(WHITESPACE, Next(ResultVal(ty, Maybe(content)), Next(Char(close), End)))));
            if s == [] || s[0] != open then Run(p, s, out, limit) == Fail(out)
            else Agrees(Run(p, s, out, limit), s, out, Enclosed(s, ty, close, e))
  {
    hide Run, RunOneOf, RunSequence, WsLen;
    var l3 := Next(Char(close), End);
    var l2 := Next(ResultVal(ty, Maybe(content)), l3);
    CharRuns(open, s, out, limit);
    Step(Char(open), Next(WHITESPACE, l2), s, out, limit);
    if s != [] && s[0] == open {
      var t := s[1..];
      RunWs(t, out, limit);
      Step(WHITESPACE, l2, t, out, limit);
      var b := t[WsLen(t)..];
      assert b == s[1 + WsLen(t)..];
      MaybeRuns(content, b, out, limit);
      ResultRuns(ty, Maybe(content), b, out, limit);
      Step(ResultVal(ty, Maybe(content)), l3, b, out, limit);
      var r := Run(ResultVal(ty, Maybe(content)), b, out, limit);
      CharRuns(close, b[r.n..], r.out, limit);
      SequenceOne(Char(close), b[r.n..], r.out, limit);
    }
  }

  lemma {:induction false} RunObject(s: bytes, out: Out, limit: nat)
    requires |s| <= limit
    ensures if s == [] || s[0] != 0x7B then Run(OBJECT, s, out, limit) == Fail(out)
            else Agrees(Run(OBJECT, s, out, limit), s, out, Enclosed(s, TObject, 0x7D, Members(s[1 + WsLen(s[1..])..])))
    decreases |s|, 0
  {
    if s == [] {
      RunEnclosed(0x7B, TObject, MEMBERS, 0x7D, s, out, limit, None);
    } else {
      var b := s[1 + WsLen(s[1..])..];
      RunMembers(b, out, limit);
      RunEnclosed(0x7B, TObject, MEMBERS, 0x7D, s, out, limit, Members(b));
    }
  }

  lemma {:induction false} RunArray(s: bytes, out: Out, limit: nat)
    requires |s| <= limit
    ensures if s == [] || s[0] != 0x5B then Run(ARRAY, s, out, limit) == Fail(out)
            else Agrees(Run(ARRAY, s, out, limit), s, out, Enclosed(s, TArray, 0x5D, Elems(s[1 + WsLen(s[1..])..])))
    decreases |s|, 0
  {
    if s == [] {
      RunEnclosed(0x5B, TArray, ELEMENTS, 0x5D, s, out, limit, None);
    } else {
      var b := s[1 + WsLen(s[1..])..];
      RunElems(b, out, limit);
      RunEnclosed(0x5B, TArray, ELEMENTS, 0x5D, s, out, limit, Elems(b));
    }
  }

  lemma RunLiteral(ty: JsonType, text: bytes, s: bytes, out: Out, limit: nat)
    ensures Run(ResultVal(ty, Str(text)), s, out, limit) ==
            if StartsWith(s, text) then Match(|text|, Marked(out, ty, s, |text|)) else Fail(out)
  {
    ResultRuns(ty, Str(text), s, out, limit);
  }

  lemma RunLiterals(s: bytes, out: Out, limit: nat)
    ensures var r := RunOneOf(Next(ResultVal(TTrue, Str(TRUE_TEXT)), Next(ResultVal(TFalse, Str(FALSE_TEXT)),
                              Next(ResultVal(TNull, Str(NULL_TEXT)), End))), s, out, limit);
            if StartsWith(s, TRUE_TEXT) then r == Match(4, Marked(out, TTrue, s, 4))
            else if StartsWith(s, FALSE_TEXT) then r == Match(5, Marked(out, TFalse, s, 5))
            else if StartsWith(s, NULL_TEXT) then r == Match(4, Marked(out, TNull, s, 4))
            else r == Fail(out)
  {
    hide Run, RunOneOf;
    RunLiteral(TTrue, TRUE_TEXT, s, out, limit);
    RunLiteral(TFalse, FALSE_TEXT, s, out, limit);
    RunLiteral(TNull, NULL_TEXT, s, out, limit);
    var l7 := Next(ResultVal(TNull, Str(NULL_TEXT)), End);
    var l6 := Next(ResultVal(TFalse, Str(FALSE_TEXT)), l7);
    Alternative(ResultVal(TTrue, Str(TRUE_TEXT)), l6, s, out, limit);
    Alternative(ResultVal(TFalse, Str(FALSE_TEXT)), l7, s, out, limit);
    Alternative(ResultVal(TNull, Str(NULL_TEXT)), End, s, out, limit);
  }

  lemma LiteralStarts(s: bytes)
    ensures StartsWith(s, TRUE_TEXT) ==> s[0] == 0x74
    ensures StartsWith(s, FALSE_TEXT) ==> s[0] == 0x66
    ensures StartsWith(s, NULL_TEXT) ==> s[0] == 0x6E
  {
    assert StartsWith(s, TRUE_TEXT) ==> s[0] == s[..4][0];
    assert StartsWith(s, FALSE_TEXT) ==> s[0] == s[..5][0];
    assert StartsWith(s, NULL_TEXT) ==> s[0] == s[..4][0];
  }

  /** Numbers start with a minus or a digit. */
  lemma NumStarts(s: bytes)
    requires s == [] || !(s[0] == 0x2D || IsDigit(s[0]))
    ensures NumLen(s) == 0
  {
    assert s[0..] == s;
  }

  lemma {:induction false} RunCore(s: bytes, out: Out, limit: nat)
    requires |s| <= limit
    ensures Agrees(Run(ANY_VALUE, s, out, limit), s, out, Core(s))
    decreases |s|, 1
  {
    hide Run, RunSequence, RunOneOf, NumLen, Members, Elems, StartsWith;
    var l7 := Next(ResultVal(TNull, Str(NULL_TEXT)), End);
    var l6 := Next(ResultVal(TFalse, Str(FALSE_TEXT)), l7);
    var l5 := Next(ResultVal(TTrue, Str(TRUE_TEXT)), l6);
    var l4 := Next(ARRAY, l5);
    var l3 := Next(OBJECT, l4);
    var l2 := Next(NUMBER, l3);
    OneOfRuns(Next(STR, l2), s, out, limit);
    LiteralStarts(s);
    RunStr(s, out, limit);
    Alternative(STR, l2, s, out, limit);
    var o1 := if StrLen(s) == 0 then Run(STR, s, out, limit).out else out;
    RunNumber(s, o1, limit);
    Alternative(NUMBER, l3, s, o1, limit);
    RunObject(s, o1, limit);
    Alternative(OBJECT, l4, s, o1, limit);
    var r := Run(OBJECT, s, o1, limit);
    var o2 := if r.Fail? then r.out else o1;
    RunArray(s, o2, limit);
    Alternative(ARRAY, l5, s, o2, limit);
    var r2 := Run(ARRAY, s, o2, limit);
    var o3 := if r2.Fail? then r2.out else o2;
    RunLiterals(s, o3, limit);
    if s == [] || !(s[0] == 0x2D || IsDigit(s[0])) {
      NumStarts(s);
    }
  }

  lemma OneOfRuns(ps: Parsers, s: bytes, out: Out, limit: nat)
    ensures Run(OneOf(ps), s, out, limit) == RunOneOf(ps, s, out, limit)
  {
  }

  /** PARSER_JSON_VALUE on a buffer does exactly what `Val` says. */
  lemma {:induction false} RunVal(s: bytes, out: Out)
    ensures Agrees(Run(JSON_VALUE, s, out, |s|), s, out, Val(s))
    decreases |s|, 2
  {
    hide Run, RunSequence, RunOneOf, Core, WsLen;
    var last := Next(WHITESPACE, End);
    RunWs(s, out, |s|);
    Step(WHITESPACE, Next(ANY_VALUE, last), s, out, |s|);
    var t := s[WsLen(s)..];
    RunCore(t, out, |s|);
    Step(ANY_VALUE, last, t, out, |s|);
    if Core(t).Some? {
      var c := Core(t).value;
      var o := Filled(out, t, c);
      RunWs(t[c.n..], o, |s|);
      SequenceOne(WHITESPACE, t[c.n..], o, |s|);
      assert t[c.n..] == s[WsLen(s) + c.n..];
    }
  }
}
