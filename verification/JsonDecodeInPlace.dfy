/**
 gg_json_decode_destructive as it runs: the document is scanned, and strings are unescaped where they
 lie while the elements behind them are still to be scanned again. Every method is proved against
 the decoding of the bytes as they were before.
 */
module JsonDecodeInPlace {
  import opened Common
  import opened Memory
  import opened Objects
  import opened MapOrder
  import opened MapCanonical
  import opened JsonGrammar
  import opened JsonScan
  import opened JsonScanProof
  import opened JsonLocal
  import opened JsonParser
  import opened JsonUnescape
  import opened IntParse
  import opened JsonDecode
  import opened JsonTwoPass

  // ---------- memory ----------

  /** The bytes at an address of memory. */
  predicate Holds(m: bytes, at: nat, text: bytes) {
    at + |text| <= |m| && m[at..at + |text|] == text
  }

  /** Every string and key of the tree is what memory holds at its address. */
  ghost predicate Backed(m: bytes, o: Obj)
    decreases o
  {
    match o
    case Buf(at, text) => Holds(m, at, text)
    case List(_, items) => forall x :: x in items ==> Backed(m, x)
    case Map(_, pairs) => forall kv :: kv in pairs ==> Holds(m, kv.keyAt, kv.key) && Backed(m, kv.val)
    case _ => true
  }

  /** Trees in a part of memory that is no longer written stay backed. */
  lemma {:induction false} BackedGrows(m: bytes, m': bytes, o: Obj)
    requires Backed(m, o) && m <= m'
    ensures Backed(m', o)
    decreases o
  {
    if o.List? {
      forall x | x in o.items ensures Backed(m', x) {
        BackedGrows(m, m', x);
      }
    } else if o.Map? {
      forall kv | kv in o.pairs ensures Holds(m', kv.keyAt, kv.key) && Backed(m', kv.val) {
        HoldsGrows(m, m', kv.keyAt, kv.key);
        BackedGrows(m, m', kv.val);
      }
    } else if o.Buf? {
      HoldsGrows(m, m', o.at, o.bytes);
    }
  }

  lemma HoldsGrows(m: bytes, m': bytes, at: nat, text: bytes)
    requires Holds(m, at, text) && m <= m'
    ensures Holds(m', at, text)
  {
    assert m'[at..at + |text|] == m[at..at + |text|];
  }

  // ---------- scanning ----------

  /** parser_call with PARSER_JSON_VALUE and a fresh result. */
  method ScanValue(mem: array<byte>, pos: nat, end: nat) returns (r: Option<Scan>)
    requires pos <= end <= mem.Length
    ensures r == Val(mem[pos..end])
  {
    hide Run, Val;
    var out := Some(ParseResult(TNull, 0, 0, 0));
    GrammarOk();
    RunVal(mem[pos..end], out);
    var ok, pos', o := ParserCall(JSON_VALUE, mem, pos, end, out, end - pos);
    if !ok {
      return None;
    }
    r := Some(Scan(pos' - pos, o.value.ty, end - o.value.from - pos, o.value.len, o.value.count));
  }

  // ---------- numbers ----------

  lemma PartsProgress()
    ensures Progresses(INT_PART) && Progresses(FRAC_PART) && Progresses(EXPONENT)
  {
    assert Progresses(NONZERO);
    assert Progresses(OneOf(Next(Char(0x30), Next(NONZERO, End))));
    ProgressParts(DIGIT, Next(ZeroOrMore(DIGIT), End));
  }

  lemma {:induction false} AllDigitsLen(s: bytes)
    requires DigitsLen(s) == |s|
    ensures AllDigits(s)
  {
    if s != [] {
      AllDigitsLen(s[1..]);
      assert forall i :: 1 <= i < |s| ==> s[i] == s[1..][i - 1];
    }
  }

  /** A number without fraction and exponent is an optional minus and digits. */
  lemma IntegerText(s: bytes)
    requires IntLen(s) == |s| > 0
    ensures IsIntText(s)
  {
    var t := Magnitude(s);
    assert t == s[SignLen(s)..];
    if t[0] != 0x30 {
      AllDigitsLen(t[1..]);
      assert forall i :: 1 <= i < |t| ==> t[i] == t[1..][i - 1];
    }
  }

  method DecodeJsonNumber(mem: array<byte>, start: nat, end: nat, strtod: Strtod) returns (ret: Error, obj: Obj)
    requires start <= end <= mem.Length && NumLen(mem[start..end]) == end - start > 0
    ensures var o := Number(mem[start..end], strtod);
            if o.None? then ret == Range else ret == Ok && obj == o.value && (obj.I64? || obj.F64?)
  {
    hide Run, IntLen, FracLen, ExpLen, ParseInt, IntValue, Progresses, Guarded;
    ghost var s := mem[start..end];
    ghost var limit := end - start + 1;
    obj := Null;
    PartsProgress();
    var isInt, hasFrac, hasExp;
    var pos, out := start, None;
    RunInt(s, None, limit);
    isInt, pos, out := ParserCall(INT_PART, mem, pos, end, None, limit);
    if !isInt {
      return Parse, Null;
    }
    ghost var i := IntLen(s);
    assert s[i..] == mem[pos..end];
    RunFrac(s[i..], None, limit);
    hasFrac, pos, out := ParserCall(FRAC_PART, mem, pos, end, None, limit);
    ghost var f := FracLen(s[i..]);
    assert s[i..][f..] == mem[pos..end];
    assert s[i + f..] == mem[pos..end];
    RunExp(s[i..][f..], None, limit);
    hasExp, pos, out := ParserCall(EXPONENT, mem, pos, end, None, limit);
    if !hasFrac && !hasExp {
      IntegerText(s);
      var value;
      ret, value := StrToInt64(mem[start..end]);
      ParsedInt(s);
      if ret != Ok {
        return;
      }
      return Ok, I64(value);
    }
    var d := strtod(mem[start..end]);
    if d.None? {
      return Range, Null;
    }
    return Ok, F64(d.value);
  }

  lemma ParsedInt(s: bytes)
    requires IsIntText(s)
    ensures ParseInt(s) == if FitsInt64(IntValue(s)) then Some(IntValue(s)) else None
  {
  }

  // ---------- values ----------

  /** Elements already decoded in front of what decoding the rest gives. */
  function AfterItems(done: seq<Obj>, n: nat, r: Items): Items {
    if r.BadItems? then r else GoodItems(done + r.items, n + r.n, r.space)
  }

  function AfterPairs(done: seq<KV>, n: nat, r: Pairs): Pairs {
    if r.BadPairs? then r else GoodPairs(done + r.pairs, n + r.n, r.space)
  }

  lemma NoneDone(i: Items, p: Pairs)
    ensures AfterItems([], 0, i) == i && AfterPairs([], 0, p) == p
  {
    if i.GoodItems? {
      assert [] + i.items == i.items;
    }
    if p.GoodPairs? {
      assert [] + p.pairs == p.pairs;
    }
  }

  /** One more element done. */
  lemma {:induction false} NextItem(
    s: bytes, base: nat, k: nat, space: Space, want: bool, strtod: Strtod, done: seq<Obj>, n: nat)
    requires k > 0
    ensures var r := Decode(s, base, space, want, strtod);
            var goal := AfterItems(done, n, DecodeItems(s, base, k, space, want, strtod));
            if r.Bad? then goal == BadItems(r.cause)
            else if k == 1 then goal == GoodItems(done + [r.obj], n + r.n, r.space)
            else if !ByteAt(s, r.n, 0x2C) then goal == BadItems(NoComma)
            else goal == AfterItems(done + [r.obj], n + r.n + 1,
                           DecodeItems(s[r.n + 1..], base + r.n + 1, k - 1, r.space, want, strtod))
  {
    hide Decode, DecodeItems;
    ItemsIs(s, base, k, space, want, strtod);
    var r := Decode(s, base, space, want, strtod);
    if r.Good? && k > 1 && ByteAt(s, r.n, 0x2C) {
      var q := DecodeItems(s[r.n + 1..], base + r.n + 1, k - 1, r.space, want, strtod);
      if q.GoodItems? {
        assert done + ([r.obj] + q.items) == done + [r.obj] + q.items;
      }
    }
  }

  /** One more member done. */
  lemma {:induction false} NextPair(
    s: bytes, base: nat, k: nat, space: Space, want: bool, strtod: Strtod, done: seq<KV>, n: nat)
    requires k > 0
    ensures var r := DecodeMember(s, base, space, want, strtod);
            var goal := AfterPairs(done, n, DecodePairs(s, base, k, space, want, strtod));
            if r.BadMember? then goal == BadPairs(r.cause)
            else if k == 1 then goal == GoodPairs(done + [r.kv], n + r.n, r.space)
            else if !ByteAt(s, r.n, 0x2C) then goal == BadPairs(NoComma)
            else goal == AfterPairs(done + [r.kv], n + r.n + 1,
                           DecodePairs(s[r.n + 1..], base + r.n + 1, k - 1, r.space, want, strtod))
  {
    hide DecodeMember, DecodePairs;
    PairsIs(s, base, k, space, want, strtod);
    var r := DecodeMember(s, base, space, want, strtod);
    if r.GoodMember? && k > 1 && ByteAt(s, r.n, 0x2C) {
      var q := DecodePairs(s[r.n + 1..], base + r.n + 1, k - 1, r.space, want, strtod);
      if q.GoodPairs? {
        assert done + ([r.kv] + q.pairs) == done + [r.kv] + q.pairs;
      }
    }
  }

  /** What a call may have written: nothing outside the content of the value at the front. */
  ghost predicate WroteOnly(before: bytes, after: bytes, pos: nat, end: nat)
    requires pos <= end <= |before|
  {
    match Val(before[pos..end])
    case None => after == before
    case Some(v) => SameOutside(before, after, pos + v.at, pos + v.at + v.len)
  }

  // ---------- what the methods promise, in terms of memory before and after ----------

  /** take_json_val: the decoding of what was there, writing only inside it, strings left in place. */
  ghost predicate TookValue(
    before: bytes, after: bytes, pos: nat, end: nat, space: Space, want: bool, strtod: Strtod, r: Decoded)
    requires pos <= end <= |before|
  {
    && r == Decode(before[pos..end], pos, space, want, strtod)
    && |after| == |before| && WroteOnly(before, after, pos, end)
    && (r.Good? ==> pos + r.n <= end && Backed(after[..pos + r.n], r.obj))
  }

  datatype Container = Failed(cause: Cause) | Built(obj: Obj, space: Space)

  function ArrayOf(s: bytes, base: nat, count: nat, space: Space, want: bool, strtod: Strtod): Container {
    var cost := if want then ObjectBytes(count) else 0;
    if cost > Free(space) then Failed(NoMemory)
    else
      var r := DecodeItems(s, base, count, space.(index := space.index + cost), want, strtod);
      if r.BadItems? then Failed(r.cause) else Built(List(if count > 0 then space.index else 0, Trunc(r.items)), r.space)
  }

  function ObjectOf(s: bytes, base: nat, count: nat, space: Space, want: bool, strtod: Strtod): Container {
    var cost := if want then PairBytes(count) else 0;
    if cost > Free(space) then Failed(NoMemory)
    else
      var r := DecodePairs(s, base, count, space.(index := space.index + cost), want, strtod);
      if r.BadPairs? then Failed(r.cause) else Built(Map(if count > 0 then space.index else 0, Trunc(Canon(r.pairs))), r.space)
  }

  /** decode_json_array and decode_json_object: as `expected`, writing only in the content. */
  ghost predicate TookContainer(before: bytes, after: bytes, start: nat, end: nat, expected: Container, r: Container)
    requires start <= end <= |before|
  {
    r == expected && SameOutside(before, after, start, end) && (r.Built? ==> Backed(after[..end], r.obj))
  }

  ghost predicate TookMember(
    before: bytes, after: bytes, pos: nat, end: nat, space: Space, want: bool, strtod: Strtod, r: Member)
    requires pos <= end <= |before|
  {
    && r == DecodeMember(before[pos..end], pos, space, want, strtod)
    && (r.GoodMember? ==> pos + r.n <= end)
    && SameOutside(before, after, pos, if r.GoodMember? then pos + r.n else end)
    && (r.GoodMember? ==> PairBacked(after[..pos + r.n], r.kv))
  }

  ghost predicate PairBacked(m: bytes, kv: KV) {
    Holds(m, kv.keyAt, kv.key) && Backed(m, kv.val)
  }

  /** Between elements: `done` are decoded and stay so, `left` more follow from `cur`. */
  ghost predicate ItemsSoFar(
    first: bytes, now: bytes, done: seq<Obj>, start: nat, cur: nat, end: nat, left: nat, space: Space, want: bool,
    strtod: Strtod, goal: Items)
  {
    && start <= cur <= end <= |first| && SameOutside(first, now, start, cur)
    && goal == AfterItems(done, cur - start, DecodeItems(now[cur..end], cur, left, space, want, strtod))
    && forall x :: x in done ==> Backed(now[..cur], x)
  }

  ghost predicate PairsSoFar(
    first: bytes, now: bytes, done: seq<KV>, start: nat, cur: nat, end: nat, left: nat, space: Space, want: bool,
    strtod: Strtod, goal: Pairs)
  {
    && start <= cur <= end <= |first| && SameOutside(first, now, start, cur)
    && goal == AfterPairs(done, cur - start, DecodePairs(now[cur..end], cur, left, space, want, strtod))
    && forall kv :: kv in done ==> PairBacked(now[..cur], kv)
  }

  // ---------- steps ----------

  /** Writing inside the value at `cur` leaves everything before `cur` and behind the value alone. */
  lemma ValueFrame(first: bytes, before: bytes, after: bytes, start: nat, cur: nat, end: nat)
    requires start <= cur <= end <= |before| && SameOutside(first, before, start, cur) && WroteOnly(before, after, cur, end)
    ensures SameOutside(first, after, start, end) && |after| == |before| && after[..cur] == before[..cur]
    ensures var v := Val(before[cur..end]);
            v.Some? ==>
              && SameOutside(first, after, start, cur + v.value.n)
              && after[cur + v.value.n..end] == before[cur..end][v.value.n..]
  {
    hide Val;
  }

  lemma {:induction false} ItemTaken(
    first: bytes, before: bytes, after: bytes, done: seq<Obj>, start: nat, cur: nat, end: nat, left: nat, space: Space,
    want: bool, strtod: Strtod, goal: Items, r: Decoded)
    requires left > 0 && ItemsSoFar(first, before, done, start, cur, end, left, space, want, strtod, goal)
    requires TookValue(before, after, cur, end, space, want, strtod, r)
    ensures |after| == |first| && SameOutside(first, after, start, end)
    ensures if r.Bad? then goal == BadItems(r.cause)
            else var cur' := cur + r.n;
              && cur' <= end
              && if left == 1 then ItemsSoFar(first, after, done + [r.obj], start, cur', end, 0, r.space, want, strtod, goal)
                 else if !(cur' < end && after[cur'] == 0x2C) then goal == BadItems(NoComma)
                 else ItemsSoFar(first, after, done + [r.obj], start, cur' + 1, end, left - 1, r.space, want, strtod, goal)
  {
    hide Val, Decode, DecodeItems, Backed, AfterItems, SameOutside, WroteOnly;
    SameLength(first, before, start, cur);
    var s := before[cur..end];
    ValueFrame(first, before, after, start, cur, end);
    NextItem(s, cur, left, space, want, strtod, done, cur - start);
    if r.Good? {
      var cur', done' := cur + r.n, done + [r.obj];
      assert after[cur'..end] == s[r.n..];
      StillBacked(before[..cur], after[..cur'], done);
      if left == 1 {
        ItemsDone(after[cur'..end], cur', r.space, want, strtod, done', cur' - start);
      } else if cur' < end {
        assert after[cur'] == after[cur'..end][0] == s[r.n];
        assert after[cur' + 1..end] == after[cur'..end][1..] == s[r.n + 1..];
        StillBacked(after[..cur'], after[..cur' + 1], done');
        Widen(first, after, start, cur', cur' + 1);
      }
    }
  }

  lemma SameLength(a: bytes, b: bytes, from: nat, to: nat)
    requires SameOutside(a, b, from, to)
    ensures |a| == |b|
  {
  }

  lemma Widen(a: bytes, b: bytes, from: nat, to: nat, to': nat)
    requires SameOutside(a, b, from, to) && to <= to'
    ensures SameOutside(a, b, from, to')
  {
  }

  lemma StillBacked(m: bytes, m': bytes, items: seq<Obj>)
    requires m <= m' && forall x :: x in items ==> Backed(m, x)
    ensures forall x :: x in items ==> Backed(m', x)
  {
    hide Backed;
    forall x | x in items ensures Backed(m', x) {
      BackedGrows(m, m', x);
    }
  }

  lemma PairsStillBacked(m: bytes, m': bytes, pairs: seq<KV>)
    requires m <= m' && forall kv :: kv in pairs ==> PairBacked(m, kv)
    ensures forall kv :: kv in pairs ==> PairBacked(m', kv)
  {
    hide Backed, Holds;
    forall kv | kv in pairs ensures PairBacked(m', kv) {
      BackedGrows(m, m', kv.val);
      HoldsGrows(m, m', kv.keyAt, kv.key);
    }
  }

  lemma {:induction false} ItemsDone(
    s: bytes, base: nat, space: Space, want: bool, strtod: Strtod, done: seq<Obj>, n: nat)
    ensures AfterItems(done, n, DecodeItems(s, base, 0, space, want, strtod)) == GoodItems(done, n, space)
  {
    assert done + [] == done;
  }

  lemma {:induction false} PairsDone(
    s: bytes, base: nat, space: Space, want: bool, strtod: Strtod, done: seq<KV>, n: nat)
    ensures AfterPairs(done, n, DecodePairs(s, base, 0, space, want, strtod)) == GoodPairs(done, n, space)
  {
    assert done + [] == done;
  }

  lemma {:induction false} PairTaken(
    first: bytes, before: bytes, after: bytes, done: seq<KV>, start: nat, cur: nat, end: nat, left: nat, space: Space,
    want: bool, strtod: Strtod, goal: Pairs, r: Member)
    requires left > 0 && PairsSoFar(first, before, done, start, cur, end, left, space, want, strtod, goal)
    requires |before| == |first| && TookMember(before, after, cur, end, space, want, strtod, r)
    ensures |after| == |first| && SameOutside(first, after, start, end)
    ensures if r.BadMember? then goal == BadPairs(r.cause)
            else var cur' := cur + r.n;
              && cur' <= end
              && if left == 1 then PairsSoFar(first, after, done + [r.kv], start, cur', end, 0, r.space, want, strtod, goal)
                 else if !(cur' < end && after[cur'] == 0x2C) then goal == BadPairs(NoComma)
                 else PairsSoFar(first, after, done + [r.kv], start, cur' + 1, end, left - 1, r.space, want, strtod, goal)
  {
    hide DecodeMember, DecodePairs, PairBacked, AfterPairs, SameOutside;
    var s := before[cur..end];
    var cur' := if r.GoodMember? then cur + r.n else end;
    Join(first, before, after, start, cur, cur', end);
    NextPair(s, cur, left, space, want, strtod, done, cur - start);
    if r.GoodMember? {
      var done' := done + [r.kv];
      assert after[cur'..end] == s[r.n..];
      PairsStillBacked(before[..cur], after[..cur'], done);
      if left == 1 {
        PairsDone(after[cur'..end], cur', r.space, want, strtod, done', cur' - start);
      } else if cur' < end {
        assert after[cur'] == after[cur'..end][0] == s[r.n];
        assert after[cur' + 1..end] == after[cur'..end][1..] == s[r.n + 1..];
        PairsStillBacked(after[..cur'], after[..cur' + 1], done');
        Widen(first, after, start, cur', cur' + 1);
      }
    }
  }

  lemma Join(first: bytes, before: bytes, after: bytes, start: nat, cur: nat, cur': nat, end: nat)
    requires start <= cur <= cur' <= end <= |before| && SameOutside(first, before, start, cur) && SameOutside(before, after, cur, cur')
    ensures |after| == |first| && SameOutside(first, after, start, cur') && SameOutside(first, after, start, end)
    ensures after[..cur] == before[..cur] && after[cur'..end] == before[cur..end][cur' - cur..]
  {
  }

  /** A key, its colon and its value, taken one after the other. */
  lemma {:induction false} KeyTaken(
    before: bytes, after: bytes, pos: nat, end: nat, space: Space, want: bool, strtod: Strtod, key: Decoded)
    requires pos <= end <= |before| && TookValue(before, after, pos, end, space, true, strtod, key)
    ensures |after| == |before| && (key.Good? ==> pos + key.n <= end)
    ensures key.Bad? ==> TookMember(before, after, pos, end, space, want, strtod, BadMember(key.cause))
    ensures key.Good? && !key.obj.Buf? ==> TookMember(before, after, pos, end, space, want, strtod, BadMember(KeyNotText))
    ensures key.Good? && key.obj.Buf? ==>
              var colon := pos + key.n;
              if !(colon < end && after[colon] == 0x3A) then
                TookMember(before, after, pos, end, space, want, strtod, BadMember(NoColon))
              else
                && Holds(after[..colon], key.obj.at, key.obj.bytes) && SameOutside(before, after, pos, colon + 1)
                && DecodeMember(before[pos..end], pos, space, want, strtod) ==
                   MemberOf(key, Decode(after[colon + 1..end], colon + 1, key.space, want, strtod))
  {
    hide Val, Decode, Backed, Holds, SameOutside, WroteOnly;
    var s := before[pos..end];
    assert SameOutside(before, before, pos, pos) by { Unchanged(before, pos); }
    ValueFrame(before, before, after, pos, pos, end);
    if key.Good? && key.obj.Buf? {
      var colon := pos + key.n;
      KeyHeld(after[..colon], key.obj);
      assert after[colon..end] == s[key.n..];
      if colon < end {
        assert after[colon] == after[colon..end][0] == s[key.n];
        assert after[colon + 1..end] == after[colon..end][1..] == s[key.n + 1..];
        Widen(before, after, pos, colon, colon + 1);
      }
    }
  }

  lemma Unchanged(m: bytes, at: nat)
    ensures SameOutside(m, m, at, at)
  {
  }

  lemma KeyHeld(m: bytes, o: Obj)
    requires o.Buf? && Backed(m, o)
    ensures Holds(m, o.at, o.bytes)
  {
  }

  function MemberOf(key: Decoded, val: Decoded): Member
    requires key.Good? && key.obj.Buf?
  {
    if val.Bad? then BadMember(val.cause)
    else GoodMember(KV(key.obj.at, key.obj.bytes, val.obj), key.n + 1 + val.n, val.space)
  }

  lemma {:induction false} MemberTaken(
    before: bytes, middle: bytes, after: bytes, pos: nat, end: nat, space: Space, want: bool, strtod: Strtod, key: Decoded,
    val: Decoded)
    requires pos <= end <= |before| == |middle| && key.Good? && key.obj.Buf? && pos + key.n < end
    requires Holds(middle[..pos + key.n], key.obj.at, key.obj.bytes) && SameOutside(before, middle, pos, pos + key.n + 1)
    requires DecodeMember(before[pos..end], pos, space, want, strtod) ==
             MemberOf(key, Decode(middle[pos + key.n + 1..end], pos + key.n + 1, key.space, want, strtod))
    requires TookValue(middle, after, pos + key.n + 1, end, key.space, want, strtod, val)
    ensures |after| == |before| && TookMember(before, after, pos, end, space, want, strtod, MemberOf(key, val))
  {
    hide Val, Decode, DecodeMember, Backed, Holds, SameOutside, WroteOnly;
    var next := pos + key.n + 1;
    ValueFrame(before, middle, after, pos, next, end);
    if val.Good? {
      assert middle[..pos + key.n] == middle[..next][..pos + key.n] == after[..next][..pos + key.n] == after[..pos + key.n];
      HoldsGrows(middle[..pos + key.n], after[..next + val.n], key.obj.at, key.obj.bytes);
    }
  }

  lemma {:induction false} NoValueThere(s: bytes, base: nat, space: Space, want: bool, strtod: Strtod)
    requires Val(s) == None
    ensures Decode(s, base, space, want, strtod) == Bad(NoValue)
  {
    hide Val;
  }

  lemma {:induction false} DecodeTextIs(s: bytes, base: nat, space: Space, want: bool, strtod: Strtod)
    requires Val(s).Some? && Val(s).value.ty == TStr
    ensures var v := Val(s).value; var text := Unescape(s[v.at..v.at + v.len]);
            Decode(s, base, space, want, strtod) ==
            if text.None? then Bad(BadText) else Good(Buf(base + v.at, Trunc(text.value)), v.n, space)
  {
    hide Val, Unescape;
  }

  lemma {:induction false} DecodeNumberIs(s: bytes, base: nat, space: Space, want: bool, strtod: Strtod)
    requires Val(s).Some? && Val(s).value.ty == TNumber
    ensures var v := Val(s).value; var o := Number(s[v.at..v.at + v.len], strtod);
            Decode(s, base, space, want, strtod) == if o.None? then Bad(BadNumber) else Good(o.value, v.n, space)
  {
    hide Val, Number;
  }

  lemma {:induction false} NumberScanned(s: bytes)
    requires Val(s).Some? && Val(s).value.ty == TNumber
    ensures var v := Val(s).value; NumLen(s[v.at..v.at + v.len]) == v.len > 0
  {
    hide WsLen, NumLen, Elems, Members, StrLen;
    var t := s[WsLen(s)..];
    NumLocal(t, NumLen(t));
    assert t[..NumLen(t)] == s[Val(s).value.at..Val(s).value.at + NumLen(t)];
  }

  lemma {:induction false} DecodeLiteralIs(s: bytes, base: nat, space: Space, want: bool, strtod: Strtod)
    requires Val(s).Some? && (Val(s).value.ty == TTrue || Val(s).value.ty == TFalse || Val(s).value.ty == TNull)
    ensures var v := Val(s).value;
            Decode(s, base, space, want, strtod) ==
            Good(if v.ty == TTrue then Bool(true) else if v.ty == TFalse then Bool(false) else Null, v.n, space)
  {
    hide Val;
  }

  lemma BackedText(m: bytes, at: nat, text: bytes)
    requires Holds(m, at, text)
    ensures Backed(m, Buf(at, Trunc(text)))
  {
    var t := Trunc(text);
    assert m[at..at + |t|] == m[at..at + |text|][..|t|] == t;
  }

  lemma BackedScalar(m: bytes, o: Obj)
    requires !o.Buf? && !o.List? && !o.Map?
    ensures Backed(m, o)
  {
  }

  // ---------- one value, by kind ----------

  lemma {:induction false} TextTaken(
    before: bytes, after: bytes, pos: nat, end: nat, space: Space, want: bool, strtod: Strtod, ok: bool, stop: nat)
    requires pos <= end <= |before| && Val(before[pos..end]).Some? && Val(before[pos..end]).value.ty == TStr
    requires var v := Val(before[pos..end]).value; var start := pos + v.at;
             && start <= stop <= start + v.len && SameOutside(before, after, start, start + v.len)
             && Unescape(before[start..start + v.len]) == if ok then Some(after[start..stop]) else None
    ensures var v := Val(before[pos..end]).value; var start := pos + v.at;
            TookValue(before, after, pos, end, space, want, strtod,
                      if ok then Good(Buf(start, Trunc(after[start..stop])), v.n, space) else Bad(BadText))
  {
    hide Val, Decode, Unescape, Backed, Trunc;
    var s := before[pos..end];
    var v := Val(s).value;
    var start := pos + v.at;
    assert before[start..start + v.len] == s[v.at..v.at + v.len];
    DecodeTextIs(s, pos, space, want, strtod);
    if ok {
      assert after[..pos + v.n][start..stop] == after[start..stop];
      BackedText(after[..pos + v.n], start, after[start..stop]);
    }
  }

  /** A value that is read without writing anything. */
  lemma {:induction false} ScalarTaken(m: bytes, pos: nat, end: nat, space: Space, want: bool, strtod: Strtod, r: Decoded)
    requires pos <= end <= |m| && r == Decode(m[pos..end], pos, space, want, strtod)
    requires r.Good? ==> !r.obj.Buf? && !r.obj.List? && !r.obj.Map?
    ensures TookValue(m, m, pos, end, space, want, strtod, r)
  {
    hide Val, Decode, Backed;
    if r.Good? {
      BackedScalar(m[..pos + r.n], r.obj);
    }
  }

  lemma {:induction false} ContainerTaken(
    before: bytes, after: bytes, pos: nat, end: nat, space: Space, want: bool, strtod: Strtod, expected: Container, r: Container)
    requires pos <= end <= |before| && Val(before[pos..end]).Some?
    requires Val(before[pos..end]).value.ty == TArray || Val(before[pos..end]).value.ty == TObject
    requires var v := Val(before[pos..end]).value; var start := pos + v.at; var content := before[start..start + v.len];
             && expected == (if v.ty == TArray then ArrayOf(content, start, v.count, space, want, strtod)
                             else ObjectOf(content, start, v.count, space, want, strtod))
             && TookContainer(before, after, start, start + v.len, expected, r)
    ensures TookValue(before, after, pos, end, space, want, strtod,
                      if r.Failed? then Bad(r.cause) else Good(r.obj, Val(before[pos..end]).value.n, r.space))
  {
    hide Val, Decode, DecodeItems, DecodePairs, Backed, Trunc, Canon, ObjectBytes, PairBytes;
    var s := before[pos..end];
    var v := Val(s).value;
    var start := pos + v.at;
    assert before[start..start + v.len] == s[v.at..v.at + v.len];
    if v.ty == TArray {
      DecodeArrayIs(s, pos, space, want, strtod);
    } else {
      DecodeObjectIs(s, pos, space, want, strtod);
    }
    if r.Built? {
      BackedGrows(after[..start + v.len], after[..pos + v.n], r.obj);
    }
  }

  // ---------- the methods ----------

  method TakeJsonVal(mem: array<byte>, pos: nat, end: nat, space: Space, want: bool, strtod: Strtod) returns (r: Decoded)
    requires pos <= end <= mem.Length
    modifies mem
    ensures TookValue(old(mem[..]), mem[..], pos, end, space, want, strtod, r)
    decreases end - pos, 0
  {
    hide Val, Decode, Unescape, Backed, NumLen, Number, TookValue, TookContainer, ArrayOf, ObjectOf, SameOutside;
    ghost var m := mem[..];
    ghost var s := m[pos..end];
    assert mem[pos..end] == s;
    var scan := ScanValue(mem, pos, end);
    if scan == None {
      NoValueThere(s, pos, space, want, strtod);
      ScalarTaken(m, pos, end, space, want, strtod, Bad(NoValue));
      return Bad(NoValue);
    }
    var v := scan.value;
    var start := pos + v.at;
    var stop := start + v.len;
    assert s[v.at..v.at + v.len] == m[start..stop];
    assert mem[start..stop] == m[start..stop];
    if v.ty == TStr {
      var ok, last := UnescapeString(mem, start, stop);
      assert mem[start..last] == mem[..][start..last];
      Outside(m, mem[..], start, stop);
      TextTaken(m, mem[..], pos, end, space, want, strtod, ok, last);
      r := if ok then Good(Buf(start, Trunc(mem[start..last])), v.n, space) else Bad(BadText);
    } else if v.ty == TNumber {
      NumberScanned(s);
      DecodeNumberIs(s, pos, space, want, strtod);
      var ret, obj := DecodeJsonNumber(mem, start, stop, strtod);
      r := if ret == Ok then Good(obj, v.n, space) else Bad(BadNumber);
      ScalarTaken(m, pos, end, space, want, strtod, r);
    } else if v.ty == TArray {
      var c := DecodeJsonArray(mem, start, stop, v.count, space, want, strtod);
      ContainerTaken(m, mem[..], pos, end, space, want, strtod, ArrayOf(m[start..stop], start, v.count, space, want, strtod), c);
      r := if c.Failed? then Bad(c.cause) else Good(c.obj, v.n, c.space);
    } else if v.ty == TObject {
      var c := DecodeJsonObject(mem, start, stop, v.count, space, want, strtod);
      ContainerTaken(m, mem[..], pos, end, space, want, strtod, ObjectOf(m[start..stop], start, v.count, space, want, strtod), c);
      r := if c.Failed? then Bad(c.cause) else Good(c.obj, v.n, c.space);
    } else {
      DecodeLiteralIs(s, pos, space, want, strtod);
      r := Good(if v.ty == TTrue then Bool(true) else if v.ty == TFalse then Bool(false) else Null, v.n, space);
      ScalarTaken(m, pos, end, space, want, strtod, r);
    }
  }

  lemma Outside(before: bytes, after: bytes, from: nat, to: nat)
    requires |before| == |after| && forall i :: 0 <= i < |before| && !(from <= i < to) ==> after[i] == before[i]
    ensures SameOutside(before, after, from, to)
  {
  }

  method DecodeJsonArray(mem: array<byte>, start: nat, end: nat, count: nat, space: Space, want: bool, strtod: Strtod)
    returns (r: Container)
    requires start <= end <= mem.Length
    modifies mem
    ensures TookContainer(old(mem[..]), mem[..], start, end,
                          ArrayOf(old(mem[..])[start..end], start, count, space, want, strtod), r)
    decreases end - start, 1
  {
    hide DecodeItems, ObjectBytes, AfterItems, TookValue, ItemsSoFar, SameOutside, Backed, Trunc;
    ghost var first := mem[..];
    var cost := if want then ObjectBytes(count) else 0;
    Outside(first, first, start, end);
    if cost > Free(space) {
      return Failed(NoMemory);
    }
    var space' := space.(index := space.index + cost);
    var items := new Obj[count](_ => Null);
    ghost var goal := DecodeItems(first[start..end], start, count, space', want, strtod);
    ItemsStart(first, start, end, count, space', want, strtod);
    var cur, i := start, 0;
    assert items[..0] == [];
    while i < count
      invariant 0 <= i <= count && start <= cur <= end && SameOutside(first, mem[..], start, end)
      invariant ItemsSoFar(first, mem[..], items[..i], start, cur, end, count - i, space', want, strtod, goal)
    {
      ghost var done, before := items[..i], mem[..];
      var o := TakeJsonVal(mem, cur, end, space', want, strtod);
      ItemTaken(first, before, mem[..], done, start, cur, end, count - i, space', want, strtod, goal, o);
      if o.Bad? {
        return Failed(o.cause);
      }
      items[i] := o.obj;
      assert items[..i + 1] == done + [o.obj];
      space', cur := o.space, cur + o.n;
      if i != count - 1 {
        if !(cur < end && mem[cur] == 0x2C) {
          return Failed(NoComma);
        }
        cur := cur + 1;
      }
      i := i + 1;
    }
    assert items[..i] == items[..];
    ItemsFinish(first, mem[..], items[..], start, cur, end, space', want, strtod, goal, if count > 0 then space.index else 0);
    r := Built(List(if count > 0 then space.index else 0, Trunc(items[..])), space');
  }

  lemma {:induction false} ItemsStart(m: bytes, start: nat, end: nat, count: nat, space: Space, want: bool, strtod: Strtod)
    requires start <= end <= |m|
    ensures ItemsSoFar(m, m, [], start, start, end, count, space, want, strtod,
                       DecodeItems(m[start..end], start, count, space, want, strtod))
  {
    hide DecodeItems, AfterItems;
    NoneDone(DecodeItems(m[start..end], start, count, space, want, strtod), BadPairs(NoValue));
  }

  lemma {:induction false} ItemsFinish(
    first: bytes, now: bytes, done: seq<Obj>, start: nat, cur: nat, end: nat, space: Space, want: bool, strtod: Strtod,
    goal: Items, at: nat)
    requires ItemsSoFar(first, now, done, start, cur, end, 0, space, want, strtod, goal)
    ensures goal == GoodItems(done, cur - start, space) && |now| == |first| && Backed(now[..end], List(at, Trunc(done)))
  {
    hide DecodeItems, AfterItems;
    ItemsDone(now[cur..end], cur, space, want, strtod, done, cur - start);
    StillBacked(now[..cur], now[..end], done);
    assert forall x :: x in Trunc(done) ==> x in done;
  }

  /** One turn of decode_json_object's loop. */
  method TakeMember(mem: array<byte>, pos: nat, end: nat, space: Space, want: bool, strtod: Strtod) returns (r: Member)
    requires pos <= end <= mem.Length
    modifies mem
    ensures TookMember(old(mem[..]), mem[..], pos, end, space, want, strtod, r)
    decreases end - pos, 1
  {
    hide Decode, DecodeMember, TookValue, TookMember, Holds, SameOutside;
    ghost var first := mem[..];
    var key := TakeJsonVal(mem, pos, end, space, true, strtod);
    KeyTaken(first, mem[..], pos, end, space, want, strtod, key);
    if key.Bad? {
      return BadMember(key.cause);
    }
    if !key.obj.Buf? {
      return BadMember(KeyNotText);
    }
    var colon := pos + key.n;
    if !(colon < end && mem[colon] == 0x3A) {
      return BadMember(NoColon);
    }
    ghost var middle := mem[..];
    var val := TakeJsonVal(mem, colon + 1, end, key.space, want, strtod);
    MemberTaken(first, middle, mem[..], pos, end, space, want, strtod, key, val);
    r := MemberOf(key, val);
  }

  const BLANK := KV(0, [], Null)

  method DecodeJsonObject(mem: array<byte>, start: nat, end: nat, count: nat, space: Space, want: bool, strtod: Strtod)
    returns (r: Container)
    requires start <= end <= mem.Length
    modifies mem
    ensures TookContainer(old(mem[..]), mem[..], start, end,
                          ObjectOf(old(mem[..])[start..end], start, count, space, want, strtod), r)
    decreases end - start, 2
  {
    hide DecodePairs, PairBytes, AfterPairs, TookMember, PairsSoFar, SameOutside, Backed, Trunc, Canon;
    ghost var first := mem[..];
    var cost := if want then PairBytes(count) else 0;
    Outside(first, first, start, end);
    if cost > Free(space) {
      return Failed(NoMemory);
    }
    var space' := space.(index := space.index + cost);
    var pairs := new KV[count](_ => BLANK);
    ghost var goal := DecodePairs(first[start..end], start, count, space', want, strtod);
    PairsStart(first, start, end, count, space', want, strtod);
    var cur, i := start, 0;
    assert pairs[..0] == [];
    while i < count
      invariant 0 <= i <= count && start <= cur <= end && SameOutside(first, mem[..], start, end)
      invariant PairsSoFar(first, mem[..], pairs[..i], start, cur, end, count - i, space', want, strtod, goal)
    {
      ghost var done, before := pairs[..i], mem[..];
      var kv := TakeMember(mem, cur, end, space', want, strtod);
      PairTaken(first, before, mem[..], done, start, cur, end, count - i, space', want, strtod, goal, kv);
      if kv.BadMember? {
        return Failed(kv.cause);
      }
      pairs[i] := kv.kv;
      assert pairs[..i + 1] == done + [kv.kv];
      space', cur := kv.space, cur + kv.n;
      if i != count - 1 {
        if !(cur < end && mem[cur] == 0x2C) {
          return Failed(NoComma);
        }
        cur := cur + 1;
      }
      i := i + 1;
    }
    ghost var all := pairs[..];
    assert pairs[..i] == all == pairs[..count];
    var at := if count > 0 then space.index else 0;
    PairsFinish(first, mem[..], all, start, cur, end, space', want, strtod, goal, at);
    var kept := CanonicalizeShallow(pairs, count);
    r := Built(Map(at, Trunc(pairs[..kept])), space');
  }

  lemma {:induction false} PairsStart(m: bytes, start: nat, end: nat, count: nat, space: Space, want: bool, strtod: Strtod)
    requires start <= end <= |m|
    ensures PairsSoFar(m, m, [], start, start, end, count, space, want, strtod,
                       DecodePairs(m[start..end], start, count, space, want, strtod))
  {
    hide DecodePairs, AfterPairs;
    NoneDone(BadItems(NoValue), DecodePairs(m[start..end], start, count, space, want, strtod));
  }

  lemma {:induction false} PairsFinish(
    first: bytes, now: bytes, done: seq<KV>, start: nat, cur: nat, end: nat, space: Space, want: bool, strtod: Strtod,
    goal: Pairs, at: nat)
    requires PairsSoFar(first, now, done, start, cur, end, 0, space, want, strtod, goal)
    ensures goal == GoodPairs(done, cur - start, space) && |now| == |first| && Backed(now[..end], Map(at, Trunc(Canon(done))))
  {
    hide DecodePairs, AfterPairs, Canon;
    PairsDone(now[cur..end], cur, space, want, strtod, done, cur - start);
    PairsStillBacked(now[..cur], now[..end], done);
    CanonMembers(done);
    forall kv | kv in Trunc(Canon(done)) ensures PairBacked(now[..end], kv) {
      assert kv in Canon(done);
    }
  }

  /**
   gg_json_decode_destructive: the outcome is that of decoding the document as it was, nothing
   outside the document is written, and the strings of the tree lie unescaped in it.
   */
  method DecodeDestructive(mem: array<byte>, start: nat, end: nat, space: Space, want: bool, strtod: Strtod)
    returns (ret: Error, obj: Obj, space': Space)
    requires start <= end <= mem.Length
    modifies mem
    ensures Document(ret, obj, space') == DecodeDocument(old(mem[..])[start..end], start, space, want, strtod)
    ensures SameOutside(old(mem[..]), mem[..], start, end)
    ensures ret == Ok ==> Backed(mem[..end], obj)
  {
    hide Decode, Backed, Val, SameOutside;
    ghost var first := mem[..];
    var r := TakeJsonVal(mem, start, end, space, want, strtod);
    Unchanged(first, start);
    ValueFrame(first, first, mem[..], start, start, end);
    assert mem[..end] == mem[..][..end];
    if r.Bad? {
      return ErrorOf(r.cause), Null, space;
    }
    if start + r.n < end {
      return Parse, r.obj, space;
    }
    return Ok, r.obj, if want then r.space else space;
  }
}
