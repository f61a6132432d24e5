/**
 The second pass of JSON decoding as a function of the document's bytes: the value at the front of
 a buffer is scanned, and its content is then decoded, scanning the elements of containers again.
 */
module JsonDecode {
  import opened Common
  import opened Objects
  import opened MapOrder
  import opened JsonGrammar
  import opened JsonScan
  import opened JsonUnescape
  import opened IntParse

  /** Allocation from the decoder's arena: only how far it is used matters here. */
  datatype Space = Space(index: nat, capacity: nat)

  function Free(a: Space): int {
    a.capacity - a.index
  }

  /** Which branch of the decoder gave up. */
  datatype Cause = NoValue | BadText | BadNumber | NoMemory | NoComma | NoColon | KeyNotText

  function ErrorOf(c: Cause): Error {
    match c
    case BadNumber => Range
    case NoMemory => NoMem
    case _ => Parse
  }

  datatype Decoded =
    | Bad(cause: Cause)
    | Good(obj: Obj, n: nat, space: Space)

  datatype Items =
    | BadItems(cause: Cause)
    | GoodItems(items: seq<Obj>, n: nat, space: Space)

  datatype Pairs =
    | BadPairs(cause: Cause)
    | GoodPairs(pairs: seq<KV>, n: nat, space: Space)

  /** strtod on the text of a number with a fraction or exponent; None is ERANGE. */
  type Strtod = bytes -> Option<nat>

  /** Lengths are stored in 16 bits. */
  function Trunc<T>(s: seq<T>): seq<T> {
    if |s| > UINT16_MAX then s[..UINT16_MAX] else s
  }

  function Number(content: bytes, strtod: Strtod): Option<Obj> {
    var t := content[IntLen(content)..];
    if FracLen(t) == 0 && ExpLen(t[FracLen(t)..]) == 0 then
      var v := ParseInt(content);
      if v.None? then None else Some(I64(v.value))
    else
      var d := strtod(content);
      if d.None? then None else Some(F64(d.value))
  }

  /** take_json_val on a buffer whose first byte is at `base`. */
  function Decode(s: bytes, base: nat, space: Space, want: bool, strtod: Strtod): (r: Decoded)
    ensures r.Good? ==> Val(s).Some? && r.n == Val(s).value.n
    decreases |s|, 0
  {
    match Val(s)
    case None => Bad(NoValue)
    case Some(v) =>
      var content, at := s[v.at..v.at + v.len], base + v.at;
      match v.ty
      case TStr =>
        var text := Unescape(content);
        if text.None? then Bad(BadText) else Good(Buf(at, Trunc(text.value)), v.n, space)
      case TNumber =>
        var o := Number(content, strtod);
        if o.None? then Bad(BadNumber) else Good(o.value, v.n, space)
      case TTrue => Good(Bool(true), v.n, space)
      case TFalse => Good(Bool(false), v.n, space)
      case TNull => Good(Null, v.n, space)
      case TArray =>
        var cost := if want then ObjectBytes(v.count) else 0;
        if cost > Free(space) then Bad(NoMemory)
        else
          var r := DecodeItems(content, at, v.count, space.(index := space.index + cost), want, strtod);
          if r.BadItems? then Bad(r.cause)
          else Good(List(if v.count > 0 then space.index else 0, Trunc(r.items)), v.n, r.space)
      case TObject =>
        var cost := if want then PairBytes(v.count) else 0;
        if cost > Free(space) then Bad(NoMemory)
        else
          var r := DecodePairs(content, at, v.count, space.(index := space.index + cost), want, strtod);
          if r.BadPairs? then Bad(r.cause)
          else Good(Map(if v.count > 0 then space.index else 0, Trunc(Canon(r.pairs))), v.n, r.space)
  }

  lemma {:induction false} DecodeArrayIs(s: bytes, base: nat, space: Space, want: bool, strtod: Strtod)
    requires Val(s).Some? && Val(s).value.ty == TArray
    ensures var v := Val(s).value; var cost := if want then ObjectBytes(v.count) else 0;
            var r := DecodeItems(s[v.at..v.at + v.len], base + v.at, v.count, space.(index := space.index + cost), want, strtod);
            Decode(s, base, space, want, strtod) ==
            if cost > Free(space) then Bad(NoMemory)
            else if r.BadItems? then Bad(r.cause)
            else Good(List(if v.count > 0 then space.index else 0, Trunc(r.items)), v.n, r.space)
  {
    hide Val, Unescape, Number, DecodeItems, DecodePairs, Canon;
  }

  lemma {:induction false} DecodeObjectIs(s: bytes, base: nat, space: Space, want: bool, strtod: Strtod)
    requires Val(s).Some? && Val(s).value.ty == TObject
    ensures var v := Val(s).value; var cost := if want then PairBytes(v.count) else 0;
            var r := DecodePairs(s[v.at..v.at + v.len], base + v.at, v.count, space.(index := space.index + cost), want, strtod);
            Decode(s, base, space, want, strtod) ==
            if cost > Free(space) then Bad(NoMemory)
            else if r.BadPairs? then Bad(r.cause)
            else Good(Map(if v.count > 0 then space.index else 0, Trunc(Canon(r.pairs))), v.n, r.space)
  {
    hide Val, Unescape, Number, DecodeItems, DecodePairs, Canon;
  }

  /** A value without elements takes no memory and fails only over its own text. */
  lemma {:induction false} DecodeScalar(s: bytes, base: nat, space: Space, want: bool, strtod: Strtod)
    requires Val(s).Some? && Val(s).value.ty != TArray && Val(s).value.ty != TObject
    ensures var r := Decode(s, base, space, want, strtod);
            if r.Bad? then r.cause == BadText || r.cause == BadNumber else r.space == space
  {
    hide Val, Unescape, Number, DecodeItems, DecodePairs, Canon;
  }

  predicate ByteAt(s: bytes, i: nat, b: byte) {
    i < |s| && s[i] == b
  }

  /** decode_json_array's loop for the last `k` elements. */
  function DecodeItems(s: bytes, base: nat, k: nat, space: Space, want: bool, strtod: Strtod): (r: Items)
    ensures r.GoodItems? ==> r.n <= |s| && |r.items| == k
    decreases |s|, 1
  {
    if k == 0 then GoodItems([], 0, space)
    else
      var r := Decode(s, base, space, want, strtod);
      if r.Bad? then BadItems(r.cause)
      else if k == 1 then GoodItems([r.obj], r.n, r.space)
      else if !ByteAt(s, r.n, 0x2C) then BadItems(NoComma)
      else
        var q := DecodeItems(s[r.n + 1..], base + r.n + 1, k - 1, r.space, want, strtod);
        if q.BadItems? then q else GoodItems([r.obj] + q.items, r.n + 1 + q.n, q.space)
  }

  datatype Member =
    | BadMember(cause: Cause)
    | GoodMember(kv: KV, n: nat, space: Space)

  /** One turn of decode_json_object's loop: a key, which is always stored, a colon and a value. */
  function DecodeMember(s: bytes, base: nat, space: Space, want: bool, strtod: Strtod): (r: Member)
    ensures r.GoodMember? ==> r.n <= |s|
    decreases |s|, 1
  {
    match Decode(s, base, space, true, strtod)
    case Bad(c) => BadMember(c)
    case Good(key, n, space1) =>
      if !key.Buf? then BadMember(KeyNotText)
      else if !ByteAt(s, n, 0x3A) then BadMember(NoColon)
      else
        match Decode(s[n + 1..], base + n + 1, space1, want, strtod)
        case Bad(c) => BadMember(c)
        case Good(o, m, space2) => GoodMember(KV(key.at, key.bytes, o), n + 1 + m, space2)
  }

  /** decode_json_object's loop for the last `k` members. */
  function DecodePairs(s: bytes, base: nat, k: nat, space: Space, want: bool, strtod: Strtod): (r: Pairs)
    ensures r.GoodPairs? ==> r.n <= |s| && |r.pairs| == k
    decreases |s|, 2
  {
    if k == 0 then GoodPairs([], 0, space)
    else
      var r := DecodeMember(s, base, space, want, strtod);
      if r.BadMember? then BadPairs(r.cause)
      else if k == 1 then GoodPairs([r.kv], r.n, r.space)
      else if !ByteAt(s, r.n, 0x2C) then BadPairs(NoComma)
      else
        var q := DecodePairs(s[r.n + 1..], base + r.n + 1, k - 1, r.space, want, strtod);
        if q.BadPairs? then q else GoodPairs([r.kv] + q.pairs, r.n + 1 + q.n, q.space)
  }

  /** gg_json_decode_destructive: the arena is committed only on success. */
  datatype Document = Document(ret: Error, obj: Obj, space: Space)

  function DecodeDocument(s: bytes, base: nat, space: Space, want: bool, strtod: Strtod): Document {
    match Decode(s, base, space, want, strtod)
    case Bad(c) => Document(ErrorOf(c), Null, space)
    case Good(o, n, space1) =>
      if n < |s| then Document(Parse, o, space)
      else Document(Ok, o, if want then space1 else space)
  }
}
