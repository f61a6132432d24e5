/** How much arena memory decoding takes: an object per array element and a pair per raw member. */
module JsonMemory {
  import opened Common
  import opened Objects
  import opened MapOrder
  import opened JsonGrammar
  import opened JsonScan
  import opened JsonScanProof
  import opened JsonLocal
  import opened JsonUnescape
  import opened JsonDecode
  import opened JsonTwoPass
  import Arena

  /** Elements of all arrays and raw members of all objects in a value. */
  datatype Tally = Tally(elements: nat, members: nat)

  function Plus(a: Tally, b: Tally): Tally {
    Tally(a.elements + b.elements, a.members + b.members)
  }

  const NOTHING := Tally(0, 0)

  function RawOf(s: bytes): Tally
    decreases |s|, 0
  {
    match Val(s)
    case None => NOTHING
    case Some(v) =>
      var content := s[v.at..v.at + v.len];
      if v.ty == TArray then Plus(Tally(v.count, 0), RawItems(content, v.count))
      else if v.ty == TObject then Plus(Tally(0, v.count), RawPairs(content, v.count))
      else NOTHING
  }

  function RawItems(s: bytes, k: nat): Tally
    decreases |s|, 1
  {
    if k == 0 || Val(s).None? then NOTHING
    else
      var n := Val(s).value.n;
      if k == 1 || !ByteAt(s, n, 0x2C) then RawOf(s) else Plus(RawOf(s), RawItems(s[n + 1..], k - 1))
  }

  /** The value behind a key. */
  function RawMember(s: bytes): Tally
    decreases |s|, 1
  {
    match Val(s)
    case None => NOTHING
    case Some(v) => if ByteAt(s, v.n, 0x3A) then RawOf(s[v.n + 1..]) else NOTHING
  }

  /** Bytes taken by the member at the front: key, colon and value. */
  function MemberLen(s: bytes): (n: nat)
    ensures n <= |s|
  {
    match Val(s)
    case None => 0
    case Some(v) =>
      if !ByteAt(s, v.n, 0x3A) || Val(s[v.n + 1..]).None? then 0 else v.n + 1 + Val(s[v.n + 1..]).value.n
  }

  function RawPairs(s: bytes, k: nat): Tally
    decreases |s|, 2
  {
    if k == 0 then NOTHING
    else
      var n := MemberLen(s);
      if k == 1 || n == 0 || !ByteAt(s, n, 0x2C) then RawMember(s) else Plus(RawMember(s), RawPairs(s[n + 1..], k - 1))
  }

  function Memory(r: Tally): nat {
    r.elements * OBJECT_SIZE + r.members * KV_SIZE
  }

  /** Subobjects as the visitor counts them: a member is a key and a value. */
  function Subobjects(r: Tally): nat {
    r.elements + 2 * r.members
  }

  lemma MemoryBound(r: Tally)
    ensures Memory(r) <= OBJECT_SIZE * Subobjects(r)
  {
  }

  /** The decoder's arena is the allocator's: objects and pairs need no padding. */
  lemma SpaceIsArena(a: Arena.Region, size: nat)
    requires Arena.RegionOk(a)
    ensures var space := Space(a.index, a.capacity);
            Arena.Alloc(a, size, 1) == if size > Free(space) then None else Some(a.base + space.index)
  {
    assert Arena.Pad(a.index, 1) == 0;
  }

  /** What decoding does to the arena. */
  ghost predicate Uses(before: Space, want: bool, cost: nat, failed: bool, after: Space) {
    var total := if want then cost else 0;
    if failed then total > Free(before) else after == before.(index := before.index + total) && total <= Free(before)
  }

  /** A first allocation and then the rest. */
  lemma UsesMore(before: Space, want: bool, first: nat, rest: nat, failed: bool, after: Space)
    requires (if want then first else 0) <= Free(before)
    requires Uses(before.(index := before.index + if want then first else 0), want, rest, failed,
                  if failed then before.(index := before.index + if want then first else 0) else after)
    ensures Uses(before, want, first + rest, failed, after)
  {
  }

  lemma TooMuch(before: Space, want: bool, first: nat, rest: nat)
    requires (if want then first else 0) > Free(before) && before.index <= before.capacity
    ensures Uses(before, want, first + rest, true, before)
  {
  }

  lemma MemoryPlus(a: Tally, b: Tally)
    ensures Memory(Plus(a, b)) == Memory(a) + Memory(b)
  {
  }

  ghost predicate DecodedUses(r: Decoded, space: Space, want: bool, raw: Tally) {
    && (r.Good? ==> Uses(space, want, Memory(raw), false, r.space))
    && (r == Bad(NoMemory) ==> Uses(space, want, Memory(raw), true, space))
  }

  ghost predicate ItemsUse(r: Items, space: Space, want: bool, raw: Tally) {
    && (r.GoodItems? ==> Uses(space, want, Memory(raw), false, r.space))
    && (r == BadItems(NoMemory) ==> Uses(space, want, Memory(raw), true, space))
  }

  ghost predicate PairsUse(r: Pairs, space: Space, want: bool, raw: Tally) {
    && (r.GoodPairs? ==> Uses(space, want, Memory(raw), false, r.space))
    && (r == BadPairs(NoMemory) ==> Uses(space, want, Memory(raw), true, space))
  }

  ghost predicate MemberUses(r: Member, space: Space, want: bool, raw: Tally) {
    && (r.GoodMember? ==> Uses(space, want, Memory(raw), false, r.space))
    && (r == BadMember(NoMemory) ==> Uses(space, want, Memory(raw), true, space))
  }

  lemma {:induction false} RawOfArray(s: bytes)
    requires Val(s).Some? && Val(s).value.ty == TArray
    ensures var v := Val(s).value; RawOf(s) == Plus(Tally(v.count, 0), RawItems(s[v.at..v.at + v.len], v.count))
  {
    hide Val, RawItems, RawPairs;
  }

  lemma {:induction false} RawOfObject(s: bytes)
    requires Val(s).Some? && Val(s).value.ty == TObject
    ensures var v := Val(s).value; RawOf(s) == Plus(Tally(0, v.count), RawPairs(s[v.at..v.at + v.len], v.count))
  {
    hide Val, RawItems, RawPairs;
  }

  lemma {:induction false} RawOfScalar(s: bytes)
    requires Val(s).Some? && Val(s).value.ty != TArray && Val(s).value.ty != TObject
    ensures RawOf(s) == NOTHING
  {
    hide Val, RawItems, RawPairs;
  }

  lemma {:induction false} DecodeMemory(s: bytes, base: nat, space: Space, want: bool, strtod: Strtod)
    requires Val(s).Some? && space.index <= space.capacity
    ensures DecodedUses(Decode(s, base, space, want, strtod), space, want, RawOf(s))
    decreases |s|, 0
  {
    hide Val, Elems, Members, Decode, DecodeItems, DecodePairs, RawOf, RawItems, RawPairs;
    var v := Val(s).value;
    if v.ty == TArray {
      ArrayMemory(s, base, space, want, strtod);
    } else if v.ty == TObject {
      ObjectMemory(s, base, space, want, strtod);
    } else {
      RawOfScalar(s);
      DecodeScalar(s, base, space, want, strtod);
    }
  }

  lemma ArrayUses(space: Space, want: bool, count: nat, rest: Tally, r: Items, d: Decoded)
    requires space.index <= space.capacity
    requires var cost := if want then ObjectBytes(count) else 0;
             && (cost <= Free(space) ==> ItemsUse(r, space.(index := space.index + cost), want, rest))
             && (d.Good? ==> cost <= Free(space) && r.GoodItems? && d.space == r.space)
             && (d.Bad? ==> cost > Free(space) || (r.BadItems? && d.cause == r.cause))
    ensures DecodedUses(d, space, want, Plus(Tally(count, 0), rest))
  {
    hide Memory, Uses, ObjectBytes, PairBytes;
    MemoryPlus(Tally(count, 0), rest);
    MemoryOf(count);
    var first := ObjectBytes(count);
    if (if want then first else 0) > Free(space) {
      TooMuch(space, want, first, Memory(rest));
    } else if d.Good? {
      UsesMore(space, want, first, Memory(rest), false, r.space);
    } else if d.cause == NoMemory {
      UsesMore(space, want, first, Memory(rest), true, space);
    }
  }

  lemma {:induction false} ArrayOutcome(s: bytes, base: nat, space: Space, want: bool, strtod: Strtod)
    requires Val(s).Some? && Val(s).value.ty == TArray
    ensures var v := Val(s).value; var cost := if want then ObjectBytes(v.count) else 0;
            var r := DecodeItems(s[v.at..v.at + v.len], base + v.at, v.count, space.(index := space.index + cost), want, strtod);
            var d := Decode(s, base, space, want, strtod);
            && (d.Good? ==> cost <= Free(space) && r.GoodItems? && d.space == r.space)
            && (d.Bad? ==> cost > Free(space) || (r.BadItems? && d.cause == r.cause))
  {
    hide Val, Decode, DecodeItems, ObjectBytes;
    DecodeArrayIs(s, base, space, want, strtod);
  }

  lemma {:induction false} ArrayInside(s: bytes, base: nat, space: Space, want: bool, strtod: Strtod)
    requires Val(s).Some? && space.index <= space.capacity && Val(s).value.ty == TArray
    ensures var v := Val(s).value; var content := s[v.at..v.at + v.len];
            ItemsUse(DecodeItems(content, base, v.count, space, want, strtod), space, want, RawItems(content, v.count))
    decreases |s|, 0, 0
  {
    hide Val, Elems, Members, Decode, DecodeItems, RawOf, RawItems, Uses, Memory;
    var v := Val(s).value;
    var content := s[v.at..v.at + v.len];
    ArrayContent(s);
    if v.count == 0 {
      NoItems(content, base, space, want, strtod);
      NoRaw(content, space, want);
    } else {
      assert s[v.at..][..v.len] == content;
      ItemsMemory(s[v.at..], base, space, want, strtod);
    }
  }

  lemma {:induction false} ArrayMemory(s: bytes, base: nat, space: Space, want: bool, strtod: Strtod)
    requires Val(s).Some? && space.index <= space.capacity && Val(s).value.ty == TArray
    ensures DecodedUses(Decode(s, base, space, want, strtod), space, want, RawOf(s))
    decreases |s|, 0, 1
  {
    hide Val, Decode, DecodeItems, RawOf, RawItems, DecodedUses, ItemsUse, ObjectBytes;
    var v := Val(s).value;
    var content, at := s[v.at..v.at + v.len], base + v.at;
    var cost := if want then ObjectBytes(v.count) else 0;
    var space1 := space.(index := space.index + cost);
    var rest, r := RawItems(content, v.count), DecodeItems(content, at, v.count, space1, want, strtod);
    ArrayOutcome(s, base, space, want, strtod);
    RawOfArray(s);
    if cost <= Free(space) {
      ArrayInside(s, at, space1, want, strtod);
    }
    ArrayUses(space, want, v.count, rest, r, Decode(s, base, space, want, strtod));
  }

  lemma ObjectUses(space: Space, want: bool, count: nat, rest: Tally, r: Pairs, d: Decoded)
    requires space.index <= space.capacity
    requires var cost := if want then PairBytes(count) else 0;
             && (cost <= Free(space) ==> PairsUse(r, space.(index := space.index + cost), want, rest))
             && (d.Good? ==> cost <= Free(space) && r.GoodPairs? && d.space == r.space)
             && (d.Bad? ==> cost > Free(space) || (r.BadPairs? && d.cause == r.cause))
    ensures DecodedUses(d, space, want, Plus(Tally(0, count), rest))
  {
    hide Memory, Uses, ObjectBytes, PairBytes;
    MemoryPlus(Tally(0, count), rest);
    MemoryOf(count);
    var first := PairBytes(count);
    if (if want then first else 0) > Free(space) {
      TooMuch(space, want, first, Memory(rest));
    } else if d.Good? {
      UsesMore(space, want, first, Memory(rest), false, r.space);
    } else if d.cause == NoMemory {
      UsesMore(space, want, first, Memory(rest), true, space);
    }
  }

  lemma {:induction false} ObjectOutcome(s: bytes, base: nat, space: Space, want: bool, strtod: Strtod)
    requires Val(s).Some? && Val(s).value.ty == TObject
    ensures var v := Val(s).value; var cost := if want then PairBytes(v.count) else 0;
            var r := DecodePairs(s[v.at..v.at + v.len], base + v.at, v.count, space.(index := space.index + cost), want, strtod);
            var d := Decode(s, base, space, want, strtod);
            && (d.Good? ==> cost <= Free(space) && r.GoodPairs? && d.space == r.space)
            && (d.Bad? ==> cost > Free(space) || (r.BadPairs? && d.cause == r.cause))
  {
    hide Val, Decode, DecodePairs, PairBytes;
    DecodeObjectIs(s, base, space, want, strtod);
  }

  lemma {:induction false} ObjectInside(s: bytes, base: nat, space: Space, want: bool, strtod: Strtod)
    requires Val(s).Some? && space.index <= space.capacity && Val(s).value.ty == TObject
    ensures var v := Val(s).value; var content := s[v.at..v.at + v.len];
            PairsUse(DecodePairs(content, base, v.count, space, want, strtod), space, want, RawPairs(content, v.count))
    decreases |s|, 0, 0
  {
    hide Val, Elems, Members, Decode, DecodePairs, RawOf, RawPairs, Uses, Memory;
    var v := Val(s).value;
    var content := s[v.at..v.at + v.len];
    ObjectContent(s);
    if v.count == 0 {
      NoItems(content, base, space, want, strtod);
      NoRaw(content, space, want);
    } else {
      assert s[v.at..][..v.len] == content;
      PairsMemory(s[v.at..], base, space, want, strtod);
    }
  }

  lemma {:induction false} ObjectMemory(s: bytes, base: nat, space: Space, want: bool, strtod: Strtod)
    requires Val(s).Some? && space.index <= space.capacity && Val(s).value.ty == TObject
    ensures DecodedUses(Decode(s, base, space, want, strtod), space, want, RawOf(s))
    decreases |s|, 0, 1
  {
    hide Val, Decode, DecodePairs, RawOf, RawPairs, DecodedUses, PairsUse, PairBytes;
    var v := Val(s).value;
    var content, at := s[v.at..v.at + v.len], base + v.at;
    var cost := if want then PairBytes(v.count) else 0;
    var space1 := space.(index := space.index + cost);
    var rest, r := RawPairs(content, v.count), DecodePairs(content, at, v.count, space1, want, strtod);
    ObjectOutcome(s, base, space, want, strtod);
    RawOfObject(s);
    if cost <= Free(space) {
      ObjectInside(s, at, space1, want, strtod);
    }
    ObjectUses(space, want, v.count, rest, r, Decode(s, base, space, want, strtod));
  }

  lemma MemoryOf(n: nat)
    ensures Memory(Tally(n, 0)) == ObjectBytes(n) && Memory(Tally(0, n)) == PairBytes(n)
  {
  }

  lemma {:induction false} NoRaw(s: bytes, space: Space, want: bool)
    requires space.index <= space.capacity
    ensures RawItems(s, 0) == NOTHING && RawPairs(s, 0) == NOTHING && Uses(space, want, Memory(NOTHING), false, space)
  {
  }

  /** One part's use and then the rest's. */
  lemma UsesBoth(before: Space, want: bool, first: Tally, rest: Tally, middle: Space, after: Space)
    requires Uses(before, want, Memory(first), false, middle)
    ensures Uses(middle, want, Memory(rest), false, after) ==> Uses(before, want, Memory(Plus(first, rest)), false, after)
    ensures Uses(middle, want, Memory(rest), true, middle) ==> Uses(before, want, Memory(Plus(first, rest)), true, before)
  {
    MemoryPlus(first, rest);
  }

  lemma UsesTooMuch(before: Space, want: bool, first: Tally, rest: Tally)
    requires Uses(before, want, Memory(first), true, before)
    ensures Uses(before, want, Memory(Plus(first, rest)), true, before)
  {
    MemoryPlus(first, rest);
  }

  lemma {:induction false} RawItemsIs(s: bytes, k: nat)
    requires k > 0 && Val(s).Some?
    ensures var n := Val(s).value.n;
            RawItems(s, k) == if k == 1 || !ByteAt(s, n, 0x2C) then RawOf(s) else Plus(RawOf(s), RawItems(s[n + 1..], k - 1))
  {
    hide Val, RawOf;
  }

  lemma {:induction false} ItemsMemory(b: bytes, base: nat, space: Space, want: bool, strtod: Strtod)
    requires Elems(b).Some? && space.index <= space.capacity
    ensures var e := Elems(b).value;
            ItemsUse(DecodeItems(b[..e.n], base, e.count, space, want, strtod), space, want, RawItems(b[..e.n], e.count))
    decreases |b|, 1
  {
    hide Val, Decode, RawOf, Elems, DecodeItems, RawItems, Uses, Memory;
    ElemsUnfold(b);
    var e, v := Elems(b).value, Val(b).value;
    var c := b[..e.n];
    ValLocal(b, e.n);
    ItemsIs(c, base, e.count, space, want, strtod);
    RawItemsIs(c, e.count);
    DecodeMemory(c, base, space, want, strtod);
    var r := Decode(c, base, space, want, strtod);
    if e.count > 1 {
      var b1 := b[v.n + 1..];
      assert c[v.n + 1..] == b1[..e.n - v.n - 1];
      var rest := RawItems(c[v.n + 1..], e.count - 1);
      if r.Good? {
        UsesFits(space, want, RawOf(c), r.space);
        ItemsMemory(b1, base + v.n + 1, r.space, want, strtod);
        var q := DecodeItems(c[v.n + 1..], base + v.n + 1, e.count - 1, r.space, want, strtod);
        UsesBoth(space, want, RawOf(c), rest, r.space, if q.GoodItems? then q.space else r.space);
      } else if r.cause == NoMemory {
        UsesTooMuch(space, want, RawOf(c), rest);
      }
    }
  }

  lemma UsesFits(before: Space, want: bool, cost: Tally, after: Space)
    requires Uses(before, want, Memory(cost), false, after)
    ensures after.index <= after.capacity
  {
  }

  lemma {:induction false} KeyMemory(s: bytes, base: nat, space: Space, strtod: Strtod)
    requires Val(s).Some? && Val(s).value.ty == TStr
    ensures var r := Decode(s, base, space, true, strtod); if r.Bad? then r.cause == BadText else r.space == space
  {
    hide Val, Unescape;
  }

  lemma {:induction false} MemberMemory(b: bytes, m: nat, base: nat, space: Space, want: bool, strtod: Strtod)
    requires 0 < KvLen(b) <= m <= |b| && space.index <= space.capacity
    ensures MemberUses(DecodeMember(b[..m], base, space, want, strtod), space, want, RawMember(b[..m]))
    ensures MemberLen(b[..m]) == KvLen(b)
    decreases |b|, 1
  {
    hide Val, KvLen, StrLen, WsLen, Decode, RawOf;
    var c := b[..m];
    KvPieces(b, m);
    var n := StrLen(b) + WsLen(b[StrLen(b)..]);
    KeyDecodes(c, base, space, strtod);
    KeyMemory(c, base, space, strtod);
    var key := Decode(c, base, space, true, strtod);
    if key.Good? {
      DecodeMemory(c[n + 1..], base + n + 1, key.space, want, strtod);
    }
  }

  lemma {:induction false} RawPairsSkip(s: bytes, k: nat)
    requires k > 0
    ensures RawPairs(s, k) == RawPairs(s[WsLen(s)..], k)
  {
    hide WsLen, MemberLen, RawMember, RawPairs;
    var w, n := WsLen(s), MemberLen(s[WsLen(s)..]);
    MemberRawSkip(s);
    RawPairsIs(s, k);
    RawPairsIs(s[w..], k);
    if n > 0 && ByteAt(s[w..], n, 0x2C) {
      assert s[w..][n + 1..] == s[w + n + 1..];
    }
  }

  lemma {:induction false} RawPairsIs(s: bytes, k: nat)
    requires k > 0
    ensures var n := MemberLen(s);
            RawPairs(s, k) ==
            if k == 1 || n == 0 || !ByteAt(s, n, 0x2C) then RawMember(s) else Plus(RawMember(s), RawPairs(s[n + 1..], k - 1))
  {
    hide MemberLen, RawMember;
  }

  lemma {:induction false} MemberRawSkip(s: bytes)
    ensures var t := s[WsLen(s)..];
            RawMember(s) == RawMember(t) && MemberLen(s) == if MemberLen(t) == 0 then 0 else WsLen(s) + MemberLen(t)
  {
    hide Val, WsLen, RawOf;
    var w := WsLen(s);
    ValSkip(s);
    if Val(s[w..]).Some? {
      var n := Val(s[w..]).value.n;
      if ByteAt(s[w..], n, 0x3A) {
        assert s[w..][n + 1..] == s[w + n + 1..];
      }
    }
  }

  lemma {:induction false} PairsMemory(b: bytes, base: nat, space: Space, want: bool, strtod: Strtod)
    requires Members(b).Some? && space.index <= space.capacity
    ensures var e := Members(b).value;
            PairsUse(DecodePairs(b[..e.n], base, e.count, space, want, strtod), space, want, RawPairs(b[..e.n], e.count))
    decreases |b|, 2
  {
    hide KvLen, WsLen, DecodeMember, KvCommaLen, RawMember, MemberLen;
    var e, k, w := Members(b).value, KvLen(b), KvCommaLen(b);
    var c := b[..e.n];
    KvCommaReaches(b);
    MemberAgrees(b, e.n, base, space, want, strtod);
    MemberMemory(b, e.n, base, space, want, strtod);
    var r := DecodeMember(c, base, space, want, strtod);
    if w > 0 {
      CommaPieces(b, e.n);
      RawPairsSkip(c[k + 1..], e.count - 1);
      MemoryPlus(RawMember(c), RawPairs(c[k + 1..], e.count - 1));
      if r.GoodMember? {
        PairsSkip(c[k + 1..], base + k + 1, e.count - 1, r.space, want, strtod);
        PairsMemory(b[w..], base + w, r.space, want, strtod);
      }
    }
  }

  lemma {:induction false} NothingToDecode(s: bytes, base: nat, space: Space, want: bool, strtod: Strtod)
    ensures Val(s).None? ==> Decode(s, base, space, want, strtod) == Bad(NoValue)
  {
    hide Val;
  }

  /**
   Arena use of a document: on success exactly one GgObject per element and one GgKV per raw member;
   NOMEM only if that does not fit; the caller's arena untouched on any error.
   */
  lemma {:induction false} DocumentMemory(s: bytes, base: nat, space: Space, strtod: Strtod)
    requires space.index <= space.capacity
    ensures var d := DecodeDocument(s, base, space, true, strtod); var cost := Memory(RawOf(s));
            && (d.ret == Ok ==> d.space == space.(index := space.index + cost) && cost <= Free(space))
            && (d.ret == NoMem ==> cost > Free(space))
            && (d.ret != Ok ==> d.space == space)
            && cost <= OBJECT_SIZE * Subobjects(RawOf(s))
  {
    hide Val, Decode, RawOf, Memory, Subobjects;
    MemoryBound(RawOf(s));
    NothingToDecode(s, base, space, true, strtod);
    if Val(s).Some? {
      DecodeMemory(s, base, space, true, strtod);
    }
  }

  /** The receive arena of the IPC client holds 255 objects: a document within the visitor's limit always fits. */
  lemma {:induction false} ReceiveArenaSuffices(s: bytes, base: nat, strtod: Strtod)
    requires Subobjects(RawOf(s)) <= MAX_SUBOBJECTS
    ensures DecodeDocument(s, base, Space(0, MAX_SUBOBJECTS * OBJECT_SIZE), true, strtod).ret != NoMem
  {
    DocumentMemory(s, base, Space(0, MAX_SUBOBJECTS * OBJECT_SIZE), strtod);
  }
}
