/**
 Arena allocation and copying trees into an arena (src/arena.c), against measuring them
 (gg_obj_mem_usage in src/object.c).
 */
module Arena {
  import opened Common
  import opened Objects
  import opened Visitor
  import opened VisitTheorems

  // ---------- allocation ----------

  /** Memory at the addresses base..base + capacity, of which the first `index` bytes are in use. */
  datatype Region = Region(base: nat, capacity: nat, index: nat)

  predicate RegionOk(a: Region) {
    0 < a.base && a.index <= a.capacity <= UINT32_MAX
  }

  function Free(a: Region): int {
    a.capacity - a.index
  }

  function Taken(a: Region, n: nat): Region {
    a.(index := a.index + n)
  }

  /** gg_arena_owns. */
  predicate Owns(a: Region, at: nat) {
    a.base <= at < a.base + a.capacity
  }

  /** Padding to a power of two; the remainder is what the mask computes. */
  function Pad(index: nat, alignment: nat): (p: nat)
    requires alignment > 0
    ensures p < alignment && (index + p) % alignment == 0
  {
    var m := index % alignment;
    if m == 0 then 0 else
      assert (index + (alignment - m)) % alignment == 0 by { Aligned(index, alignment); }
      alignment - m
  }

  lemma Aligned(index: nat, alignment: nat)
    requires alignment > 0
    ensures (index + (alignment - index % alignment)) % alignment == 0
  {
    var q, m := index / alignment, index % alignment;
    assert index + (alignment - m) == (q + 1) * alignment;
    assert ((q + 1) * alignment) % alignment == 0 by { MultipleOf(q + 1, alignment); }
  }

  lemma Product(d: int, n: int)
    requires n > 0
    ensures d >= 1 ==> d * n >= n
    ensures d <= -1 ==> d * n <= -n
  {
  }

  lemma MultipleOf(k: int, n: int)
    requires n > 0
    ensures (k * n) % n == 0
  {
    var x := k * n;
    var q, r := x / n, x % n;
    assert x == q * n + r;
    assert (k - q) * n == r;
    Product(k - q, n);
  }

  /** gg_arena_alloc: where the allocation begins, if padding and size fit. */
  function Alloc(a: Region, size: nat, alignment: nat): Option<nat>
    requires alignment > 0
  {
    var pad := Pad(a.index, alignment);
    if pad > Free(a) || size > Free(a) - pad then None else Some(a.base + a.index + pad)
  }

  /** The arena as the allocator's callers see it. */
  class Bump {
    const base: nat
    const capacity: nat
    var index: nat

    ghost predicate Valid()
      reads this
    {
      RegionOk(View())
    }

    ghost function View(): Region
      reads this
    {
      Region(base, capacity, index)
    }

    constructor (at: nat, size: nat)
      requires 0 < at && size <= UINT32_MAX
      ensures Valid() && View() == Region(at, size, 0)
    {
      base, capacity, index := at, size, 0;
    }

    /** A new allocation is aligned, begins at or after everything allocated, and ends where the arena is used up to. */
    method Allocate(size: nat, alignment: nat) returns (at: Option<nat>)
      requires Valid() && alignment > 0
      modifies this
      ensures Valid() && at == Alloc(old(View()), size, alignment)
      ensures at == None ==> index == old(index)
      ensures at.Some? ==> base + old(index) <= at.value && at.value + size == base + index && (at.value - base) % alignment == 0
    {
      var pad := Pad(index, alignment);
      if pad > capacity - index {
        return None;
      }
      var start := index + pad;
      if size > capacity - start {
        return None;
      }
      index := start + size;
      return Some(base + start);
    }

    /** gg_arena_resize_last: only the allocation that ends at the index can change its size. */
    method ResizeLast(at: nat, oldSize: nat, size: nat) returns (ret: Error)
      requires Valid()
      modifies this
      ensures Valid()
      ensures ret == Ok <==> Owns(old(View()), at) && at + oldSize == base + old(index) && at + size <= base + capacity
      ensures ret == NoMem <==> Owns(old(View()), at) && at + oldSize == base + old(index) && at + size > base + capacity
      ensures ret != Ok ==> index == old(index) && (ret == NoMem || ret == Invalid)
      ensures ret == Ok ==> base + index == at + size
    {
      if !(base <= at < base + capacity) {
        return Invalid;
      }
      var start := at - base;
      if start > index {
        return Invalid;
      }
      if index - start != oldSize {
        return Invalid;
      }
      if size > capacity - start {
        return NoMem;
      }
      index := start + size;
      ret := Ok;
    }
  }

  // ---------- measuring ----------

  /** What a copy of the tree takes. */
  function Usage(o: Obj): nat
    decreases o, 1
  {
    match o
    case Buf(_, bytes) => |bytes|
    case List(_, items) => ObjectBytes(|items|) + UsageItems(items)
    case Map(_, pairs) => PairBytes(|pairs|) + UsagePairs(pairs)
    case _ => 0
  }

  function UsageItems(items: seq<Obj>): nat
    decreases items, 0
  {
    if items == [] then 0 else Usage(items[0]) + UsageItems(items[1..])
  }

  function UsagePairs(pairs: seq<KV>): nat
    decreases pairs, 0
  {
    if pairs == [] then 0 else |pairs[0].key| + Usage(pairs[0].val) + UsagePairs(pairs[1..])
  }

  function EventUsage(e: Event): nat {
    match e
    case OnBuf(_, bytes) => |bytes|
    case OnList(_, items) => ObjectBytes(|items|)
    case OnMap(_, pairs) => PairBytes(|pairs|)
    case OnMapKey(_, key) => |key|
    case _ => 0
  }

  /** The handlers of gg_obj_mem_usage. */
  function Measure(n: nat, e: Event): Reply<nat> {
    Reply(n + EventUsage(e), Ok, e)
  }

  function Total(events: seq<Event>): nat {
    if events == [] then 0 else EventUsage(events[0]) + Total(events[1..])
  }

  lemma {:induction false} TotalConcat(a: seq<Event>, b: seq<Event>)
    ensures Total(a + b) == Total(a) + Total(b)
    decreases |a|
  {
    hide EventUsage;
    if a == [] {
      assert a + b == b;
    } else {
      assert (a + b)[0] == a[0] && (a + b)[1..] == a[1..] + b;
      TotalConcat(a[1..], b);
    }
  }

  lemma TotalOne(e: Event)
    ensures Total([e]) == EventUsage(e)
  {
    hide EventUsage;
    assert [e][1..] == [];
  }

  lemma {:induction false} MeasureReplay(n: nat, events: seq<Event>)
    ensures Replay(Measure, n, events) == Replayed(n + Total(events), Ok)
    decreases |events|
  {
    hide EventUsage;
    if events != [] {
      MeasureReplay(n + EventUsage(events[0]), events[1..]);
    }
  }

  lemma {:induction false} TotalIsUsage(o: Obj)
    ensures Total(Events(o)) == Usage(o)
    decreases o, 1
  {
    hide Total, ObjectBytes, PairBytes;
    if o.List? {
      TotalConcat([OnList(o.at, o.items)], ItemEvents(o.items, 0));
      TotalOne(OnList(o.at, o.items));
      TotalItems(o.items, 0);
      assert o.items[0..] == o.items;
    } else if o.Map? {
      TotalConcat([OnMap(o.at, o.pairs)], PairEvents(o.pairs, 0));
      TotalOne(OnMap(o.at, o.pairs));
      TotalPairs(o.pairs, 0);
      assert o.pairs[0..] == o.pairs;
    } else {
      TotalOne(if o.Buf? then OnBuf(o.at, o.bytes) else Scalar(o));
    }
  }

  lemma TotalSeparator(i: nat, e: Event)
    requires e == ContList || e == ContMap
    ensures Total(Separator(i, e)) == 0
  {
    if i > 0 {
      TotalOne(e);
    }
  }

  lemma {:induction false} TotalItems(items: seq<Obj>, i: nat)
    requires i <= |items|
    ensures Total(ItemEvents(items, i)) == UsageItems(items[i..])
    decreases items, 0, |items| - i
  {
    hide Total, Usage, Events, Separator;
    if i == |items| {
      TotalOne(EndList);
    } else {
      assert items[i..][0] == items[i] && items[i..][1..] == items[i + 1..];
      var a, b := Separator(i, ContList), Events(items[i]);
      TotalSeparator(i, ContList);
      TotalIsUsage(items[i]);
      TotalItems(items, i + 1);
      TotalConcat(a, b);
      TotalConcat(a + b, ItemEvents(items, i + 1));
    }
  }

  lemma {:induction false} TotalPairs(pairs: seq<KV>, i: nat)
    requires i <= |pairs|
    ensures Total(PairEvents(pairs, i)) == UsagePairs(pairs[i..])
    decreases pairs, 0, |pairs| - i
  {
    hide Total, Usage, Events, Separator;
    if i == |pairs| {
      TotalOne(EndMap);
    } else {
      assert pairs[i].val < pairs[i];
      assert pairs[i..][0] == pairs[i] && pairs[i..][1..] == pairs[i + 1..];
      var a, k, b := Separator(i, ContMap), OnMapKey(pairs[i].keyAt, pairs[i].key), Events(pairs[i].val);
      TotalSeparator(i, ContMap);
      TotalOne(k);
      TotalIsUsage(pairs[i].val);
      TotalPairs(pairs, i + 1);
      TotalConcat(a, [k]);
      TotalConcat(a + [k], b);
      TotalConcat(a + [k] + b, PairEvents(pairs, i + 1));
    }
  }

  /** gg_obj_mem_usage. */
  method MemUsage(o: Obj) returns (ret: Error, size: nat)
    ensures ret == if WithinLimits(o) then Ok else Range
    ensures ret == Ok ==> size == Usage(o)
  {
    hide Replay, VisitObj, Usage, Events, WithinLimits, Total;
    var obj;
    ret, size, obj := VisitLoop(Measure, o, 0);
    ghost var seen := VisitIsReplay(Measure, o, 0);
    MeasureReplay(0, seen);
    TotalIsUsage(o);
  }

  // ---------- claiming ----------

  /** gg_arena_claim_buf, claim_list and claim_map: where the memory moves to, and the arena after. */
  datatype Move = Move(a: Region, at: nat, ret: Error)

  function Claim(a: Region, at: nat, size: nat): Move {
    if Owns(a, at) then Move(a, at, Ok)
    else if size == 0 then Move(a, 0, Ok)
    else match Alloc(a, size, 1)
      case None => Move(a, at, NoMem)
      case Some(new_at) => Move(Taken(a, size), new_at, Ok)
  }

  function Claimer(a: Region, e: Event): Reply<Region> {
    match e
    case OnBuf(at, bytes) => var m := Claim(a, at, |bytes|); Reply(m.a, m.ret, OnBuf(m.at, bytes))
    case OnList(at, items) => var m := Claim(a, at, ObjectBytes(|items|)); Reply(m.a, m.ret, OnList(m.at, items))
    case OnMap(at, pairs) => var m := Claim(a, at, PairBytes(|pairs|)); Reply(m.a, m.ret, OnMap(m.at, pairs))
    case OnMapKey(at, key) => var m := Claim(a, at, |key|); Reply(m.a, m.ret, OnMapKey(m.at, key))
    case _ => Reply(a, Ok, e)
  }

  lemma ClaimerIsTame()
    ensures Tame(Claimer)
  {
    hide Claim;
  }

  /** What has to be allocated for one reference: nothing if its memory is already the arena's. */
  function SizeFor(own: Region, at: nat, size: nat): nat {
    if Owns(own, at) then 0 else size
  }

  /** What has to be allocated to claim a tree for the arena `own`. */
  function Wanted(own: Region, o: Obj): nat
    decreases o, 1
  {
    match o
    case Buf(at, bytes) => SizeFor(own, at, |bytes|)
    case List(at, items) => SizeFor(own, at, ObjectBytes(|items|)) + WantedItems(own, items)
    case Map(at, pairs) => SizeFor(own, at, PairBytes(|pairs|)) + WantedPairs(own, pairs)
    case _ => 0
  }

  function WantedItems(own: Region, items: seq<Obj>): nat
    decreases items, 0
  {
    if items == [] then 0 else Wanted(own, items[0]) + WantedItems(own, items[1..])
  }

  function WantedKV(own: Region, kv: KV): nat
    decreases kv, 0
  {
    SizeFor(own, kv.keyAt, |kv.key|) + Wanted(own, kv.val)
  }

  function WantedPairs(own: Region, pairs: seq<KV>): nat
    decreases pairs, 0
  {
    if pairs == [] then 0 else WantedKV(own, pairs[0]) + WantedPairs(own, pairs[1..])
  }

  /** Where something of that size goes if the next free address is `at`. */
  function Place(at: nat, size: nat): nat {
    if size == 0 then 0 else at
  }

  /** A reference keeps its address if it is the arena's and is otherwise placed at `at`. */
  function Moved(own: Region, was: nat, at: nat, size: nat): nat {
    if Owns(own, was) then was else Place(at, size)
  }

  /** The tree with what is not yet the arena's laid out from address `at` on. */
  function Laid(own: Region, o: Obj, at: nat): Obj
    decreases o, 1
  {
    match o
    case Buf(was, bytes) => Buf(Moved(own, was, at, |bytes|), bytes)
    case List(was, items) =>
      var n := ObjectBytes(|items|);
      List(Moved(own, was, at, n), LaidItems(own, items, at + SizeFor(own, was, n)))
    case Map(was, pairs) =>
      var n := PairBytes(|pairs|);
      Map(Moved(own, was, at, n), LaidPairs(own, pairs, at + SizeFor(own, was, n)))
    case _ => o
  }

  function LaidItems(own: Region, items: seq<Obj>, at: nat): (r: seq<Obj>)
    ensures |r| == |items|
    decreases items, 0
  {
    if items == [] then [] else [Laid(own, items[0], at)] + LaidItems(own, items[1..], at + Wanted(own, items[0]))
  }

  function LaidKV(own: Region, kv: KV, at: nat): KV
    decreases kv, 0
  {
    var n := |kv.key|;
    KV(Moved(own, kv.keyAt, at, n), kv.key, Laid(own, kv.val, at + SizeFor(own, kv.keyAt, n)))
  }

  function LaidPairs(own: Region, pairs: seq<KV>, at: nat): (r: seq<KV>)
    ensures |r| == |pairs|
    decreases pairs, 0
  {
    if pairs == [] then [] else [LaidKV(own, pairs[0], at)] + LaidPairs(own, pairs[1..], at + WantedKV(own, pairs[0]))
  }

  /** The same memory, however much of it is used. */
  predicate SameMemory(own: Region, a: Region) {
    own.base == a.base && own.capacity == a.capacity
  }

  lemma ClaimIs(own: Region, a: Region, at: nat, size: nat)
    requires RegionOk(a) && SameMemory(own, a)
    ensures var n := SizeFor(own, at, size);
            Claim(a, at, size) ==
            if n > Free(a) then Move(a, at, NoMem) else Move(Taken(a, n), Moved(own, at, a.base + a.index, size), Ok)
  {
    assert Pad(a.index, 1) == 0;
  }

  /** Within limits a claim succeeds exactly if there is room, takes exactly what is wanted, and lays the tree out. */
  ghost predicate ClaimGives(v: Visit<Region>, fits: bool, wanted: nat, a: Region, count: nat, obj: Obj) {
    if fits && wanted <= Free(a) then v == Done(Taken(a, wanted), count, obj)
    else v.Fail? && (v.err == NoMem || v.err == Range) && (fits ==> v.err == NoMem)
  }

  lemma {:induction false} ClaimVisit(own: Region, o: Obj, depth: nat, a: Region, count: nat)
    requires Tame(Claimer) && RegionOk(a) && SameMemory(own, a) && depth < MAX_DEPTH && count <= MAX_SUBOBJECTS
    ensures ClaimGives(VisitObj(Claimer, o, depth, a, count),
                       depth + Depth(o) <= MAX_DEPTH && count + Count(o) <= MAX_SUBOBJECTS,
                       Wanted(own, o), a, count + Count(o), Laid(own, o, a.base + a.index))
    decreases o, 1
  {
    hide VisitItems, VisitPairs, Claim, WantedItems, WantedPairs, ObjectBytes, PairBytes, SizeFor, Moved, Owns;
    hide LaidItems, LaidPairs, DepthItems, DepthPairs, CountItems, CountPairs;
    if o.List? {
      var n := ObjectBytes(|o.items|);
      var m := SizeFor(own, o.at, n);
      ClaimIs(own, a, o.at, n);
      if |o.items| <= MAX_SUBOBJECTS - count && m <= Free(a) {
        assert o.items[0..] == o.items && o.items[..0] == [];
        ClaimItems(own, Moved(own, o.at, a.base + a.index, n), o.items, 0, depth, Taken(a, m), count + |o.items|);
        NothingBefore(LaidItems(own, o.items, a.base + a.index + m), []);
      }
    } else if o.Map? {
      var n := PairBytes(|o.pairs|);
      var m := SizeFor(own, o.at, n);
      ClaimIs(own, a, o.at, n);
      if |o.pairs| <= (MAX_SUBOBJECTS - count) / 2 && m <= Free(a) {
        assert o.pairs[0..] == o.pairs && o.pairs[..0] == [];
        ClaimPairs(own, Moved(own, o.at, a.base + a.index, n), o.pairs, 0, depth, Taken(a, m), count + 2 * |o.pairs|);
        NothingBefore([], LaidPairs(own, o.pairs, a.base + a.index + m));
      }
    } else if o.Buf? {
      ClaimIs(own, a, o.at, |o.bytes|);
    }
  }

  lemma NothingBefore(items: seq<Obj>, pairs: seq<KV>)
    ensures [] + items == items && [] + pairs == pairs
  {
  }

  lemma {:induction false} ItemVisited(at: nat, items: seq<Obj>, i: nat, depth: nat, a: Region, count: nat)
    requires Tame(Claimer) && depth < MAX_DEPTH && count <= MAX_SUBOBJECTS && i < |items|
    ensures VisitItems(Claimer, at, items, i, depth, a, count) ==
            if depth + 1 == MAX_DEPTH then Fail(a, Range)
            else
              var v := VisitObj(Claimer, items[i], depth + 1, a, count);
              if v.Fail? then v else VisitItems(Claimer, at, items[i := v.obj], i + 1, depth, v.ctx, v.count)
  {
    hide VisitObj, Claim;
  }

  lemma {:induction false} ClaimItems(own: Region, at: nat, items: seq<Obj>, i: nat, depth: nat, a: Region, count: nat)
    requires Tame(Claimer) && RegionOk(a) && SameMemory(own, a)
    requires depth < MAX_DEPTH && count <= MAX_SUBOBJECTS && i <= |items|
    ensures ClaimGives(VisitItems(Claimer, at, items, i, depth, a, count), ItemsFit(items, i, depth, count),
                       WantedItems(own, items[i..]), a, count + CountItems(items[i..]),
                       List(at, items[..i] + LaidItems(own, items[i..], a.base + a.index)))
    decreases items[i..], 0
  {
    hide VisitObj, VisitItems, Wanted, Laid, Depth, Count;
    if i == |items| {
      assert items[..i] + [] == items;
      VisitEnds(at, items, [], depth, a, count);
    } else {
      var x, rest := items[i], items[i + 1..];
      assert items[i..][0] == x && items[i..][1..] == rest;
      DepthPositive(x);
      ItemVisited(at, items, i, depth, a, count);
      if depth + 1 < MAX_DEPTH {
        ClaimVisit(own, x, depth + 1, a, count);
        var v := VisitObj(Claimer, x, depth + 1, a, count);
        if v.Done? {
          var next := items[i := v.obj];
          assert next[i + 1..] == rest && next[..i + 1] == items[..i] + [v.obj];
          ClaimItems(own, at, next, i + 1, depth, v.ctx, v.count);
          var laid := LaidItems(own, rest, a.base + a.index + Wanted(own, x));
          assert items[..i] + [v.obj] + laid == items[..i] + ([v.obj] + laid);
        }
      }
    }
  }

  lemma DepthPositive(o: Obj)
    ensures Depth(o) >= 1
  {
  }

  lemma {:induction false} PairVisited(at: nat, pairs: seq<KV>, i: nat, depth: nat, a: Region, count: nat)
    requires Tame(Claimer) && depth < MAX_DEPTH && count <= MAX_SUBOBJECTS && i < |pairs|
    ensures var kv := pairs[i]; var m := Claim(a, kv.keyAt, |kv.key|);
            VisitPairs(Claimer, at, pairs, i, depth, a, count) ==
            if m.ret != Ok then Fail(m.a, m.ret)
            else if depth + 1 == MAX_DEPTH then Fail(m.a, Range)
            else
              var v := VisitObj(Claimer, kv.val, depth + 1, m.a, count);
              if v.Fail? then v
              else VisitPairs(Claimer, at, pairs[i := KV(m.at, kv.key, v.obj)], i + 1, depth, v.ctx, v.count)
  {
    hide VisitObj, Claim;
  }

  lemma {:induction false} VisitEnds(at: nat, items: seq<Obj>, pairs: seq<KV>, depth: nat, a: Region, count: nat)
    requires Tame(Claimer) && depth < MAX_DEPTH && count <= MAX_SUBOBJECTS
    ensures VisitItems(Claimer, at, items, |items|, depth, a, count) == Done(a, count, List(at, items))
    ensures VisitPairs(Claimer, at, pairs, |pairs|, depth, a, count) == Done(a, count, Map(at, pairs))
  {
  }

  lemma {:induction false} ClaimPairs(own: Region, at: nat, pairs: seq<KV>, i: nat, depth: nat, a: Region, count: nat)
    requires Tame(Claimer) && RegionOk(a) && SameMemory(own, a)
    requires depth < MAX_DEPTH && count <= MAX_SUBOBJECTS && i <= |pairs|
    ensures ClaimGives(VisitPairs(Claimer, at, pairs, i, depth, a, count), PairsFit(pairs, i, depth, count),
                       WantedPairs(own, pairs[i..]), a, count + CountPairs(pairs[i..]),
                       Map(at, pairs[..i] + LaidPairs(own, pairs[i..], a.base + a.index)))
    decreases pairs[i..], 0
  {
    hide VisitObj, VisitPairs, Wanted, Laid, Depth, Count, Claim, SizeFor, Moved, Owns;
    if i == |pairs| {
      assert pairs[..i] + [] == pairs;
      VisitEnds(at, [], pairs, depth, a, count);
    } else {
      PairVisited(at, pairs, i, depth, a, count);
      var kv, rest := pairs[i], pairs[i + 1..];
      var m := SizeFor(own, kv.keyAt, |kv.key|);
      assert pairs[i..][0] == kv && pairs[i..][1..] == rest;
      DepthPositive(kv.val);
      ClaimIs(own, a, kv.keyAt, |kv.key|);
      if depth + 1 < MAX_DEPTH && m <= Free(a) {
        var a1 := Taken(a, m);
        ClaimVisit(own, kv.val, depth + 1, a1, count);
        var v := VisitObj(Claimer, kv.val, depth + 1, a1, count);
        if v.Done? {
          var kv1 := LaidKV(own, kv, a.base + a.index);
          var next := pairs[i := kv1];
          assert next[i + 1..] == rest && next[..i + 1] == pairs[..i] + [kv1];
          ClaimPairs(own, at, next, i + 1, depth, v.ctx, v.count);
          var laid := LaidPairs(own, rest, a.base + a.index + WantedKV(own, kv));
          assert pairs[..i] + [kv1] + laid == pairs[..i] + ([kv1] + laid);
        }
      }
    }
  }

  // ---------- the copy ----------

  lemma {:induction false} LaidContent(own: Region, o: Obj, at: nat)
    ensures Erase(Laid(own, o, at)) == Erase(o)
    decreases o, 1
  {
    hide EraseItems, ErasePairs, LaidItems, LaidPairs, ObjectBytes, PairBytes, Moved, SizeFor;
    if o.List? {
      LaidItemsContent(own, o.items, at + SizeFor(own, o.at, ObjectBytes(|o.items|)));
    } else if o.Map? {
      LaidPairsContent(own, o.pairs, at + SizeFor(own, o.at, PairBytes(|o.pairs|)));
    }
  }

  lemma {:induction false} LaidItemsContent(own: Region, items: seq<Obj>, at: nat)
    ensures EraseItems(LaidItems(own, items, at)) == EraseItems(items)
    decreases items, 0
  {
    hide Erase, Laid, Wanted;
    if items != [] {
      var next := at + Wanted(own, items[0]);
      LaidContent(own, items[0], at);
      LaidItemsContent(own, items[1..], next);
      assert LaidItems(own, items, at)[1..] == LaidItems(own, items[1..], next);
    }
  }

  lemma {:induction false} LaidPairsContent(own: Region, pairs: seq<KV>, at: nat)
    ensures ErasePairs(LaidPairs(own, pairs, at)) == ErasePairs(pairs)
    decreases pairs, 0
  {
    hide Erase, Laid, WantedKV, Moved, SizeFor;
    if pairs != [] {
      var next := at + WantedKV(own, pairs[0]);
      LaidContent(own, pairs[0].val, at + SizeFor(own, pairs[0].keyAt, |pairs[0].key|));
      LaidPairsContent(own, pairs[1..], next);
      assert LaidPairs(own, pairs, at)[1..] == LaidPairs(own, pairs[1..], next);
    }
  }

  /** A piece of memory that a reference of a tree points to. */
  datatype Span = Span(at: nat, len: nat)

  /** The memory that a reference was given: none if it is empty or was the arena's before. */
  function SpanOf(own: Region, was: nat, at: nat, len: nat): seq<Span> {
    if len == 0 || Owns(own, was) then [] else [Span(at, len)]
  }

  /** The memory of all references of the tree that had none in the arena, where `r` is the tree after the claim. */
  function Spans(own: Region, o: Obj, r: Obj): seq<Span>
    decreases o, 1
  {
    if o.Buf? && r.Buf? then SpanOf(own, o.at, r.at, |o.bytes|)
    else if o.List? && r.List? then SpanOf(own, o.at, r.at, ObjectBytes(|o.items|)) + SpansOfItems(own, o.items, r.items)
    else if o.Map? && r.Map? then SpanOf(own, o.at, r.at, PairBytes(|o.pairs|)) + SpansOfPairs(own, o.pairs, r.pairs)
    else []
  }

  function SpansOfItems(own: Region, items: seq<Obj>, r: seq<Obj>): seq<Span>
    decreases items, 0
  {
    if items == [] || r == [] then [] else Spans(own, items[0], r[0]) + SpansOfItems(own, items[1..], r[1..])
  }

  function SpansOfPairs(own: Region, pairs: seq<KV>, r: seq<KV>): seq<Span>
    decreases pairs, 0
  {
    if pairs == [] || r == [] then []
    else
      SpanOf(own, pairs[0].keyAt, r[0].keyAt, |pairs[0].key|) + Spans(own, pairs[0].val, r[0].val)
      + SpansOfPairs(own, pairs[1..], r[1..])
  }

  /** The spans follow each other without gap or overlap from `lo` to `hi`. */
  predicate Tiles(spans: seq<Span>, lo: nat, hi: nat) {
    if spans == [] then lo == hi
    else spans[0].at == lo && spans[0].len > 0 && Tiles(spans[1..], lo + spans[0].len, hi)
  }

  lemma {:induction false} TilesConcat(a: seq<Span>, b: seq<Span>, lo: nat, mid: nat, hi: nat)
    requires Tiles(a, lo, mid) && Tiles(b, mid, hi)
    ensures Tiles(a + b, lo, hi)
    decreases |a|
  {
    if a == [] {
      assert a + b == b;
    } else {
      assert (a + b)[0] == a[0] && (a + b)[1..] == a[1..] + b;
      TilesConcat(a[1..], b, lo + a[0].len, mid, hi);
    }
  }

  /** Tiles lie within their bounds and each ends before the next begins. */
  lemma {:induction false} TilesDisjoint(spans: seq<Span>, lo: nat, hi: nat, i: nat, j: nat)
    requires Tiles(spans, lo, hi) && i <= j < |spans|
    ensures lo <= spans[i].at && spans[j].at + spans[j].len <= hi && spans[j].len > 0
    ensures i < j ==> spans[i].at + spans[i].len <= spans[j].at
    decreases |spans|
  {
    if j > 0 {
      TilesDisjoint(spans[1..], lo + spans[0].len, hi, if i == 0 then 0 else i - 1, j - 1);
    } else {
      TilesBounds(spans[1..], lo + spans[0].len, hi);
    }
  }

  lemma {:induction false} TilesBounds(spans: seq<Span>, lo: nat, hi: nat)
    requires Tiles(spans, lo, hi)
    ensures lo <= hi
    decreases |spans|
  {
    if spans != [] {
      TilesBounds(spans[1..], lo + spans[0].len, hi);
    }
  }

  lemma TilesOne(own: Region, was: nat, at: nat, len: nat)
    ensures Tiles(SpanOf(own, was, Moved(own, was, at, len), len), at, at + SizeFor(own, was, len))
  {
    if len > 0 && !Owns(own, was) {
      assert [Span(at, len)][1..] == [];
    }
  }

  lemma TilesNone(at: nat)
    ensures Tiles([], at, at)
  {
  }

  lemma {:induction false} LaidTiles(own: Region, o: Obj, at: nat)
    ensures Tiles(Spans(own, o, Laid(own, o, at)), at, at + Wanted(own, o))
    decreases o, 1
  {
    hide Tiles, ObjectBytes, PairBytes, SpanOf, Moved, SizeFor, SpansOfItems, SpansOfPairs, LaidItems, LaidPairs;
    if o.List? {
      var n := ObjectBytes(|o.items|);
      var next := at + SizeFor(own, o.at, n);
      TilesOne(own, o.at, at, n);
      LaidItemsTile(own, o.items, next);
      TilesConcat(SpanOf(own, o.at, Moved(own, o.at, at, n), n), SpansOfItems(own, o.items, LaidItems(own, o.items, next)),
                  at, next, at + Wanted(own, o));
    } else if o.Map? {
      var n := PairBytes(|o.pairs|);
      var next := at + SizeFor(own, o.at, n);
      TilesOne(own, o.at, at, n);
      LaidPairsTile(own, o.pairs, next);
      TilesConcat(SpanOf(own, o.at, Moved(own, o.at, at, n), n), SpansOfPairs(own, o.pairs, LaidPairs(own, o.pairs, next)),
                  at, next, at + Wanted(own, o));
    } else if o.Buf? {
      TilesOne(own, o.at, at, |o.bytes|);
    } else {
      TilesNone(at);
    }
  }

  lemma {:induction false} LaidItemsTile(own: Region, items: seq<Obj>, at: nat)
    ensures Tiles(SpansOfItems(own, items, LaidItems(own, items, at)), at, at + WantedItems(own, items))
    decreases items, 0
  {
    hide Tiles, Spans, Laid, Wanted;
    if items == [] {
      TilesNone(at);
    } else {
      var x := Laid(own, items[0], at);
      var next := at + Wanted(own, items[0]);
      var rest := LaidItems(own, items[1..], next);
      assert LaidItems(own, items, at)[0] == x && LaidItems(own, items, at)[1..] == rest;
      LaidTiles(own, items[0], at);
      LaidItemsTile(own, items[1..], next);
      TilesConcat(Spans(own, items[0], x), SpansOfItems(own, items[1..], rest), at, next, at + WantedItems(own, items));
    }
  }

  lemma {:induction false} LaidPairsTile(own: Region, pairs: seq<KV>, at: nat)
    ensures Tiles(SpansOfPairs(own, pairs, LaidPairs(own, pairs, at)), at, at + WantedPairs(own, pairs))
    decreases pairs, 0
  {
    hide Tiles, Spans, Laid, Wanted, SpanOf, Moved, SizeFor;
    if pairs == [] {
      TilesNone(at);
    } else {
      var kv := pairs[0];
      var n := |kv.key|;
      var r := LaidKV(own, kv, at);
      var mid, next := at + SizeFor(own, kv.keyAt, n), at + WantedKV(own, kv);
      var rest := LaidPairs(own, pairs[1..], next);
      assert LaidPairs(own, pairs, at)[0] == r && LaidPairs(own, pairs, at)[1..] == rest;
      TilesOne(own, kv.keyAt, at, n);
      LaidTiles(own, kv.val, mid);
      LaidPairsTile(own, pairs[1..], next);
      var a, b := SpanOf(own, kv.keyAt, r.keyAt, n), Spans(own, kv.val, r.val);
      TilesConcat(a, b, at, mid, next);
      TilesConcat(a + b, SpansOfPairs(own, pairs[1..], rest), at, next, at + WantedPairs(own, pairs));
    }
  }

  // ---------- trees with no memory in the arena, and trees with no other ----------

  /** No reference of the tree points into the arena. */
  predicate Foreign(own: Region, o: Obj)
    decreases o, 1
  {
    match o
    case Buf(at, _) => !Owns(own, at)
    case List(at, items) => !Owns(own, at) && ForeignItems(own, items)
    case Map(at, pairs) => !Owns(own, at) && ForeignPairs(own, pairs)
    case _ => true
  }

  predicate ForeignItems(own: Region, items: seq<Obj>)
    decreases items, 0
  {
    items == [] || (Foreign(own, items[0]) && ForeignItems(own, items[1..]))
  }

  predicate ForeignPairs(own: Region, pairs: seq<KV>)
    decreases pairs, 0
  {
    pairs == [] || (!Owns(own, pairs[0].keyAt) && Foreign(own, pairs[0].val) && ForeignPairs(own, pairs[1..]))
  }

  /** For such a tree what is wanted is what gg_obj_mem_usage measures. */
  lemma {:induction false} ForeignWantsAll(own: Region, o: Obj)
    requires Foreign(own, o)
    ensures Wanted(own, o) == Usage(o)
    decreases o, 1
  {
    hide Owns, ObjectBytes, PairBytes;
    if o.List? {
      ForeignItemsWantAll(own, o.items);
    } else if o.Map? {
      ForeignPairsWantAll(own, o.pairs);
    }
  }

  lemma {:induction false} ForeignItemsWantAll(own: Region, items: seq<Obj>)
    requires ForeignItems(own, items)
    ensures WantedItems(own, items) == UsageItems(items)
    decreases items, 0
  {
    hide Foreign, Wanted, Usage;
    if items != [] {
      ForeignWantsAll(own, items[0]);
      ForeignItemsWantAll(own, items[1..]);
    }
  }

  lemma {:induction false} ForeignPairsWantAll(own: Region, pairs: seq<KV>)
    requires ForeignPairs(own, pairs)
    ensures WantedPairs(own, pairs) == UsagePairs(pairs)
    decreases pairs, 0
  {
    hide Foreign, Wanted, Usage, Owns;
    if pairs != [] {
      ForeignWantsAll(own, pairs[0].val);
      ForeignPairsWantAll(own, pairs[1..]);
    }
  }

  /** The memory from `at` on is the arena's. */
  predicate InArena(own: Region, at: nat, len: nat) {
    0 < own.base <= at && at + len <= own.base + own.capacity
  }

  lemma MovedStays(own: Region, was: nat, at: nat, size: nat, at': nat)
    requires InArena(own, at, SizeFor(own, was, size))
    ensures var m := Moved(own, was, at, size); SizeFor(own, m, size) == 0 && Moved(own, m, at', size) == m
  {
  }

  /** A claimed tree wants nothing, and claiming it again leaves it as it is. */
  lemma {:induction false} ClaimedWantsNothing(own: Region, o: Obj, at: nat, at': nat)
    requires InArena(own, at, Wanted(own, o))
    ensures Wanted(own, Laid(own, o, at)) == 0 && Laid(own, Laid(own, o, at), at') == Laid(own, o, at)
    decreases o, 1
  {
    hide ObjectBytes, PairBytes, SizeFor, Moved, WantedItems, WantedPairs, LaidItems, LaidPairs;
    if o.List? {
      var n := ObjectBytes(|o.items|);
      MovedStays(own, o.at, at, n, at');
      ClaimedItemsWantNothing(own, o.items, at + SizeFor(own, o.at, n), at');
    } else if o.Map? {
      var n := PairBytes(|o.pairs|);
      MovedStays(own, o.at, at, n, at');
      ClaimedPairsWantNothing(own, o.pairs, at + SizeFor(own, o.at, n), at');
    } else if o.Buf? {
      MovedStays(own, o.at, at, |o.bytes|, at');
    }
  }

  lemma {:induction false} ClaimedItemsWantNothing(own: Region, items: seq<Obj>, at: nat, at': nat)
    requires InArena(own, at, WantedItems(own, items))
    ensures var r := LaidItems(own, items, at); WantedItems(own, r) == 0 && LaidItems(own, r, at') == r
    decreases items, 0
  {
    hide Wanted, Laid;
    if items != [] {
      var r, next := LaidItems(own, items, at), at + Wanted(own, items[0]);
      assert r[0] == Laid(own, items[0], at) && r[1..] == LaidItems(own, items[1..], next);
      ClaimedWantsNothing(own, items[0], at, at');
      ClaimedItemsWantNothing(own, items[1..], next, at');
    }
  }

  lemma {:induction false} ClaimedPairsWantNothing(own: Region, pairs: seq<KV>, at: nat, at': nat)
    requires InArena(own, at, WantedPairs(own, pairs))
    ensures var r := LaidPairs(own, pairs, at); WantedPairs(own, r) == 0 && LaidPairs(own, r, at') == r
    decreases pairs, 0
  {
    hide Wanted, Laid, SizeFor, Moved;
    if pairs != [] {
      var kv := pairs[0];
      var r, next := LaidPairs(own, pairs, at), at + WantedKV(own, kv);
      assert r[0] == LaidKV(own, kv, at) && r[1..] == LaidPairs(own, pairs[1..], next);
      MovedStays(own, kv.keyAt, at, |kv.key|, at');
      ClaimedWantsNothing(own, kv.val, at + SizeFor(own, kv.keyAt, |kv.key|), at');
      ClaimedPairsWantNothing(own, pairs[1..], next, at');
    }
  }

  /**
   gg_arena_claim_obj: for a tree within the limits it succeeds exactly if what is wanted fits what is
   free; then exactly that much is taken, the content is unchanged, the memory given to references
   tiles the bytes taken, so that no two of them overlap and none overlaps an earlier allocation, and
   claiming the result again takes nothing. A tree with no memory in the arena wants what
   gg_obj_mem_usage measures.
   */
  method ClaimObj(o: Obj, a: Region) returns (ret: Error, obj: Obj, a': Region)
    requires RegionOk(a)
    ensures ret == Ok <==> WithinLimits(o) && Wanted(a, o) <= Free(a)
    ensures WithinLimits(o) && ret != Ok ==> ret == NoMem
    ensures ret == Ok ==> a' == Taken(a, Wanted(a, o)) && Erase(obj) == Erase(o)
    ensures ret == Ok ==> Tiles(Spans(a, o, obj), a.base + a.index, a'.base + a'.index)
    ensures ret == Ok ==> Wanted(a', obj) == 0 && Laid(a', obj, a'.base + a'.index) == obj
    ensures Foreign(a, o) ==> Wanted(a, o) == Usage(o)
  {
    hide VisitObj, Usage, Wanted, Laid, Tiles, Spans, Erase, Foreign, Depth, Count;
    ClaimerIsTame();
    ret, a', obj := VisitLoop(Claimer, o, a);
    ClaimVisit(a, o, 0, a, 0);
    var at := a.base + a.index;
    LaidContent(a, o, at);
    LaidTiles(a, o, at);
    if Foreign(a, o) {
      ForeignWantsAll(a, o);
    }
    if ret == Ok {
      ClaimedWantsNothing(a, o, at, a'.base + a'.index);
      SameOwner(a, a', obj, a'.base + a'.index);
    }
  }

  /** Who owns memory does not depend on how much of the arena is used. */
  lemma {:induction false} SameOwner(own: Region, own': Region, o: Obj, at: nat)
    requires SameMemory(own, own')
    ensures Wanted(own', o) == Wanted(own, o) && Laid(own', o, at) == Laid(own, o, at)
    decreases o, 1
  {
    hide ObjectBytes, PairBytes, LaidItems, LaidPairs, WantedItems, WantedPairs;
    if o.List? {
      SameOwnerItems(own, own', o.items, at + SizeFor(own, o.at, ObjectBytes(|o.items|)));
    } else if o.Map? {
      SameOwnerPairs(own, own', o.pairs, at + SizeFor(own, o.at, PairBytes(|o.pairs|)));
    }
  }

  lemma {:induction false} SameOwnerItems(own: Region, own': Region, items: seq<Obj>, at: nat)
    requires SameMemory(own, own')
    ensures WantedItems(own', items) == WantedItems(own, items) && LaidItems(own', items, at) == LaidItems(own, items, at)
    decreases items, 0
  {
    hide Wanted, Laid;
    if items != [] {
      SameOwner(own, own', items[0], at);
      SameOwnerItems(own, own', items[1..], at + Wanted(own, items[0]));
    }
  }

  lemma {:induction false} SameOwnerPairs(own: Region, own': Region, pairs: seq<KV>, at: nat)
    requires SameMemory(own, own')
    ensures WantedPairs(own', pairs) == WantedPairs(own, pairs) && LaidPairs(own', pairs, at) == LaidPairs(own, pairs, at)
    decreases pairs, 0
  {
    hide Wanted, Laid;
    if pairs != [] {
      SameOwner(own, own', pairs[0].val, at + SizeFor(own, pairs[0].keyAt, |pairs[0].key|));
      SameOwnerPairs(own, own', pairs[1..], at + WantedKV(own, pairs[0]));
    }
  }

  /** An object per element; a pair per member, and the bytes of its key and of its string. */
  lemma KnownUsage(x: Obj, y: Obj, key: bytes, s: bytes)
    requires Usage(x) == 0 && Usage(y) == 0
    ensures Usage(List(0, [x, y])) == 22 && Usage(Map(0, [KV(0, key, Buf(0, s))])) == 21 + |key| + |s|
  {
    var items, pairs := [x, y], [KV(0, key, Buf(0, s))];
    assert items[1..] == [y] && [y][1..] == [] && pairs[1..] == [];
    assert UsageItems([]) == 0 && UsageItems([y]) == 0 && UsageItems(items) == 0;
    assert UsagePairs([]) == 0 && UsagePairs(pairs) == |key| + |s|;
  }
}
