/**
 What a traversal tells its handler: the events of the tree in order, cut short exactly when the
 tree exceeds the depth or subobject limit.
 */
module VisitTheorems {
  import opened Common
  import opened Objects
  import opened Visitor

  // ---------- the events of a tree ----------

  function Events(o: Obj): (r: seq<Event>)
    decreases o, 0
  {
    match o
    case List(at, items) => [OnList(at, items)] + ItemEvents(items, 0)
    case Map(at, pairs) => [OnMap(at, pairs)] + PairEvents(pairs, 0)
    case Buf(at, bytes) => [OnBuf(at, bytes)]
    case _ => [Scalar(o)]
  }

  /** The separator before an element. */
  function Separator(i: nat, e: Event): seq<Event> {
    if i == 0 then [] else [e]
  }

  function ItemEvents(items: seq<Obj>, i: nat): seq<Event>
    requires i <= |items|
    decreases items, |items| - i
  {
    if i == |items| then [EndList]
    else Separator(i, ContList) + Events(items[i]) + ItemEvents(items, i + 1)
  }

  function KeyEvents(kv: KV, i: nat): seq<Event> {
    Separator(i, ContMap) + [OnMapKey(kv.keyAt, kv.key)]
  }

  function PairEvents(pairs: seq<KV>, i: nat): seq<Event>
    requires i <= |pairs|
    decreases pairs, |pairs| - i
  {
    if i == |pairs| then [EndMap]
    else
      assert pairs[i].val < pairs[i];
      KeyEvents(pairs[i], i) + Events(pairs[i].val) + PairEvents(pairs, i + 1)
  }

  // ---------- the events emitted under the limits ----------

  datatype Emitted = Emitted(events: seq<Event>, complete: bool, count: nat)

  function Emit(o: Obj, depth: nat, count: nat): (e: Emitted)
    requires depth < MAX_DEPTH && count <= MAX_SUBOBJECTS
    ensures e.count <= MAX_SUBOBJECTS
    decreases o, 0
  {
    match o
    case List(at, items) =>
      if |items| > MAX_SUBOBJECTS - count then Emitted([], false, count)
      else
        var e := EmitItems(items, 0, depth, count + |items|);
        e.(events := [OnList(at, items)] + e.events)
    case Map(at, pairs) =>
      if |pairs| > (MAX_SUBOBJECTS - count) / 2 then Emitted([], false, count)
      else
        var e := EmitPairs(pairs, 0, depth, count + 2 * |pairs|);
        e.(events := [OnMap(at, pairs)] + e.events)
    case Buf(at, bytes) => Emitted([OnBuf(at, bytes)], true, count)
    case _ => Emitted([Scalar(o)], true, count)
  }

  function EmitItems(items: seq<Obj>, i: nat, depth: nat, count: nat): (e: Emitted)
    requires i <= |items| && depth < MAX_DEPTH && count <= MAX_SUBOBJECTS
    ensures e.count <= MAX_SUBOBJECTS
    decreases items, |items| - i
  {
    if i == |items| then Emitted([EndList], true, count)
    else if depth + 1 == MAX_DEPTH then Emitted(Separator(i, ContList), false, count)
    else
      var a := Emit(items[i], depth + 1, count);
      if !a.complete then a.(events := Separator(i, ContList) + a.events)
      else
        var b := EmitItems(items, i + 1, depth, a.count);
        b.(events := Separator(i, ContList) + a.events + b.events)
  }

  function EmitPairs(pairs: seq<KV>, i: nat, depth: nat, count: nat): (e: Emitted)
    requires i <= |pairs| && depth < MAX_DEPTH && count <= MAX_SUBOBJECTS
    ensures e.count <= MAX_SUBOBJECTS
    decreases pairs, |pairs| - i
  {
    if i == |pairs| then Emitted([EndMap], true, count)
    else if depth + 1 == MAX_DEPTH then Emitted(KeyEvents(pairs[i], i), false, count)
    else
      assert pairs[i].val < pairs[i];
      var a := Emit(pairs[i].val, depth + 1, count);
      if !a.complete then a.(events := KeyEvents(pairs[i], i) + a.events)
      else
        var b := EmitPairs(pairs, i + 1, depth, a.count);
        b.(events := KeyEvents(pairs[i], i) + a.events + b.events)
  }

  // ---------- emission against the tree ----------

  /** Depth and count of the elements from `i` on. */
  predicate ItemsFit(items: seq<Obj>, i: nat, depth: nat, count: nat)
    requires i <= |items|
  {
    depth + 1 + DepthItems(items[i..]) <= MAX_DEPTH && count + CountItems(items[i..]) <= MAX_SUBOBJECTS
  }

  predicate PairsFit(pairs: seq<KV>, i: nat, depth: nat, count: nat)
    requires i <= |pairs|
  {
    depth + 1 + DepthPairs(pairs[i..]) <= MAX_DEPTH && count + CountPairs(pairs[i..]) <= MAX_SUBOBJECTS
  }

  lemma PrefixAppend<T>(a: seq<T>, b: seq<T>, c: seq<T>)
    requires b <= c
    ensures a + b <= a + c
  {
  }

  /** Within the limits everything is emitted; beyond them, a prefix. */
  lemma {:induction false} EmitMeets(o: Obj, depth: nat, count: nat)
    requires depth < MAX_DEPTH && count <= MAX_SUBOBJECTS
    ensures var e := Emit(o, depth, count);
            && (e.complete <==> depth + Depth(o) <= MAX_DEPTH && count + Count(o) <= MAX_SUBOBJECTS)
            && (e.complete ==> e.events == Events(o) && e.count == count + Count(o))
            && e.events <= Events(o)
    decreases o, 0
  {
    hide EmitItems, EmitPairs, ItemEvents, PairEvents, DepthItems, DepthPairs, CountItems, CountPairs;
    if o.List? {
      assert o.items[0..] == o.items;
      if |o.items| <= MAX_SUBOBJECTS - count {
        var rest := EmitItems(o.items, 0, depth, count + |o.items|);
        EmitItemsMeets(o.items, 0, depth, count + |o.items|);
        PrefixAppend([OnList(o.at, o.items)], rest.events, ItemEvents(o.items, 0));
      }
    } else if o.Map? {
      assert o.pairs[0..] == o.pairs;
      if |o.pairs| <= (MAX_SUBOBJECTS - count) / 2 {
        var rest := EmitPairs(o.pairs, 0, depth, count + 2 * |o.pairs|);
        EmitPairsMeets(o.pairs, 0, depth, count + 2 * |o.pairs|);
        PrefixAppend([OnMap(o.at, o.pairs)], rest.events, PairEvents(o.pairs, 0));
      }
    }
  }

  lemma {:induction false} EmitItemsMeets(items: seq<Obj>, i: nat, depth: nat, count: nat)
    requires i <= |items| && depth < MAX_DEPTH && count <= MAX_SUBOBJECTS
    ensures var e := EmitItems(items, i, depth, count);
            && (e.complete <==> ItemsFit(items, i, depth, count))
            && (e.complete ==> e.events == ItemEvents(items, i) && e.count == count + CountItems(items[i..]))
            && e.events <= ItemEvents(items, i)
    decreases items, |items| - i
  {
    if i < |items| {
      assert items[i..][0] == items[i] && items[i..][1..] == items[i + 1..];
      var s := Separator(i, ContList);
      if depth + 1 < MAX_DEPTH {
        EmitMeets(items[i], depth + 1, count);
        var a := Emit(items[i], depth + 1, count);
        if a.complete {
          EmitItemsMeets(items, i + 1, depth, a.count);
          PrefixAppend(s + a.events, EmitItems(items, i + 1, depth, a.count).events, ItemEvents(items, i + 1));
        } else {
          PrefixAppend(s, a.events, Events(items[i]));
        }
      }
    }
  }

  lemma {:induction false} EmitPairsMeets(pairs: seq<KV>, i: nat, depth: nat, count: nat)
    requires i <= |pairs| && depth < MAX_DEPTH && count <= MAX_SUBOBJECTS
    ensures var e := EmitPairs(pairs, i, depth, count);
            && (e.complete <==> PairsFit(pairs, i, depth, count))
            && (e.complete ==> e.events == PairEvents(pairs, i) && e.count == count + CountPairs(pairs[i..]))
            && e.events <= PairEvents(pairs, i)
    decreases pairs, |pairs| - i
  {
    if i < |pairs| {
      assert pairs[i..][0] == pairs[i] && pairs[i..][1..] == pairs[i + 1..];
      assert pairs[i].val < pairs[i];
      var s := KeyEvents(pairs[i], i);
      if depth + 1 < MAX_DEPTH {
        EmitMeets(pairs[i].val, depth + 1, count);
        var a := Emit(pairs[i].val, depth + 1, count);
        if a.complete {
          EmitPairsMeets(pairs, i + 1, depth, a.count);
          PrefixAppend(s + a.events, EmitPairs(pairs, i + 1, depth, a.count).events, PairEvents(pairs, i + 1));
        } else {
          PrefixAppend(s, a.events, Events(pairs[i].val));
        }
      }
    }
  }

  // ---------- a read-only handler sees exactly the emitted events ----------

  datatype Replayed<C> = Replayed(ctx: C, ret: Error)

  /** Feed events to a handler until it objects. */
  function Replay<C>(h: Handler<C>, ctx: C, events: seq<Event>): Replayed<C>
    decreases |events|
  {
    if events == [] then Replayed(ctx, Ok)
    else
      var r := h(ctx, events[0]);
      if r.ret != Ok then Replayed(r.ctx, r.ret) else Replay(h, r.ctx, events[1..])
  }

  lemma {:induction false} ReplayConcat<C>(h: Handler<C>, ctx: C, a: seq<Event>, b: seq<Event>)
    ensures var p := Replay(h, ctx, a); Replay(h, ctx, a + b) == if p.ret != Ok then p else Replay(h, p.ctx, b)
    decreases |a|
  {
    if a == [] {
      assert a + b == b;
    } else {
      assert (a + b)[0] == a[0] && (a + b)[1..] == a[1..] + b;
      var r := h(ctx, a[0]);
      if r.ret == Ok {
        ReplayConcat(h, r.ctx, a[1..], b);
      }
    }
  }

  lemma ReplayOne<C>(h: Handler<C>, ctx: C, e: Event)
    ensures Replay(h, ctx, [e]) == Replayed(h(ctx, e).ctx, h(ctx, e).ret)
  {
    assert [e][1..] == [];
  }

  lemma ReplayNone<C>(h: Handler<C>, ctx: C)
    ensures Replay(h, ctx, []) == Replayed(ctx, Ok)
  {
  }

  lemma ReplaySeparator<C>(h: Handler<C>, ctx: C, i: nat, e: Event)
    ensures Replay(h, ctx, Separator(i, e)) == if i == 0 then Replayed(ctx, Ok) else Replayed(h(ctx, e).ctx, h(ctx, e).ret)
  {
    if i != 0 {
      ReplayOne(h, ctx, e);
    }
  }

  lemma ReplayKey<C>(h: Handler<C>, ctx: C, kv: KV, i: nat)
    ensures var p := Replay(h, ctx, Separator(i, ContMap));
            Replay(h, ctx, KeyEvents(kv, i)) ==
            if p.ret != Ok then p
            else var r := h(p.ctx, OnMapKey(kv.keyAt, kv.key)); Replayed(r.ctx, r.ret)
  {
    var key := OnMapKey(kv.keyAt, kv.key);
    ReplayConcat(h, ctx, Separator(i, ContMap), [key]);
    ReplayOne(h, Replay(h, ctx, Separator(i, ContMap)).ctx, key);
  }

  /** Replaying a lead-in, one element and the rest. */
  lemma ReplayParts<C>(h: Handler<C>, ctx: C, s: seq<Event>, a: seq<Event>, b: seq<Event>)
    ensures var p := Replay(h, ctx, s); var q := Replay(h, p.ctx, a);
            && Replay(h, ctx, s + a) == (if p.ret != Ok then p else q)
            && Replay(h, ctx, s + a + b) == if p.ret != Ok then p else if q.ret != Ok then q else Replay(h, q.ctx, b)
  {
    ReplayConcat(h, ctx, s, a);
    ReplayConcat(h, ctx, s + a, b);
  }

  ghost function Conclude<C>(p: Replayed<C>, e: Emitted, o: Obj): Visit<C> {
    if p.ret != Ok then Fail(p.ctx, p.ret)
    else if e.complete then Done(p.ctx, e.count, o)
    else Fail(p.ctx, Range)
  }

  lemma {:induction false} VisitReplays<C(!new)>(h: Handler<C>, o: Obj, depth: nat, ctx: C, count: nat)
    requires Tame(h) && ReadOnly(h) && depth < MAX_DEPTH && count <= MAX_SUBOBJECTS
    ensures var e := Emit(o, depth, count);
            VisitObj(h, o, depth, ctx, count) == Conclude(Replay(h, ctx, e.events), e, o)
    decreases o, 0
  {
    hide Replay, EmitItems, EmitPairs;
    ReplayNone(h, ctx);
    if o.List? {
      if |o.items| <= MAX_SUBOBJECTS - count {
        var e := OnList(o.at, o.items);
        assert h(ctx, e).event == e;
        ReplayOne(h, ctx, e);
        ReplayConcat(h, ctx, [e], EmitItems(o.items, 0, depth, count + |o.items|).events);
        VisitItemsReplays(h, o.at, o.items, 0, depth, h(ctx, e).ctx, count + |o.items|);
      }
    } else if o.Map? {
      if |o.pairs| <= (MAX_SUBOBJECTS - count) / 2 {
        var e := OnMap(o.at, o.pairs);
        assert h(ctx, e).event == e;
        ReplayOne(h, ctx, e);
        ReplayConcat(h, ctx, [e], EmitPairs(o.pairs, 0, depth, count + 2 * |o.pairs|).events);
        VisitPairsReplays(h, o.at, o.pairs, 0, depth, h(ctx, e).ctx, count + 2 * |o.pairs|);
      }
    } else {
      var e := if o.Buf? then OnBuf(o.at, o.bytes) else Scalar(o);
      assert h(ctx, e).event == e;
      ReplayOne(h, ctx, e);
    }
  }

  lemma {:induction false} VisitItemsReplays<C(!new)>(h: Handler<C>, at: nat, items: seq<Obj>, i: nat, depth: nat, ctx: C, count: nat)
    requires Tame(h) && ReadOnly(h) && depth < MAX_DEPTH && count <= MAX_SUBOBJECTS && i <= |items|
    ensures var e := EmitItems(items, i, depth, count);
            VisitItems(h, at, items, i, depth, ctx, count) == Conclude(Replay(h, ctx, e.events), e, List(at, items))
    decreases items, |items| - i
  {
    hide Replay, Emit;
    if i == |items| {
      ReplayOne(h, ctx, EndList);
    } else {
      var s := Separator(i, ContList);
      ReplaySeparator(h, ctx, i, ContList);
      if depth + 1 < MAX_DEPTH {
        var a := Emit(items[i], depth + 1, count);
        var b := EmitItems(items, i + 1, depth, a.count);
        var p := Replay(h, ctx, s);
        ReplayParts(h, ctx, s, a.events, b.events);
        VisitReplays(h, items[i], depth + 1, p.ctx, count);
        assert items[i := items[i]] == items;
        VisitItemsReplays(h, at, items, i + 1, depth, Replay(h, p.ctx, a.events).ctx, a.count);
      }
    }
  }

  lemma {:induction false} VisitPairsReplays<C(!new)>(h: Handler<C>, at: nat, pairs: seq<KV>, i: nat, depth: nat, ctx: C, count: nat)
    requires Tame(h) && ReadOnly(h) && depth < MAX_DEPTH && count <= MAX_SUBOBJECTS && i <= |pairs|
    ensures var e := EmitPairs(pairs, i, depth, count);
            VisitPairs(h, at, pairs, i, depth, ctx, count) == Conclude(Replay(h, ctx, e.events), e, Map(at, pairs))
    decreases pairs, |pairs| - i
  {
    hide Replay, Emit, KeyEvents;
    if i == |pairs| {
      ReplayOne(h, ctx, EndMap);
    } else {
      assert pairs[i].val < pairs[i];
      var s := KeyEvents(pairs[i], i);
      ReplaySeparator(h, ctx, i, ContMap);
      ReplayKey(h, ctx, pairs[i], i);
      if depth + 1 < MAX_DEPTH {
        var a := Emit(pairs[i].val, depth + 1, count);
        var b := EmitPairs(pairs, i + 1, depth, a.count);
        var p := Replay(h, ctx, s);
        ReplayParts(h, ctx, s, a.events, b.events);
        VisitReplays(h, pairs[i].val, depth + 1, p.ctx, count);
        assert pairs[i := pairs[i]] == pairs;
        VisitPairsReplays(h, at, pairs, i + 1, depth, Replay(h, p.ctx, a.events).ctx, a.count);
      }
    }
  }

  /**
   The visitor for a handler that only looks: its context and verdict are those of replaying the
   tree's events one by one; within the limits the whole sequence is replayed, otherwise a prefix
   of it and then RANGE.
   */
  lemma VisitIsReplay<C(!new)>(h: Handler<C>, o: Obj, ctx: C) returns (seen: seq<Event>)
    requires Tame(h) && ReadOnly(h)
    ensures seen <= Events(o) && (WithinLimits(o) ==> seen == Events(o))
    ensures var p := Replay(h, ctx, seen); var v := VisitObj(h, o, 0, ctx, 0);
            if p.ret != Ok then v == Fail(p.ctx, p.ret)
            else if WithinLimits(o) then v == Done(p.ctx, Count(o), o)
            else v == Fail(p.ctx, Range)
  {
    EmitMeets(o, 0, 0);
    VisitReplays(h, o, 0, ctx, 0);
    seen := Emit(o, 0, 0).events;
  }

  /** The handler that records what it is told. */
  function Record(log: seq<Event>, e: Event): Reply<seq<Event>> {
    Reply(log + [e], Ok, e)
  }

  lemma {:induction false} RecordReplay(log: seq<Event>, events: seq<Event>)
    ensures Replay(Record, log, events) == Replayed(log + events, Ok)
    decreases |events|
  {
    if events != [] {
      RecordReplay(log + [events[0]], events[1..]);
      assert log + [events[0]] + events[1..] == log + events;
    } else {
      assert log + events == log;
    }
  }

  /** The explicit-stack loop reports the events of the recursive traversal, all of them iff within limits. */
  method TraceLoop(o: Obj) returns (ret: Error, log: seq<Event>)
    ensures ret == if Depth(o) <= 15 && Count(o) <= 255 then Ok else Range
    ensures log <= Events(o) && (ret == Ok ==> log == Events(o))
  {
    var obj;
    ret, log, obj := VisitLoop(Record, o, []);
    ghost var seen := VisitIsReplay(Record, o, []);
    RecordReplay([], seen);
    assert [] + seen == seen;
  }

  // ---------- depth and count, by example ----------

  /** A null inside `n` lists. */
  function Nested(n: nat): Obj {
    if n == 0 then Null else List(0, [Nested(n - 1)])
  }

  lemma {:induction false} NestedLimits(n: nat)
    ensures Depth(Nested(n)) == n + 1 && Count(Nested(n)) == n
  {
    if n > 0 {
      NestedLimits(n - 1);
      OneItem(Nested(n - 1));
    }
  }

  lemma OneItem(x: Obj)
    ensures Depth(List(0, [x])) == 1 + Depth(x) && Count(List(0, [x])) == 1 + Count(x)
  {
    hide Depth, Count;
    var one := [x];
    assert one[0] == x && one[1..] == [];
    assert DepthItems(one[1..]) == 0 && CountItems(one[1..]) == 0;
    ListLimits(one);
  }

  lemma ListLimits(items: seq<Obj>)
    ensures Depth(List(0, items)) == 1 + DepthItems(items) && Count(List(0, items)) == |items| + CountItems(items)
  {
    hide DepthItems, CountItems;
  }

  lemma {:induction false} FlatItems(items: seq<Obj>)
    requires forall x :: x in items ==> !x.List? && !x.Map?
    ensures CountItems(items) == 0 && DepthItems(items) == if items == [] then 0 else 1
  {
    if items != [] {
      assert items[0] in items;
      FlatItems(items[1..]);
    }
  }

  lemma {:induction false} FlatPairs(pairs: seq<KV>)
    requires forall kv :: kv in pairs ==> !kv.val.List? && !kv.val.Map?
    ensures CountPairs(pairs) == 0 && DepthPairs(pairs) == if pairs == [] then 0 else 1
  {
    if pairs != [] {
      assert pairs[0] in pairs;
      FlatPairs(pairs[1..]);
    }
  }

  /** Scalars in a list count once, pairs of a map twice. */
  lemma FlatLimits(at: nat, items: seq<Obj>, pairs: seq<KV>)
    requires (forall x :: x in items ==> !x.List? && !x.Map?) && (forall kv :: kv in pairs ==> !kv.val.List? && !kv.val.Map?)
    ensures Count(List(at, items)) == |items| && Depth(List(at, items)) == if items == [] then 1 else 2
    ensures Count(Map(at, pairs)) == 2 * |pairs| && Depth(Map(at, pairs)) == if pairs == [] then 1 else 2
  {
    FlatItems(items);
    FlatPairs(pairs);
  }
}
