/**
 Canonicalisation of whole trees (src/object_canonical.c): the visitor with a handler that
 canonicalises every map it enters.
 */
module DeepCanonical {
  import opened Common
  import opened Objects
  import opened MapOrder
  import opened Visitor
  import opened VisitTheorems

  // ---------- the deep canonical form ----------

  /** Every map of the tree in canonical form. */
  function DeepCanon(o: Obj): Obj
    decreases o, 1
  {
    match o
    case List(at, items) => List(at, DeepItems(items))
    case Map(at, pairs) => Map(at, Canon(DeepPairs(pairs)))
    case _ => o
  }

  function DeepItems(items: seq<Obj>): (r: seq<Obj>)
    ensures |r| == |items|
    decreases items, 0
  {
    if items == [] then [] else [DeepCanon(items[0])] + DeepItems(items[1..])
  }

  function DeepKV(kv: KV): KV
    decreases kv, 0
  {
    kv.(val := DeepCanon(kv.val))
  }

  function DeepPairs(pairs: seq<KV>): (r: seq<KV>)
    ensures |r| == |pairs|
    decreases pairs, 0
  {
    if pairs == [] then [] else [DeepKV(pairs[0])] + DeepPairs(pairs[1..])
  }

  /** Every map in the tree has strictly increasing keys. */
  predicate IsCanonical(o: Obj)
    decreases o, 1
  {
    match o
    case List(_, items) => ItemsCanonical(items)
    case Map(_, pairs) => Canon(pairs) == pairs && PairsCanonical(pairs)
    case _ => true
  }

  predicate ItemsCanonical(items: seq<Obj>)
    decreases items, 0
  {
    items == [] || (IsCanonical(items[0]) && ItemsCanonical(items[1..]))
  }

  predicate PairsCanonical(pairs: seq<KV>)
    decreases pairs, 0
  {
    pairs == [] || (IsCanonical(pairs[0].val) && PairsCanonical(pairs[1..]))
  }

  // ---------- canonicalising values and canonicalising keys commute ----------

  lemma {:induction false} DeepPut(kv: KV, pairs: seq<KV>)
    ensures DeepPairs(Put(kv, pairs)) == Put(DeepKV(kv), DeepPairs(pairs))
  {
    if pairs != [] && pairs[0].key != kv.key && !KeyLess(kv.key, pairs[0].key) {
      DeepPut(kv, pairs[1..]);
      assert DeepPairs(pairs)[1..] == DeepPairs(pairs[1..]);
    }
  }

  lemma {:induction false} DeepCanonPairs(pairs: seq<KV>)
    ensures DeepPairs(Canon(pairs)) == Canon(DeepPairs(pairs))
  {
    if pairs != [] {
      DeepCanonPairs(pairs[1..]);
      DeepPut(pairs[0], Canon(pairs[1..]));
      assert DeepPairs(pairs)[1..] == DeepPairs(pairs[1..]);
    }
  }

  lemma {:induction false} PutCanonical(kv: KV, pairs: seq<KV>)
    requires IsCanonical(kv.val) && PairsCanonical(pairs)
    ensures PairsCanonical(Put(kv, pairs))
  {
    if pairs != [] && pairs[0].key != kv.key && !KeyLess(kv.key, pairs[0].key) {
      PutCanonical(kv, pairs[1..]);
      assert Put(kv, pairs)[1..] == Put(kv, pairs[1..]);
    } else if pairs != [] && pairs[0].key == kv.key {
      assert Put(kv, pairs)[1..] == pairs[1..];
    } else {
      assert Put(kv, pairs)[1..] == pairs;
    }
  }

  lemma {:induction false} CanonCanonical(pairs: seq<KV>)
    requires PairsCanonical(pairs)
    ensures PairsCanonical(Canon(pairs))
  {
    if pairs != [] {
      CanonCanonical(pairs[1..]);
      PutCanonical(pairs[0], Canon(pairs[1..]));
    }
  }

  /** The deep canonical form is canonical, and canonical trees are their own deep canonical form. */
  lemma {:induction false} DeepCanonMeets(o: Obj)
    ensures IsCanonical(DeepCanon(o))
    ensures IsCanonical(o) ==> DeepCanon(o) == o
    decreases o, 1
  {
    match o
    case List(_, items) => DeepItemsMeets(items);
    case Map(_, pairs) =>
      DeepPairsMeets(pairs);
      CanonCanonical(DeepPairs(pairs));
      CanonIdempotent(DeepPairs(pairs));
    case _ =>
  }

  lemma {:induction false} DeepItemsMeets(items: seq<Obj>)
    ensures ItemsCanonical(DeepItems(items))
    ensures ItemsCanonical(items) ==> DeepItems(items) == items
    decreases items, 0
  {
    if items != [] {
      DeepCanonMeets(items[0]);
      DeepItemsMeets(items[1..]);
      assert DeepItems(items)[1..] == DeepItems(items[1..]);
    }
  }

  lemma {:induction false} DeepPairsMeets(pairs: seq<KV>)
    ensures PairsCanonical(DeepPairs(pairs))
    ensures PairsCanonical(pairs) ==> DeepPairs(pairs) == pairs
    decreases pairs, 0
  {
    if pairs != [] {
      DeepCanonMeets(pairs[0].val);
      DeepPairsMeets(pairs[1..]);
      assert DeepPairs(pairs)[1..] == DeepPairs(pairs[1..]);
    }
  }

  // ---------- gg_obj_canonicalize ----------

  /** canonicalize_map: replace the map by its shallow canonical form before its values are visited. */
  function CanonHandler(ctx: (), e: Event): Reply<()> {
    Reply((), Ok, if e.OnMap? then OnMap(e.at, Canon(e.pairs)) else e)
  }

  // ---------- what the visit counts ----------

  /**
   The subobjects that a canonicalising visit counts: all pairs of a map, because they are counted
   before it is canonicalised, but only the values of the pairs that are kept.
   */
  function Visited(o: Obj): nat
    decreases o, 1
  {
    match o
    case List(_, items) => |items| + VisitedItems(items)
    case Map(_, pairs) => 2 * |pairs| + Weight(Canon(Weighed(pairs)))
    case _ => 0
  }

  function VisitedItems(items: seq<Obj>): nat
    decreases items, 0
  {
    if items == [] then 0 else Visited(items[0]) + VisitedItems(items[1..])
  }

  /** The pairs with what their values count for in place of the values. */
  function Weighed(pairs: seq<KV>): seq<KV>
    decreases pairs, 0
  {
    if pairs == [] then [] else [WeighedKV(pairs[0])] + Weighed(pairs[1..])
  }

  function WeighedKV(kv: KV): KV
    decreases kv, 0
  {
    kv.(val := I64(Visited(kv.val)))
  }

  function Weight(weighed: seq<KV>): nat {
    if weighed == [] then 0 else WeightOf(weighed[0].val) + Weight(weighed[1..])
  }

  function WeightOf(o: Obj): nat {
    if o.I64? && o.i >= 0 then o.i else 0
  }

  lemma {:induction false} WeighedPut(kv: KV, pairs: seq<KV>)
    ensures Weighed(Put(kv, pairs)) == Put(WeighedKV(kv), Weighed(pairs))
  {
    hide Visited;
    if pairs != [] && pairs[0].key != kv.key && !KeyLess(kv.key, pairs[0].key) {
      WeighedPut(kv, pairs[1..]);
      assert Weighed(pairs)[1..] == Weighed(pairs[1..]);
    }
  }

  lemma {:induction false} WeighedCanon(pairs: seq<KV>)
    ensures Weighed(Canon(pairs)) == Canon(Weighed(pairs))
  {
    hide WeighedKV;
    if pairs != [] {
      WeighedCanon(pairs[1..]);
      WeighedPut(pairs[0], Canon(pairs[1..]));
      assert Weighed(pairs)[1..] == Weighed(pairs[1..]);
    }
  }

  // ---------- the visit ----------

  /** A canonicalising visit fails in no other way than by exceeding a limit. */
  ghost predicate CanonGives(v: Visit<()>, fits: bool, count: nat, obj: Obj) {
    v == if fits then Done((), count, obj) else Fail((), Range)
  }

  lemma {:induction false} CanonVisit(o: Obj, depth: nat, count: nat)
    requires Tame(CanonHandler) && depth < MAX_DEPTH && count <= MAX_SUBOBJECTS
    ensures CanonGives(VisitObj(CanonHandler, o, depth, (), count),
                       depth + Depth(DeepCanon(o)) <= MAX_DEPTH && count + Visited(o) <= MAX_SUBOBJECTS,
                       count + Visited(o), DeepCanon(o))
    decreases MAX_DEPTH - depth, 1, 0
  {
    hide DeepItems, DeepPairs, VisitItems, VisitPairs, Canon, VisitedItems, Weighed, Weight, DepthItems, DepthPairs;
    if o.List? {
      if |o.items| <= MAX_SUBOBJECTS - count {
        assert o.items[0..] == o.items && o.items[..0] + DeepItems(o.items) == DeepItems(o.items);
        CanonVisitItems(o.at, o.items, 0, depth, count + |o.items|);
      }
    } else if o.Map? {
      if |o.pairs| <= (MAX_SUBOBJECTS - count) / 2 {
        var kept := Canon(o.pairs);
        DeepCanonPairs(o.pairs);
        WeighedCanon(o.pairs);
        assert kept[0..] == kept && kept[..0] + DeepPairs(kept) == DeepPairs(kept);
        CanonVisitPairs(o.at, kept, 0, depth, count + 2 * |o.pairs|);
      }
    }
  }

  lemma SomeDepth(o: Obj)
    ensures Depth(o) >= 1
  {
  }

  lemma {:induction false} ItemVisited(at: nat, items: seq<Obj>, i: nat, depth: nat, count: nat)
    requires Tame(CanonHandler) && depth < MAX_DEPTH && count <= MAX_SUBOBJECTS && i < |items|
    ensures VisitItems(CanonHandler, at, items, i, depth, (), count) ==
            if depth + 1 == MAX_DEPTH then Fail((), Range)
            else
              var v := VisitObj(CanonHandler, items[i], depth + 1, (), count);
              if v.Fail? then v else VisitItems(CanonHandler, at, items[i := v.obj], i + 1, depth, v.ctx, v.count)
  {
    hide VisitObj, Canon;
  }

  lemma {:induction false} VisitEnds(at: nat, items: seq<Obj>, pairs: seq<KV>, depth: nat, count: nat)
    requires Tame(CanonHandler) && depth < MAX_DEPTH && count <= MAX_SUBOBJECTS
    ensures VisitItems(CanonHandler, at, items, |items|, depth, (), count) == Done((), count, List(at, items))
    ensures VisitPairs(CanonHandler, at, pairs, |pairs|, depth, (), count) == Done((), count, Map(at, pairs))
    ensures DeepItems([]) == [] && DepthItems([]) == 0 && VisitedItems([]) == 0
    ensures DeepPairs([]) == [] && DepthPairs([]) == 0 && Weight(Weighed([])) == 0
  {
  }

  /** Depth and count of the first element and the rest. */
  lemma ItemsHead(x: Obj, rest: seq<Obj>, items: seq<Obj>)
    requires items != [] && items[0] == x && items[1..] == rest
    ensures DepthItems(DeepItems(items)) ==
            var d, r := Depth(DeepCanon(x)), DepthItems(DeepItems(rest)); if d > r then d else r
    ensures VisitedItems(items) == Visited(x) + VisitedItems(rest)
    ensures DeepItems(items) == [DeepCanon(x)] + DeepItems(rest)
  {
    hide Depth, DeepCanon, Visited;
    assert DeepItems(items)[1..] == DeepItems(rest);
  }

  lemma {:induction false} CanonVisitItems(at: nat, items: seq<Obj>, i: nat, depth: nat, count: nat)
    requires Tame(CanonHandler) && depth < MAX_DEPTH && count <= MAX_SUBOBJECTS && i <= |items|
    ensures CanonGives(VisitItems(CanonHandler, at, items, i, depth, (), count),
                       depth + 1 + DepthItems(DeepItems(items[i..])) <= MAX_DEPTH && count + VisitedItems(items[i..]) <= MAX_SUBOBJECTS,
                       count + VisitedItems(items[i..]), List(at, items[..i] + DeepItems(items[i..])))
    decreases MAX_DEPTH - depth, 0, |items| - i
  {
    hide DeepCanon, VisitObj, VisitItems, Depth, Visited, DeepItems, DepthItems, VisitedItems;
    if i == |items| {
      assert items[..i] + [] == items && items[i..] == [];
      VisitEnds(at, items, [], depth, count);
    } else {
      var x, rest := items[i], items[i + 1..];
      assert items[i..][0] == x && items[i..][1..] == rest;
      ItemsHead(x, rest, items[i..]);
      ItemVisited(at, items, i, depth, count);
      SomeDepth(DeepCanon(x));
      if depth + 1 < MAX_DEPTH {
        CanonVisit(x, depth + 1, count);
        var v := VisitObj(CanonHandler, x, depth + 1, (), count);
        if v.Done? {
          var next := items[i := v.obj];
          assert next[i + 1..] == rest && next[..i + 1] == items[..i] + [v.obj];
          CanonVisitItems(at, next, i + 1, depth, v.count);
          assert items[..i] + [v.obj] + DeepItems(rest) == items[..i] + ([v.obj] + DeepItems(rest));
        }
      }
    }
  }

  lemma {:induction false} PairVisited(at: nat, pairs: seq<KV>, i: nat, depth: nat, count: nat)
    requires Tame(CanonHandler) && depth < MAX_DEPTH && count <= MAX_SUBOBJECTS && i < |pairs|
    ensures var kv := pairs[i];
            VisitPairs(CanonHandler, at, pairs, i, depth, (), count) ==
            if depth + 1 == MAX_DEPTH then Fail((), Range)
            else
              var v := VisitObj(CanonHandler, kv.val, depth + 1, (), count);
              if v.Fail? then v
              else VisitPairs(CanonHandler, at, pairs[i := KV(kv.keyAt, kv.key, v.obj)], i + 1, depth, v.ctx, v.count)
  {
    hide VisitObj, Canon;
  }

  lemma {:induction false} CanonVisitPairs(at: nat, pairs: seq<KV>, i: nat, depth: nat, count: nat)
    requires Tame(CanonHandler) && depth < MAX_DEPTH && count <= MAX_SUBOBJECTS && i <= |pairs|
    ensures CanonGives(VisitPairs(CanonHandler, at, pairs, i, depth, (), count),
                       depth + 1 + DepthPairs(DeepPairs(pairs[i..])) <= MAX_DEPTH && count + Weight(Weighed(pairs[i..])) <= MAX_SUBOBJECTS,
                       count + Weight(Weighed(pairs[i..])), Map(at, pairs[..i] + DeepPairs(pairs[i..])))
    decreases MAX_DEPTH - depth, 0, |pairs| - i
  {
    hide DeepCanon, VisitObj, VisitPairs, Depth, Visited, DeepPairs, DepthPairs, Weight, Weighed;
    if i == |pairs| {
      assert pairs[..i] + [] == pairs && pairs[i..] == [];
      VisitEnds(at, [], pairs, depth, count);
    } else {
      var kv, rest := pairs[i], pairs[i + 1..];
      assert pairs[i..][0] == kv && pairs[i..][1..] == rest;
      PairsHead(kv, rest, pairs[i..]);
      SomeDepth(DeepCanon(kv.val));
      PairVisited(at, pairs, i, depth, count);
      if depth + 1 < MAX_DEPTH {
        CanonVisit(kv.val, depth + 1, count);
        var v := VisitObj(CanonHandler, kv.val, depth + 1, (), count);
        if v.Done? {
          var next := pairs[i := KV(kv.keyAt, kv.key, v.obj)];
          assert next[i + 1..] == rest && next[..i + 1] == pairs[..i] + [DeepKV(kv)];
          CanonVisitPairs(at, next, i + 1, depth, v.count);
          assert pairs[..i] + [DeepKV(kv)] + DeepPairs(rest) == pairs[..i] + ([DeepKV(kv)] + DeepPairs(rest));
        }
      }
    }
  }

  /** Depth and weight of the first pair and the rest. */
  lemma PairsHead(kv: KV, rest: seq<KV>, pairs: seq<KV>)
    requires pairs != [] && pairs[0] == kv && pairs[1..] == rest
    ensures DepthPairs(DeepPairs(pairs)) ==
            var d, r := Depth(DeepCanon(kv.val)), DepthPairs(DeepPairs(rest)); if d > r then d else r
    ensures Weight(Weighed(pairs)) == Visited(kv.val) + Weight(Weighed(rest))
    ensures DeepPairs(pairs) == [DeepKV(kv)] + DeepPairs(rest)
  {
    hide Depth, DeepCanon, Visited;
    assert DeepPairs(pairs)[1..] == DeepPairs(rest) && Weighed(pairs)[1..] == Weighed(rest);
  }

  // ---------- what it counts, against the limits of the trees before and after ----------

  lemma {:induction false} DeepItemsAt(items: seq<Obj>, i: nat)
    requires i < |items|
    ensures DeepItems(items)[i] == DeepCanon(items[i])
  {
    if i > 0 {
      DeepItemsAt(items[1..], i - 1);
    }
  }

  lemma {:induction false} DeepPairsAt(pairs: seq<KV>, i: nat)
    requires i < |pairs|
    ensures DeepPairs(pairs)[i] == DeepKV(pairs[i])
  {
    if i > 0 {
      DeepPairsAt(pairs[1..], i - 1);
    }
  }

  lemma {:induction false} PutCount(kv: KV, pairs: seq<KV>)
    ensures CountPairs(Put(kv, pairs)) <= Count(kv.val) + CountPairs(pairs)
    ensures DepthPairs(Put(kv, pairs)) <= if Depth(kv.val) > DepthPairs(pairs) then Depth(kv.val) else DepthPairs(pairs)
  {
    hide Depth, Count;
    if pairs != [] && pairs[0].key != kv.key && !KeyLess(kv.key, pairs[0].key) {
      PutCount(kv, pairs[1..]);
      assert Put(kv, pairs)[1..] == Put(kv, pairs[1..]);
    } else if pairs != [] && pairs[0].key == kv.key {
      assert Put(kv, pairs)[1..] == pairs[1..];
    } else {
      assert Put(kv, pairs)[1..] == pairs;
    }
  }

  lemma {:induction false} CanonCount(pairs: seq<KV>)
    ensures CountPairs(Canon(pairs)) <= CountPairs(pairs) && DepthPairs(Canon(pairs)) <= DepthPairs(pairs)
  {
    hide Depth, Count;
    if pairs != [] {
      CanonCount(pairs[1..]);
      PutCount(pairs[0], Canon(pairs[1..]));
    }
  }

  lemma {:induction false} WeightPut(kv: KV, weighed: seq<KV>)
    ensures Weight(Put(kv, weighed)) <= WeightOf(kv.val) + Weight(weighed)
  {
    hide WeightOf;
    if weighed != [] && weighed[0].key != kv.key && !KeyLess(kv.key, weighed[0].key) {
      WeightPut(kv, weighed[1..]);
      assert Put(kv, weighed)[1..] == Put(kv, weighed[1..]);
    } else if weighed != [] && weighed[0].key == kv.key {
      assert Put(kv, weighed)[1..] == weighed[1..];
    } else {
      assert Put(kv, weighed)[1..] == weighed;
    }
  }

  lemma {:induction false} WeightCanon(weighed: seq<KV>)
    ensures Weight(Canon(weighed)) <= Weight(weighed)
  {
    hide WeightOf;
    if weighed != [] {
      WeightCanon(weighed[1..]);
      WeightPut(weighed[0], Canon(weighed[1..]));
    }
  }

  /** What is proved of a value: no deeper, counted for no more than it holds and no less than remains. */
  ghost predicate Bounded(o: Obj) {
    Depth(DeepCanon(o)) <= Depth(o) && Count(DeepCanon(o)) <= Visited(o) <= Count(o)
  }

  lemma {:induction false} PairsBounded(pairs: seq<KV>)
    requires forall kv :: kv in pairs ==> Bounded(kv.val)
    ensures DepthPairs(DeepPairs(pairs)) <= DepthPairs(pairs)
    ensures CountPairs(DeepPairs(pairs)) <= Weight(Weighed(pairs)) <= CountPairs(pairs)
  {
    hide Depth, DeepCanon, Visited, Count;
    if pairs != [] {
      assert Bounded(pairs[0].val);
      PairsBounded(pairs[1..]);
      PairsHead(pairs[0], pairs[1..], pairs);
      assert DeepPairs(pairs)[1..] == DeepPairs(pairs[1..]);
    }
  }

  lemma {:induction false} ItemsBounded(items: seq<Obj>)
    requires forall x :: x in items ==> Bounded(x)
    ensures DepthItems(DeepItems(items)) <= DepthItems(items)
    ensures CountItems(DeepItems(items)) <= VisitedItems(items) <= CountItems(items)
  {
    hide Depth, DeepCanon, Visited, Count;
    if items != [] {
      assert Bounded(items[0]);
      ItemsBounded(items[1..]);
      assert DeepItems(items)[1..] == DeepItems(items[1..]);
    }
  }

  lemma {:induction false} CanonBounded(o: Obj)
    ensures Bounded(o)
    decreases o
  {
    if o.List? {
      forall x | x in o.items ensures Bounded(x) {
        CanonBounded(x);
      }
      ListBounded(o);
    } else if o.Map? {
      forall kv | kv in o.pairs ensures Bounded(kv.val) {
        CanonBounded(kv.val);
      }
      MapBounded(o);
    }
  }

  lemma ListBounded(o: Obj)
    requires o.List? && forall x :: x in o.items ==> Bounded(x)
    ensures Bounded(o)
  {
    hide DeepItems, DepthItems, CountItems, VisitedItems;
    ItemsBounded(o.items);
  }

  lemma MapBounded(o: Obj)
    requires o.Map? && forall kv :: kv in o.pairs ==> Bounded(kv.val)
    ensures Bounded(o)
  {
    hide DeepPairs, DepthPairs, CountPairs, Weighed, Weight, Canon;
    var kept := Canon(o.pairs);
    CanonMembers(o.pairs);
    PairsBounded(o.pairs);
    PairsBounded(kept);
    DeepCanonPairs(o.pairs);
    WeighedCanon(o.pairs);
    WeightCanon(Weighed(o.pairs));
    CanonCount(o.pairs);
  }

  // ---------- gg_obj_is_canonical ----------

  function CheckHandler(ctx: (), e: Event): Reply<()> {
    Reply((), if e.OnMap? && Canon(e.pairs) != e.pairs then Failure else Ok, e)
  }

  predicate MapsSorted(events: seq<Event>) {
    forall i :: 0 <= i < |events| && events[i].OnMap? ==> Canon(events[i].pairs) == events[i].pairs
  }

  lemma {:induction false} CheckReplay(events: seq<Event>)
    ensures Replay(CheckHandler, (), events) == Replayed((), if MapsSorted(events) then Ok else Failure)
    decreases |events|
  {
    if events != [] {
      CheckReplay(events[1..]);
      assert events == [events[0]] + events[1..];
    }
  }

  lemma MapsSortedConcat(a: seq<Event>, b: seq<Event>)
    ensures MapsSorted(a + b) <==> MapsSorted(a) && MapsSorted(b)
  {
    if MapsSorted(a + b) {
      forall i | 0 <= i < |a| && a[i].OnMap? ensures Canon(a[i].pairs) == a[i].pairs { assert (a + b)[i] == a[i]; }
      forall i | 0 <= i < |b| && b[i].OnMap? ensures Canon(b[i].pairs) == b[i].pairs { assert (a + b)[|a| + i] == b[i]; }
    }
  }

  lemma {:induction false} EventsSorted(o: Obj)
    ensures MapsSorted(Events(o)) <==> IsCanonical(o)
    decreases o, 0
  {
    match o
    case List(at, items) =>
      assert items[0..] == items;
      ItemEventsSorted(items, 0);
      MapsSortedConcat([OnList(at, items)], ItemEvents(items, 0));
    case Map(at, pairs) =>
      assert pairs[0..] == pairs;
      PairEventsSorted(pairs, 0);
      MapsSortedConcat([OnMap(at, pairs)], PairEvents(pairs, 0));
      assert MapsSorted([OnMap(at, pairs)]) <==> Canon(pairs) == pairs by {
        assert [OnMap(at, pairs)][0] == OnMap(at, pairs);
      }
    case _ =>
  }

  lemma {:induction false} ItemEventsSorted(items: seq<Obj>, i: nat)
    requires i <= |items|
    ensures MapsSorted(ItemEvents(items, i)) <==> ItemsCanonical(items[i..])
    decreases items, |items| - i
  {
    if i < |items| {
      assert items[i..][1..] == items[i + 1..];
      EventsSorted(items[i]);
      ItemEventsSorted(items, i + 1);
      MapsSortedConcat(Separator(i, ContList), Events(items[i]));
      MapsSortedConcat(Separator(i, ContList) + Events(items[i]), ItemEvents(items, i + 1));
    }
  }

  lemma {:induction false} PairEventsSorted(pairs: seq<KV>, i: nat)
    requires i <= |pairs|
    ensures MapsSorted(PairEvents(pairs, i)) <==> PairsCanonical(pairs[i..])
    decreases pairs, |pairs| - i
  {
    if i < |pairs| {
      assert pairs[i..][1..] == pairs[i + 1..];
      assert pairs[i].val < pairs[i];
      EventsSorted(pairs[i].val);
      PairEventsSorted(pairs, i + 1);
      MapsSortedConcat(KeyEvents(pairs[i], i), Events(pairs[i].val));
      MapsSortedConcat(KeyEvents(pairs[i], i) + Events(pairs[i].val), PairEvents(pairs, i + 1));
    }
  }

  /**
   gg_obj_canonicalize succeeds if and only if the canonical form is shallow enough and what the visit
   counts is few enough, and leaves the deep canonical form; so every tree within the limits succeeds,
   and a tree beyond them exactly if its excess lies under shadowed duplicates.
   */
  method Canonicalize(o: Obj) returns (ret: Error, obj: Obj)
    ensures ret == if Depth(DeepCanon(o)) <= MAX_DEPTH && Visited(o) <= MAX_SUBOBJECTS then Ok else Range
    ensures ret == Ok ==> obj == DeepCanon(o) && WithinLimits(obj)
    ensures WithinLimits(o) ==> ret == Ok
  {
    hide Depth, Visited, DeepCanon, VisitObj;
    var ctx;
    ret, ctx, obj := VisitLoop(CanonHandler, o, ());
    CanonVisit(o, 0, 0);
    CanonBounded(o);
  }

  /** gg_obj_is_canonical: exactly the canonical trees within the limits. */
  method CheckCanonical(o: Obj) returns (r: bool)
    ensures r <==> WithinLimits(o) && IsCanonical(o)
  {
    var ret, ctx, obj := VisitLoop(CheckHandler, o, ());
    ghost var seen := VisitIsReplay(CheckHandler, o, ());
    CheckReplay(seen);
    EventsSorted(o);
    r := ret == Ok;
  }

  /** Whatever gg_obj_canonicalize accepts, gg_obj_is_canonical then accepts. */
  method CanonicalizeThenCheck(o: Obj) returns (ret: Error, obj: Obj, r: bool)
    ensures ret == Ok ==> r && obj == DeepCanon(o)
  {
    ret, obj := Canonicalize(o);
    r := CheckCanonical(obj);
    DeepCanonMeets(o);
  }
}
