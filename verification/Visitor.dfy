/**
 gg_obj_visit: the traversal underneath encoding, canonicalisation, measuring and copying.

 A handler is a function of its context and of the event it is called with. It answers with a new
 context, an error code, and the event as it left it: on_buf, on_list and on_map may overwrite the
 object they are given, and on_map_key the key.
 */
module Visitor {
  import opened Common
  import opened Objects

  datatype Event =
    | OnNull
    | OnBool(b: bool)
    | OnI64(i: int)
    | OnF64(bits: nat)
    | OnBuf(at: nat, bytes: bytes)
    | OnList(at: nat, items: seq<Obj>)
    | ContList
    | EndList
    | OnMap(at: nat, pairs: seq<KV>)
    | OnMapKey(at: nat, bytes: bytes)
    | ContMap
    | EndMap

  datatype Reply<C> = Reply(ctx: C, ret: Error, event: Event)

  type Handler<!C> = (C, Event) -> Reply<C>

  /** A handler keeps the kind of the object it is shown and never adds elements. */
  predicate Keeps(before: Event, after: Event) {
    match before
    case OnBuf(_, _) => after.OnBuf?
    case OnList(_, items) => after.OnList? && |after.items| <= |items|
    case OnMap(_, pairs) => after.OnMap? && |after.pairs| <= |pairs|
    case OnMapKey(_, _) => after.OnMapKey?
    case _ => after == before
  }

  ghost predicate Tame<C(!new)>(h: Handler<C>) {
    forall c, e :: Keeps(e, h(c, e).event)
  }

  /** A handler that only looks. */
  ghost predicate ReadOnly<C(!new)>(h: Handler<C>) {
    forall c, e :: h(c, e).event == e
  }

  datatype Visit<C> =
    | Done(ctx: C, count: nat, obj: Obj)
    | Fail(ctx: C, err: Error)

  // ---------- the recursive traversal ----------

  ghost function VisitObj<C(!new)>(h: Handler<C>, o: Obj, depth: nat, ctx: C, count: nat): (v: Visit<C>)
    requires Tame(h) && depth < MAX_DEPTH && count <= MAX_SUBOBJECTS
    ensures v.Done? ==> count <= v.count <= MAX_SUBOBJECTS
    decreases MAX_DEPTH - depth, 1, 0
  {
    match o
    case List(at, items) =>
      if |items| > MAX_SUBOBJECTS - count then Fail(ctx, Range)
      else
        var r := h(ctx, OnList(at, items));
        assert Keeps(OnList(at, items), r.event);
        if r.ret != Ok then Fail(r.ctx, r.ret)
        else VisitItems(h, r.event.at, r.event.items, 0, depth, r.ctx, count + |items|)
    case Map(at, pairs) =>
      if |pairs| > (MAX_SUBOBJECTS - count) / 2 then Fail(ctx, Range)
      else
        var r := h(ctx, OnMap(at, pairs));
        assert Keeps(OnMap(at, pairs), r.event);
        if r.ret != Ok then Fail(r.ctx, r.ret)
        else VisitPairs(h, r.event.at, r.event.pairs, 0, depth, r.ctx, count + 2 * |pairs|)
    case Buf(at, bytes) =>
      var r := h(ctx, OnBuf(at, bytes));
      assert Keeps(OnBuf(at, bytes), r.event);
      if r.ret != Ok then Fail(r.ctx, r.ret) else Done(r.ctx, count, Buf(r.event.at, r.event.bytes))
    case _ =>
      var r := h(ctx, Scalar(o));
      if r.ret != Ok then Fail(r.ctx, r.ret) else Done(r.ctx, count, o)
  }

  function Scalar(o: Obj): Event
    requires !o.Buf? && !o.List? && !o.Map?
  {
    match o
    case Null => OnNull
    case Bool(b) => OnBool(b)
    case I64(i) => OnI64(i)
    case F64(bits) => OnF64(bits)
  }

  ghost function VisitItems<C(!new)>(h: Handler<C>, at: nat, items: seq<Obj>, i: nat, depth: nat, ctx: C, count: nat)
    : (v: Visit<C>)
    requires Tame(h) && depth < MAX_DEPTH && count <= MAX_SUBOBJECTS && i <= |items|
    ensures v.Done? ==> count <= v.count <= MAX_SUBOBJECTS
    decreases MAX_DEPTH - depth, 0, |items| - i
  {
    if i == |items| then
      var r := h(ctx, EndList);
      if r.ret != Ok then Fail(r.ctx, r.ret) else Done(r.ctx, count, List(at, items))
    else
      var r := if i == 0 then Reply(ctx, Ok, ContList) else h(ctx, ContList);
      if r.ret != Ok then Fail(r.ctx, r.ret)
      else if depth + 1 == MAX_DEPTH then Fail(r.ctx, Range)
      else
        var v := VisitObj(h, items[i], depth + 1, r.ctx, count);
        if v.Fail? then v else VisitItems(h, at, items[i := v.obj], i + 1, depth, v.ctx, v.count)
  }

  ghost function VisitPairs<C(!new)>(h: Handler<C>, at: nat, pairs: seq<KV>, i: nat, depth: nat, ctx: C, count: nat)
    : (v: Visit<C>)
    requires Tame(h) && depth < MAX_DEPTH && count <= MAX_SUBOBJECTS && i <= |pairs|
    ensures v.Done? ==> count <= v.count <= MAX_SUBOBJECTS
    decreases MAX_DEPTH - depth, 0, |pairs| - i
  {
    if i == |pairs| then
      var r := h(ctx, EndMap);
      if r.ret != Ok then Fail(r.ctx, r.ret) else Done(r.ctx, count, Map(at, pairs))
    else
      var r := if i == 0 then Reply(ctx, Ok, ContMap) else h(ctx, ContMap);
      if r.ret != Ok then Fail(r.ctx, r.ret)
      else
        var k := h(r.ctx, OnMapKey(pairs[i].keyAt, pairs[i].key));
        assert Keeps(OnMapKey(pairs[i].keyAt, pairs[i].key), k.event);
        if k.ret != Ok then Fail(k.ctx, k.ret)
        else if depth + 1 == MAX_DEPTH then Fail(k.ctx, Range)
        else
          var v := VisitObj(h, pairs[i].val, depth + 1, k.ctx, count);
          if v.Fail? then v
          else VisitPairs(h, at, pairs[i := KV(k.event.at, k.event.bytes, v.obj)], i + 1, depth, v.ctx, v.count)
  }

  // ---------- the explicit stack ----------

  datatype LevelState = Default | InList | InMap

  datatype Level = Level(obj: Obj, state: LevelState, index: nat)

  function Length(o: Obj): nat {
    match o
    case List(_, items) => |items|
    case Map(_, pairs) => |pairs|
    case _ => 0
  }

  predicate LevelOk(l: Level) {
    match l.state
    case Default => l.index == 0
    case InList => l.obj.List? && l.index <= Length(l.obj) <= MAX_SUBOBJECTS
    case InMap => l.obj.Map? && l.index <= Length(l.obj) <= MAX_SUBOBJECTS
  }

  /** The child a level is working on is the one before its index. */
  predicate Waiting(l: Level) {
    LevelOk(l) && l.state != Default && l.index > 0
  }

  /** An element lives inside its parent's memory, so changing it changes the parent. */
  function PutChild(l: Level, child: Obj): (r: Level)
    requires Waiting(l)
    ensures LevelOk(r) && r.state == l.state && r.index == l.index && Length(r.obj) == Length(l.obj)
  {
    if l.state == InList then
      l.(obj := List(l.obj.at, l.obj.items[l.index - 1 := child]))
    else
      var kv := l.obj.pairs[l.index - 1];
      l.(obj := Map(l.obj.at, l.obj.pairs[l.index - 1 := kv.(val := child)]))
  }

  predicate StackOk(levels: seq<Level>) {
    && 1 <= |levels| <= MAX_DEPTH
    && LevelOk(levels[|levels| - 1])
    && forall k :: 0 <= k < |levels| - 1 ==> Waiting(levels[k])
  }

  /** What is still to come at one level. */
  ghost function Continue<C(!new)>(h: Handler<C>, l: Level, depth: nat, ctx: C, count: nat): (v: Visit<C>)
    requires Tame(h) && depth < MAX_DEPTH && count <= MAX_SUBOBJECTS && LevelOk(l)
    ensures v.Done? ==> v.count <= MAX_SUBOBJECTS
  {
    match l.state
    case Default => VisitObj(h, l.obj, depth, ctx, count)
    case InList => VisitItems(h, l.obj.at, l.obj.items, l.index, depth, ctx, count)
    case InMap => VisitPairs(h, l.obj.at, l.obj.pairs, l.index, depth, ctx, count)
  }

  /** The outcome of the whole traversal from a given stack. */
  ghost function Resume<C(!new)>(h: Handler<C>, levels: seq<Level>, ctx: C, count: nat): Visit<C>
    requires Tame(h) && StackOk(levels) && count <= MAX_SUBOBJECTS
    decreases |levels|, 1
  {
    var top := |levels| - 1;
    Unwind(h, levels[..top], Continue(h, levels[top], top, ctx, count))
  }

  ghost function Unwind<C(!new)>(h: Handler<C>, levels: seq<Level>, v: Visit<C>): Visit<C>
    requires Tame(h) && |levels| < MAX_DEPTH && (v.Done? ==> v.count <= MAX_SUBOBJECTS)
    requires forall k :: 0 <= k < |levels| ==> Waiting(levels[k])
    decreases |levels|, 2
  {
    if v.Fail? || levels == [] then v
    else
      var top := |levels| - 1;
      Resume(h, levels[..top] + [PutChild(levels[top], v.obj)], v.ctx, v.count)
  }

  // ---------- termination ----------

  /** What a level still has to do; levels above the top of the stack have nothing. */
  function Digit(levels: seq<Level>, k: nat): (d: int)
    requires StackOk(levels)
    ensures 0 <= d <= 258 && (d == 0 <==> k >= |levels|)
  {
    if k >= |levels| then 0
    else if levels[k].state == Default then 258
    else Length(levels[k].obj) - levels[k].index + 1
  }

  /** The digits of the levels read as a number, the outermost level first. */
  function Rank(levels: seq<Level>, n: nat): nat
    requires StackOk(levels)
  {
    if n == 0 then 0 else 1000 * Rank(levels, n - 1) + Digit(levels, n - 1)
  }

  lemma {:induction false} RankLess(a: seq<Level>, b: seq<Level>, j: nat, n: nat)
    requires StackOk(a) && StackOk(b)
    requires forall k :: 0 <= k < j ==> Digit(a, k) == Digit(b, k)
    requires Digit(a, j) < Digit(b, j)
    ensures if n <= j then Rank(a, n) == Rank(b, n) else Rank(a, n) < Rank(b, n)
  {
    if n > 0 {
      RankLess(a, b, j, n - 1);
    }
  }

  // ---------- one turn of the loop, case by case ----------

  /** The level being worked on. */
  function Top(levels: seq<Level>): Level
    requires levels != []
  {
    levels[|levels| - 1]
  }

  function Below(levels: seq<Level>): seq<Level>
    requires levels != []
  {
    levels[..|levels| - 1]
  }

  lemma Split(below: seq<Level>, l: Level)
    ensures Below(below + [l]) == below && Top(below + [l]) == l
  {
  }

  /** The stack changed, the outcome did not, and less remains to be done. */
  ghost predicate Turn<C(!new)>(h: Handler<C>, from: seq<Level>, ctx: C, count: nat, to: seq<Level>, ctx': C, count': nat)
    requires Tame(h) && StackOk(from) && count <= MAX_SUBOBJECTS
  {
    && StackOk(to) && count' <= MAX_SUBOBJECTS
    && Resume(h, to, ctx', count') == Resume(h, from, ctx, count)
    && Rank(to, MAX_DEPTH) < Rank(from, MAX_DEPTH)
  }

  lemma AtLeaf<C(!new)>(h: Handler<C>, levels: seq<Level>, ctx: C, count: nat, e: Event)
    requires Tame(h) && StackOk(levels) && count <= MAX_SUBOBJECTS && Top(levels).state == Default
    requires !Top(levels).obj.List? && !Top(levels).obj.Map?
    requires e == var o := Top(levels).obj; if o.Buf? then OnBuf(o.at, o.bytes) else Scalar(o)
    ensures Keeps(e, h(ctx, e).event)
    ensures var o, r := Top(levels).obj, h(ctx, e);
            Resume(h, levels, ctx, count) ==
            if r.ret != Ok then Fail(r.ctx, r.ret)
            else Unwind(h, Below(levels), Done(r.ctx, count, if o.Buf? then Buf(r.event.at, r.event.bytes) else o))
  {
  }

  lemma AtList<C(!new)>(h: Handler<C>, levels: seq<Level>, ctx: C, count: nat)
    requires Tame(h) && StackOk(levels) && count <= MAX_SUBOBJECTS
    requires Top(levels).state == Default && Top(levels).obj.List?
    ensures var o := Top(levels).obj; var r := h(ctx, OnList(o.at, o.items));
            if |o.items| > MAX_SUBOBJECTS - count then Resume(h, levels, ctx, count) == Fail(ctx, Range)
            else if r.ret != Ok then Resume(h, levels, ctx, count) == Fail(r.ctx, r.ret)
            else
              && r.event.OnList?
              && var l := Level(List(r.event.at, r.event.items), InList, 0);
                 Turn(h, levels, ctx, count, Below(levels) + [l], r.ctx, count + |o.items|)
  {
    var o := Top(levels).obj;
    var r := h(ctx, OnList(o.at, o.items));
    assert Keeps(OnList(o.at, o.items), r.event);
    if |o.items| <= MAX_SUBOBJECTS - count {
      var next := Below(levels) + [Level(List(r.event.at, r.event.items), InList, 0)];
      Split(Below(levels), Top(next));
      if r.ret == Ok {
        RankLess(next, levels, |levels| - 1, MAX_DEPTH);
      }
    }
  }

  lemma AtMap<C(!new)>(h: Handler<C>, levels: seq<Level>, ctx: C, count: nat)
    requires Tame(h) && StackOk(levels) && count <= MAX_SUBOBJECTS
    requires Top(levels).state == Default && Top(levels).obj.Map?
    ensures var o := Top(levels).obj; var r := h(ctx, OnMap(o.at, o.pairs));
            if |o.pairs| > (MAX_SUBOBJECTS - count) / 2 then Resume(h, levels, ctx, count) == Fail(ctx, Range)
            else if r.ret != Ok then Resume(h, levels, ctx, count) == Fail(r.ctx, r.ret)
            else
              && r.event.OnMap?
              && var l := Level(Map(r.event.at, r.event.pairs), InMap, 0);
                 Turn(h, levels, ctx, count, Below(levels) + [l], r.ctx, count + 2 * |o.pairs|)
  {
    var o := Top(levels).obj;
    var r := h(ctx, OnMap(o.at, o.pairs));
    assert Keeps(OnMap(o.at, o.pairs), r.event);
    if |o.pairs| <= (MAX_SUBOBJECTS - count) / 2 {
      var next := Below(levels) + [Level(Map(r.event.at, r.event.pairs), InMap, 0)];
      Split(Below(levels), Top(next));
      if r.ret == Ok {
        RankLess(next, levels, |levels| - 1, MAX_DEPTH);
      }
    }
  }

  /** A container with no more elements. */
  lemma AtEnd<C(!new)>(h: Handler<C>, levels: seq<Level>, ctx: C, count: nat, e: Event)
    requires Tame(h) && StackOk(levels) && count <= MAX_SUBOBJECTS
    requires Top(levels).state != Default && Top(levels).index == Length(Top(levels).obj)
    requires e == if Top(levels).state == InList then EndList else EndMap
    ensures var r := h(ctx, e);
            Resume(h, levels, ctx, count) ==
            if r.ret != Ok then Fail(r.ctx, r.ret) else Unwind(h, Below(levels), Done(r.ctx, count, Top(levels).obj))
  {
  }

  /** The context after the separator between elements, which is not announced before the first. */
  function Separated<C>(h: Handler<C>, l: Level, ctx: C): Reply<C> {
    if l.index == 0 then Reply(ctx, Ok, ContList) else h(ctx, if l.state == InList then ContList else ContMap)
  }

  /** Two stacked levels resume as the upper one's visit followed by the lower one's continuation. */
  lemma Stacked<C(!new)>(h: Handler<C>, below: seq<Level>, l: Level, child: Obj, ctx: C, count: nat)
    requires Tame(h) && |below| + 1 < MAX_DEPTH && count <= MAX_SUBOBJECTS && Waiting(l)
    requires forall k :: 0 <= k < |below| ==> Waiting(below[k])
    ensures StackOk(below + [l, Level(child, Default, 0)])
    ensures var v := VisitObj(h, child, |below| + 1, ctx, count);
            Resume(h, below + [l, Level(child, Default, 0)], ctx, count) ==
            if v.Fail? then v
            else Unwind(h, below, Continue(h, PutChild(l, v.obj), |below|, v.ctx, v.count))
  {
    var c := Level(child, Default, 0);
    assert below + [l, c] == (below + [l]) + [c];
    Split(below + [l], c);
    Split(below, l);
    var v := VisitObj(h, child, |below| + 1, ctx, count);
    assert Resume(h, below + [l, c], ctx, count) == Unwind(h, below + [l], v);
    if v.Done? {
      Split(below, PutChild(l, v.obj));
    }
  }

  lemma AtItem<C(!new)>(h: Handler<C>, levels: seq<Level>, ctx: C, count: nat)
    requires Tame(h) && StackOk(levels) && count <= MAX_SUBOBJECTS
    requires Top(levels).state == InList && Top(levels).index < Length(Top(levels).obj)
    ensures var l := Top(levels); var s := Separated(h, l, ctx);
            if s.ret != Ok then Resume(h, levels, ctx, count) == Fail(s.ctx, s.ret)
            else if |levels| == MAX_DEPTH then Resume(h, levels, ctx, count) == Fail(s.ctx, Range)
            else
              var next := Below(levels) + [l.(index := l.index + 1), Level(l.obj.items[l.index], Default, 0)];
              Turn(h, levels, ctx, count, next, s.ctx, count)
  {
    var l := Top(levels);
    var s := Separated(h, l, ctx);
    if s.ret == Ok && |levels| < MAX_DEPTH {
      Stacked(h, Below(levels), l.(index := l.index + 1), l.obj.items[l.index], s.ctx, count);
      var next := Below(levels) + [l.(index := l.index + 1), Level(l.obj.items[l.index], Default, 0)];
      RankLess(next, levels, |levels| - 1, MAX_DEPTH);
    }
  }

  lemma AtPair<C(!new)>(h: Handler<C>, levels: seq<Level>, ctx: C, count: nat)
    requires Tame(h) && StackOk(levels) && count <= MAX_SUBOBJECTS
    requires Top(levels).state == InMap && Top(levels).index < Length(Top(levels).obj)
    ensures var l := Top(levels); var s := Separated(h, l, ctx); var kv := l.obj.pairs[l.index];
            var k := h(s.ctx, OnMapKey(kv.keyAt, kv.key));
            if s.ret != Ok then Resume(h, levels, ctx, count) == Fail(s.ctx, s.ret)
            else if k.ret != Ok then Resume(h, levels, ctx, count) == Fail(k.ctx, k.ret)
            else if |levels| == MAX_DEPTH then Resume(h, levels, ctx, count) == Fail(k.ctx, Range)
            else
              && k.event.OnMapKey?
              && var next := Below(levels) + [Keyed(l, k.event), Level(kv.val, Default, 0)];
                 Turn(h, levels, ctx, count, next, k.ctx, count)
  {
    var l := Top(levels);
    var s := Separated(h, l, ctx);
    var kv := l.obj.pairs[l.index];
    var k := h(s.ctx, OnMapKey(kv.keyAt, kv.key));
    assert Keeps(OnMapKey(kv.keyAt, kv.key), k.event);
    if s.ret == Ok && k.ret == Ok && |levels| < MAX_DEPTH {
      Stacked(h, Below(levels), Keyed(l, k.event), kv.val, k.ctx, count);
      RankLess(Below(levels) + [Keyed(l, k.event), Level(kv.val, Default, 0)], levels, |levels| - 1, MAX_DEPTH);
      var v := VisitObj(h, kv.val, |levels|, k.ctx, count);
      if v.Done? {
        assert PutChild(Keyed(l, k.event), v.obj).obj.pairs == l.obj.pairs[l.index := KV(k.event.at, k.event.bytes, v.obj)];
      }
    }
  }

  /** A map level once on_map_key has possibly replaced the key and the value is about to be visited. */
  function Keyed(l: Level, e: Event): (r: Level)
    requires LevelOk(l) && l.state == InMap && l.index < Length(l.obj) && e.OnMapKey?
    ensures Waiting(r) && r.state == InMap && r.index == l.index + 1 && Length(r.obj) == Length(l.obj)
  {
    Level(Map(l.obj.at, l.obj.pairs[l.index := KV(e.at, e.bytes, l.obj.pairs[l.index].val)]), InMap, l.index + 1)
  }

  /** Leaving a finished level hands its object to the level above, or ends the visit. */
  lemma AtPop<C(!new)>(h: Handler<C>, levels: seq<Level>, ctx: C, count: nat, v: Visit<C>)
    requires Tame(h) && StackOk(levels) && count <= MAX_SUBOBJECTS && v.Done? && v.count <= MAX_SUBOBJECTS
    requires Resume(h, levels, ctx, count) == Unwind(h, Below(levels), v)
    ensures |levels| == 1 ==> Resume(h, levels, ctx, count) == v
    ensures |levels| > 1 ==>
              && Waiting(Top(Below(levels)))
              && Turn(h, levels, ctx, count, Below(Below(levels)) + [PutChild(Top(Below(levels)), v.obj)], v.ctx, v.count)
  {
    if |levels| > 1 {
      var below := Below(levels);
      var next := Below(below) + [PutChild(Top(below), v.obj)];
      RankLess(next, levels, |levels| - 1, MAX_DEPTH);
    }
  }

  // ---------- the loop ----------

  ghost predicate Reports<C>(v: Visit<C>, ret: Error, ctx: C, obj: Obj) {
    if ret == Ok then v.Done? && v.ctx == ctx && v.obj == obj else v == Fail(ctx, ret)
  }

  /** IterLevels: parallel arrays of fixed depth and the index of the current level. */
  class IterLevels {
    const obj: array<Obj>
    const state: array<LevelState>
    const elemIndex: array<nat>
    var index: nat

    ghost predicate Valid()
      reads this
    {
      && obj.Length == MAX_DEPTH && state.Length == MAX_DEPTH && elemIndex.Length == MAX_DEPTH
      && index < MAX_DEPTH
      && obj as object != state as object && obj as object != elemIndex as object
      && state as object != elemIndex as object
    }

    ghost function View(): seq<Level>
      requires Valid()
      reads this, obj, state, elemIndex
    {
      seq(index + 1, k requires 0 <= k < obj.Length && k < state.Length && k < elemIndex.Length
                       reads obj, state, elemIndex => Level(obj[k], state[k], elemIndex[k]))
    }

    constructor (root: Obj)
      ensures Valid() && fresh(obj) && fresh(state) && fresh(elemIndex)
      ensures View() == [Level(root, Default, 0)]
    {
      obj := new Obj[MAX_DEPTH](_ => root);
      state := new LevelState[MAX_DEPTH](_ => Default);
      elemIndex := new nat[MAX_DEPTH](_ => 0);
      index := 0;
    }

    method Current() returns (l: Level)
      requires Valid()
      ensures l == Top(View())
    {
      l := Level(obj[index], state[index], elemIndex[index]);
    }

    method SetTop(l: Level)
      requires Valid()
      modifies obj, state, elemIndex
      ensures Valid() && View() == Below(old(View())) + [l]
    {
      obj[index], state[index], elemIndex[index] := l.obj, l.state, l.index;
    }

    method Push(child: Obj)
      requires Valid() && index + 1 < MAX_DEPTH
      modifies this, obj, state, elemIndex
      ensures Valid() && View() == old(View()) + [Level(child, Default, 0)]
    {
      index := index + 1;
      obj[index], state[index], elemIndex[index] := child, Default, 0;
    }

    method Pop()
      requires Valid() && index > 0
      modifies this
      ensures Valid() && View() == Below(old(View()))
    {
      index := index - 1;
    }
  }

  /** How a turn at one level ends: go round again, leave the level with this object, or return. */
  datatype Flow = Again | Leave(obj: Obj) | Return(err: Error)

  ghost predicate Flows<C(!new)>(h: Handler<C>, from: seq<Level>, ctx: C, count: nat,
                                 to: seq<Level>, flow: Flow, ctx': C, count': nat)
    requires Tame(h) && StackOk(from) && count <= MAX_SUBOBJECTS
  {
    match flow
    case Again => Turn(h, from, ctx, count, to, ctx', count')
    case Leave(o) =>
      && to == from && count' <= MAX_SUBOBJECTS
      && Resume(h, from, ctx, count) == Unwind(h, Below(from), Done(ctx', count', o))
    case Return(err) => err != Ok && Resume(h, from, ctx, count) == Fail(ctx', err)
  }

  method DefaultLevel<C(!new)>(h: Handler<C>, levels: IterLevels, o: Obj, start: C, n: nat)
    returns (flow: Flow, ctx: C, count: nat)
    requires Tame(h) && levels.Valid() && StackOk(levels.View()) && n <= MAX_SUBOBJECTS
    requires Top(levels.View()).state == Default && Top(levels.View()).obj == o
    modifies levels, levels.obj, levels.state, levels.elemIndex
    ensures levels.Valid() && Flows(h, old(levels.View()), start, n, levels.View(), flow, ctx, count)
  {
    hide Resume, Unwind, Rank;
    count := n;
    if o.List? {
      AtList(h, levels.View(), start, n);
      if |o.items| > MAX_SUBOBJECTS - count {
        return Return(Range), start, count;
      }
      count := count + |o.items|;
      var r := h(start, OnList(o.at, o.items));
      if r.ret != Ok {
        return Return(r.ret), r.ctx, count;
      }
      levels.SetTop(Level(List(r.event.at, r.event.items), InList, 0));
      return Again, r.ctx, count;
    }
    if o.Map? {
      AtMap(h, levels.View(), start, n);
      if |o.pairs| > (MAX_SUBOBJECTS - count) / 2 {
        return Return(Range), start, count;
      }
      count := count + 2 * |o.pairs|;
      var r := h(start, OnMap(o.at, o.pairs));
      if r.ret != Ok {
        return Return(r.ret), r.ctx, count;
      }
      levels.SetTop(Level(Map(r.event.at, r.event.pairs), InMap, 0));
      return Again, r.ctx, count;
    }
    var e := if o.Buf? then OnBuf(o.at, o.bytes) else Scalar(o);
    AtLeaf(h, levels.View(), start, n, e);
    var r := h(start, e);
    if r.ret != Ok {
      return Return(r.ret), r.ctx, count;
    }
    return Leave(if o.Buf? then Buf(r.event.at, r.event.bytes) else o), r.ctx, count;
  }

  method ListLevel<C(!new)>(h: Handler<C>, levels: IterLevels, l: Level, start: C, count: nat)
    returns (flow: Flow, ctx: C)
    requires Tame(h) && levels.Valid() && StackOk(levels.View()) && count <= MAX_SUBOBJECTS
    requires Top(levels.View()) == l && l.state == InList
    modifies levels, levels.obj, levels.state, levels.elemIndex
    ensures levels.Valid() && Flows(h, old(levels.View()), start, count, levels.View(), flow, ctx, count)
  {
    hide Resume, Unwind, Rank;
    ctx := start;
    if l.index == |l.obj.items| {
      AtEnd(h, levels.View(), ctx, count, EndList);
      var r := h(ctx, EndList);
      return if r.ret != Ok then Return(r.ret) else Leave(l.obj), r.ctx;
    }
    AtItem(h, levels.View(), ctx, count);
    if l.index != 0 {
      var r := h(ctx, ContList);
      ctx := r.ctx;
      if r.ret != Ok {
        return Return(r.ret), ctx;
      }
    }
    if levels.index + 1 == MAX_DEPTH {
      return Return(Range), ctx;
    }
    ghost var below := Below(levels.View());
    levels.SetTop(l.(index := l.index + 1));
    levels.Push(l.obj.items[l.index]);
    assert levels.View() == below + [l.(index := l.index + 1), Level(l.obj.items[l.index], Default, 0)];
    flow := Again;
  }

  method MapLevel<C(!new)>(h: Handler<C>, levels: IterLevels, l: Level, start: C, count: nat)
    returns (flow: Flow, ctx: C)
    requires Tame(h) && levels.Valid() && StackOk(levels.View()) && count <= MAX_SUBOBJECTS
    requires Top(levels.View()) == l && l.state == InMap
    modifies levels, levels.obj, levels.state, levels.elemIndex
    ensures levels.Valid() && Flows(h, old(levels.View()), start, count, levels.View(), flow, ctx, count)
  {
    hide Resume, Unwind, Rank;
    ctx := start;
    if l.index == |l.obj.pairs| {
      AtEnd(h, levels.View(), ctx, count, EndMap);
      var r := h(ctx, EndMap);
      return if r.ret != Ok then Return(r.ret) else Leave(l.obj), r.ctx;
    }
    AtPair(h, levels.View(), ctx, count);
    if l.index != 0 {
      var r := h(ctx, ContMap);
      ctx := r.ctx;
      if r.ret != Ok {
        return Return(r.ret), ctx;
      }
    }
    var kv := l.obj.pairs[l.index];
    var k := h(ctx, OnMapKey(kv.keyAt, kv.key));
    ctx := k.ctx;
    if k.ret != Ok {
      return Return(k.ret), ctx;
    }
    if levels.index + 1 == MAX_DEPTH {
      return Return(Range), ctx;
    }
    ghost var below := Below(levels.View());
    levels.SetTop(Keyed(l, k.event));
    levels.Push(kv.val);
    assert levels.View() == below + [Keyed(l, k.event), Level(kv.val, Default, 0)];
    flow := Again;
  }

  /** A finished level hands its object to the level above, if there is one. */
  method LeaveLevel<C(!new)>(h: Handler<C>, levels: IterLevels, o: Obj, ghost ctx0: C, ghost count0: nat, ghost ctx: C, ghost count: nat)
    returns (finished: bool)
    requires Tame(h) && levels.Valid() && StackOk(levels.View()) && count0 <= MAX_SUBOBJECTS && count <= MAX_SUBOBJECTS
    requires Resume(h, levels.View(), ctx0, count0) == Unwind(h, Below(levels.View()), Done(ctx, count, o))
    modifies levels, levels.obj, levels.state, levels.elemIndex
    ensures levels.Valid()
    ensures finished ==> Resume(h, old(levels.View()), ctx0, count0) == Done(ctx, count, o)
    ensures !finished ==> Turn(h, old(levels.View()), ctx0, count0, levels.View(), ctx, count)
  {
    hide Resume, Unwind, Rank;
    AtPop(h, levels.View(), ctx0, count0, Done(ctx, count, o));
    if levels.index == 0 {
      return true;
    }
    levels.Pop();
    var parent := levels.Current();
    levels.SetTop(PutChild(parent, o));
    finished := false;
  }

  method VisitLoop<C(!new)>(h: Handler<C>, root: Obj, start: C) returns (ret: Error, ctx: C, obj: Obj)
    requires Tame(h)
    ensures Reports(VisitObj(h, root, 0, start, 0), ret, ctx, obj)
  {
    var levels := new IterLevels(root);
    var count: nat := 0;
    ctx, obj := start, root;
    ghost var goal := VisitObj(h, root, 0, start, 0);
    assert levels.View()[..0] == [];
    assert Resume(h, levels.View(), ctx, count) == goal;
    hide Resume, Unwind, Rank, VisitObj;
    while true
      invariant levels.Valid() && fresh(levels) && fresh(levels.obj) && fresh(levels.state) && fresh(levels.elemIndex)
      invariant StackOk(levels.View()) && count <= MAX_SUBOBJECTS
      invariant Resume(h, levels.View(), ctx, count) == goal
      decreases Rank(levels.View(), MAX_DEPTH)
    {
      ghost var from, ctx0, count0 := levels.View(), ctx, count;
      var l := levels.Current();
      var flow;
      match l.state {
        case Default => flow, ctx, count := DefaultLevel(h, levels, l.obj, ctx, count);
        case InList => flow, ctx := ListLevel(h, levels, l, ctx, count);
        case InMap => flow, ctx := MapLevel(h, levels, l, ctx, count);
      }
      match flow {
        case Again =>
        case Return(err) => return err, ctx, obj;
        case Leave(o) =>
          var finished := LeaveLevel(h, levels, o, ctx0, count0, ctx, count);
          if finished {
            return Ok, ctx, o;
          }
      }
    }
  }
}
