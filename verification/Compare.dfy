/** gg_obj_eq: simultaneous comparison of two trees with one explicit stack. */
module Compare {
  import opened Common
  import opened Objects
  import opened Visitor

  // ---------- structural equality ----------

  const SIGN_BIT := 0x8000_0000_0000_0000
  const INFINITY := 0x7FF0_0000_0000_0000

  function Magnitude(bits: nat): nat {
    bits % SIGN_BIT
  }

  predicate IsNaN(bits: nat) {
    Magnitude(bits) > INFINITY
  }

  /** Comparison of doubles given by their IEEE 754 bit patterns: NaN differs from itself, the zeros agree. */
  predicate SameF64(a: nat, b: nat) {
    !IsNaN(a) && !IsNaN(b) && (a == b || (Magnitude(a) == 0 && Magnitude(b) == 0))
  }

  /** The signed zeros agree, NaNs differ from everything, infinities and all others agree with themselves only. */
  lemma KnownFloats(a: nat, b: nat)
    ensures SameF64(0, 0x8000_0000_0000_0000) && SameF64(0x8000_0000_0000_0000, 0)
    ensures SameF64(0x7FF0_0000_0000_0000, 0x7FF0_0000_0000_0000) && !SameF64(0x7FF0_0000_0000_0000, 0xFFF0_0000_0000_0000)
    ensures 0x7FF0_0000_0000_0000 < a < 0x8000_0000_0000_0000 ==> !SameF64(a, b) && !SameF64(b, a)
    ensures 0xFFF0_0000_0000_0000 < a < 0x1_0000_0000_0000_0000 ==> !SameF64(a, b) && !SameF64(b, a)
    ensures 0 < a <= 0x7FF0_0000_0000_0000 ==> (SameF64(a, b) <==> a == b)
    ensures 0x8000_0000_0000_0000 < a <= 0xFFF0_0000_0000_0000 ==> (SameF64(a, b) <==> a == b)
  {
  }

  /** Equal content; addresses do not matter. */
  predicate Same(l: Obj, r: Obj)
    decreases l, 1
  {
    match l
    case Null => r.Null?
    case Bool(b) => r.Bool? && b == r.b
    case I64(i) => r.I64? && i == r.i
    case F64(bits) => r.F64? && SameF64(bits, r.bits)
    case Buf(_, bytes) => r.Buf? && bytes == r.bytes
    case List(_, items) => r.List? && |items| == |r.items| && SameItems(items, r.items)
    case Map(_, pairs) => r.Map? && |pairs| == |r.pairs| && SamePairs(pairs, r.pairs)
  }

  predicate SameItems(a: seq<Obj>, b: seq<Obj>)
    requires |a| == |b|
    decreases a, 0
  {
    a == [] || (Same(a[0], b[0]) && SameItems(a[1..], b[1..]))
  }

  predicate SamePairs(a: seq<KV>, b: seq<KV>)
    requires |a| == |b|
    decreases a, 0
  {
    a == [] || (a[0].key == b[0].key && Same(a[0].val, b[0].val) && SamePairs(a[1..], b[1..]))
  }

  // ---------- the comparison as recursion, with the limits on the left tree ----------

  function EqObj(l: Obj, r: Obj, depth: nat, count: nat): (v: Option<nat>)
    requires depth < MAX_DEPTH && count <= MAX_SUBOBJECTS
    ensures v.Some? ==> count <= v.value <= MAX_SUBOBJECTS
    decreases l, 0
  {
    match l
    case List(_, items) =>
      if !r.List? || |items| > MAX_SUBOBJECTS - count || |items| != |r.items| then None
      else EqItems(items, r.items, 0, depth, count + |items|)
    case Map(_, pairs) =>
      if !r.Map? || |pairs| > (MAX_SUBOBJECTS - count) / 2 || |pairs| != |r.pairs| then None
      else EqPairs(pairs, r.pairs, 0, depth, count + 2 * |pairs|)
    case _ =>
      if Same(l, r) then Some(count) else None
  }

  function EqItems(a: seq<Obj>, b: seq<Obj>, i: nat, depth: nat, count: nat): (v: Option<nat>)
    requires i <= |a| == |b| && depth < MAX_DEPTH && count <= MAX_SUBOBJECTS
    ensures v.Some? ==> count <= v.value <= MAX_SUBOBJECTS
    decreases a, |a| - i
  {
    if i == |a| then Some(count)
    else if depth + 1 == MAX_DEPTH then None
    else
      var v := EqObj(a[i], b[i], depth + 1, count);
      if v.None? then None else EqItems(a, b, i + 1, depth, v.value)
  }

  function EqPairs(a: seq<KV>, b: seq<KV>, i: nat, depth: nat, count: nat): (v: Option<nat>)
    requires i <= |a| == |b| && depth < MAX_DEPTH && count <= MAX_SUBOBJECTS
    ensures v.Some? ==> count <= v.value <= MAX_SUBOBJECTS
    decreases a, |a| - i
  {
    if i == |a| then Some(count)
    else if a[i].key != b[i].key || depth + 1 == MAX_DEPTH then None
    else
      assert a[i].val < a[i];
      var v := EqObj(a[i].val, b[i].val, depth + 1, count);
      if v.None? then None else EqPairs(a, b, i + 1, depth, v.value)
  }

  /** Comparison succeeds exactly when the left tree fits and the contents agree. */
  lemma {:induction false} EqMeets(l: Obj, r: Obj, depth: nat, count: nat)
    requires depth < MAX_DEPTH && count <= MAX_SUBOBJECTS
    ensures EqObj(l, r, depth, count) ==
            if depth + Depth(l) <= MAX_DEPTH && count + Count(l) <= MAX_SUBOBJECTS && Same(l, r)
            then Some(count + Count(l)) else None
    decreases l, 0
  {
    if l.List? {
      if r.List? && |l.items| <= MAX_SUBOBJECTS - count && |l.items| == |r.items| {
        assert l.items[0..] == l.items && r.items[0..] == r.items;
        EqItemsMeets(l.items, r.items, 0, depth, count + |l.items|);
      }
    } else if l.Map? {
      if r.Map? && |l.pairs| <= (MAX_SUBOBJECTS - count) / 2 && |l.pairs| == |r.pairs| {
        assert l.pairs[0..] == l.pairs && r.pairs[0..] == r.pairs;
        EqPairsMeets(l.pairs, r.pairs, 0, depth, count + 2 * |l.pairs|);
      }
    }
  }

  lemma {:induction false} EqItemsMeets(a: seq<Obj>, b: seq<Obj>, i: nat, depth: nat, count: nat)
    requires i <= |a| == |b| && depth < MAX_DEPTH && count <= MAX_SUBOBJECTS
    ensures EqItems(a, b, i, depth, count) ==
            if depth + 1 + DepthItems(a[i..]) <= MAX_DEPTH && count + CountItems(a[i..]) <= MAX_SUBOBJECTS
               && SameItems(a[i..], b[i..])
            then Some(count + CountItems(a[i..])) else None
    decreases a, |a| - i
  {
    hide EqObj, Same, Depth, Count;
    if i < |a| {
      assert a[i..][0] == a[i] && a[i..][1..] == a[i + 1..] && b[i..][0] == b[i] && b[i..][1..] == b[i + 1..];
      if depth + 1 < MAX_DEPTH {
        EqMeets(a[i], b[i], depth + 1, count);
        var v := EqObj(a[i], b[i], depth + 1, count);
        if v.Some? {
          EqItemsMeets(a, b, i + 1, depth, v.value);
        }
      }
    }
  }

  lemma {:induction false} EqPairsMeets(a: seq<KV>, b: seq<KV>, i: nat, depth: nat, count: nat)
    requires i <= |a| == |b| && depth < MAX_DEPTH && count <= MAX_SUBOBJECTS
    ensures EqPairs(a, b, i, depth, count) ==
            if depth + 1 + DepthPairs(a[i..]) <= MAX_DEPTH && count + CountPairs(a[i..]) <= MAX_SUBOBJECTS
               && SamePairs(a[i..], b[i..])
            then Some(count + CountPairs(a[i..])) else None
    decreases a, |a| - i
  {
    hide EqObj, Same, Depth, Count;
    if i < |a| {
      assert a[i..][0] == a[i] && a[i..][1..] == a[i + 1..] && b[i..][0] == b[i] && b[i..][1..] == b[i + 1..];
      if a[i].key == b[i].key && depth + 1 < MAX_DEPTH {
        assert a[i].val < a[i];
        EqMeets(a[i].val, b[i].val, depth + 1, count);
        var v := EqObj(a[i].val, b[i].val, depth + 1, count);
        if v.Some? {
          EqPairsMeets(a, b, i + 1, depth, v.value);
        }
      }
    }
  }

  // ---------- the explicit stack ----------

  /** A level of the left tree beside the right tree's object at that level. */
  predicate Beside(l: Level, r: Obj) {
    && LevelOk(l)
    && (l.state == InList ==> r.List? && |r.items| == |l.obj.items|)
    && (l.state == InMap ==> r.Map? && |r.pairs| == |l.obj.pairs|)
  }

  predicate StacksOk(levels: seq<Level>, rhs: seq<Obj>) {
    StackOk(levels) && |rhs| == |levels| && forall k :: 0 <= k < |levels| ==> Beside(levels[k], rhs[k])
  }

  function EqContinue(l: Level, r: Obj, depth: nat, count: nat): (v: Option<nat>)
    requires Beside(l, r) && depth < MAX_DEPTH && count <= MAX_SUBOBJECTS
    ensures v.Some? ==> v.value <= MAX_SUBOBJECTS
  {
    match l.state
    case Default => EqObj(l.obj, r, depth, count)
    case InList => EqItems(l.obj.items, r.items, l.index, depth, count)
    case InMap => EqPairs(l.obj.pairs, r.pairs, l.index, depth, count)
  }

  /** The verdict still to come from a given stack. */
  function EqResume(levels: seq<Level>, rhs: seq<Obj>, count: nat): bool
    requires StacksOk(levels, rhs) && count <= MAX_SUBOBJECTS
    decreases |levels|
  {
    var top := |levels| - 1;
    var v := EqContinue(levels[top], rhs[top], top, count);
    v.Some? && (top == 0 || EqResume(levels[..top], rhs[..top], v.value))
  }

  ghost predicate EqTurn(levels: seq<Level>, rhs: seq<Obj>, count: nat, levels': seq<Level>, rhs': seq<Obj>, count': nat)
    requires StacksOk(levels, rhs) && count <= MAX_SUBOBJECTS
  {
    && StacksOk(levels', rhs') && count' <= MAX_SUBOBJECTS
    && EqResume(levels', rhs', count') == EqResume(levels, rhs, count)
    && Rank(levels', MAX_DEPTH) < Rank(levels, MAX_DEPTH)
  }

  lemma EqEnter(levels: seq<Level>, rhs: seq<Obj>, count: nat, l: Level, count': nat)
    requires StacksOk(levels, rhs) && count <= MAX_SUBOBJECTS && Top(levels).state == Default
    requires l.state != Default && l.index == 0 && l.obj == Top(levels).obj && Beside(l, rhs[|rhs| - 1]) && count' <= MAX_SUBOBJECTS
    requires EqContinue(l, rhs[|rhs| - 1], |levels| - 1, count') == EqObj(l.obj, rhs[|rhs| - 1], |levels| - 1, count)
    ensures EqTurn(levels, rhs, count, Below(levels) + [l], rhs, count')
  {
    var next := Below(levels) + [l];
    Split(Below(levels), l);
    RankLess(next, levels, |levels| - 1, MAX_DEPTH);
  }

  lemma EqPush(levels: seq<Level>, rhs: seq<Obj>, count: nat, child: Obj, other: Obj)
    requires StacksOk(levels, rhs) && count <= MAX_SUBOBJECTS && |levels| < MAX_DEPTH
    requires Top(levels).state != Default && Top(levels).index < Length(Top(levels).obj)
    requires var l, r := Top(levels), rhs[|rhs| - 1];
             if l.state == InList then child == l.obj.items[l.index] && other == r.items[l.index]
             else child == l.obj.pairs[l.index].val && other == r.pairs[l.index].val
                  && l.obj.pairs[l.index].key == r.pairs[l.index].key
    ensures var next := Below(levels) + [Top(levels).(index := Top(levels).index + 1), Level(child, Default, 0)];
            EqTurn(levels, rhs, count, next, rhs + [other], count)
  {
    var top, l := |levels| - 1, Top(levels).(index := Top(levels).index + 1);
    var c := Level(child, Default, 0);
    var next := Below(levels) + [l, c];
    assert next == (Below(levels) + [l]) + [c];
    Split(Below(levels) + [l], c);
    Split(Below(levels), l);
    assert (rhs + [other])[..top + 1] == rhs;
    RankLess(next, levels, top, MAX_DEPTH);
    assert EqResume(next, rhs + [other], count) == EqResume(levels, rhs, count) by {
      hide Rank, EqObj;
    }
  }

  lemma EqPop(levels: seq<Level>, rhs: seq<Obj>, count: nat)
    requires StacksOk(levels, rhs) && count <= MAX_SUBOBJECTS
    requires EqContinue(Top(levels), rhs[|rhs| - 1], |levels| - 1, count) == Some(count)
    ensures |levels| == 1 ==> EqResume(levels, rhs, count)
    ensures |levels| > 1 ==> EqTurn(levels, rhs, count, Below(levels), rhs[..|rhs| - 1], count)
  {
    if |levels| > 1 {
      RankLess(Below(levels), levels, |levels| - 1, MAX_DEPTH);
    }
  }

  // ---------- the loop ----------

  /** How a turn ends: carry on with the stack, leave the level, or answer false. */
  datatype Verdict = Deeper | Agree | Differ

  ghost predicate Judges(levels: seq<Level>, rhs: seq<Obj>, count: nat,
                         levels': seq<Level>, rhs': seq<Obj>, verdict: Verdict, count': nat)
    requires StacksOk(levels, rhs) && count <= MAX_SUBOBJECTS
  {
    match verdict
    case Deeper => EqTurn(levels, rhs, count, levels', rhs', count')
    case Agree =>
      && levels' == levels && rhs' == rhs && count' == count
      && EqContinue(Top(levels), rhs[|rhs| - 1], |levels| - 1, count) == Some(count)
    case Differ => !EqResume(levels, rhs, count)
  }

  method CompareDefault(levels: IterLevels, level: Level, r: Obj, n: nat, ghost rhs: seq<Obj>) returns (verdict: Verdict, count: nat)
    requires levels.Valid() && StacksOk(levels.View(), rhs) && n <= MAX_SUBOBJECTS
    requires Top(levels.View()) == level && level.state == Default && rhs[|rhs| - 1] == r
    modifies levels.obj, levels.state, levels.elemIndex
    ensures levels.Valid() && Judges(old(levels.View()), rhs, n, levels.View(), rhs, verdict, count)
  {
    hide Rank;
    var l := level.obj;
    count := n;
    if l.List? {
      if !r.List? || |l.items| > MAX_SUBOBJECTS - count || |l.items| != |r.items| {
        return Differ, count;
      }
      count := count + |l.items|;
      EqEnter(levels.View(), rhs, n, Level(l, InList, 0), count);
      levels.SetTop(Level(l, InList, 0));
      return Deeper, count;
    }
    if l.Map? {
      if !r.Map? || |l.pairs| > (MAX_SUBOBJECTS - count) / 2 || |l.pairs| != |r.pairs| {
        return Differ, count;
      }
      count := count + 2 * |l.pairs|;
      EqEnter(levels.View(), rhs, n, Level(l, InMap, 0), count);
      levels.SetTop(Level(l, InMap, 0));
      return Deeper, count;
    }
    verdict := if Same(l, r) then Agree else Differ;
  }

  method CompareElement(levels: IterLevels, l: Level, r: Obj, count: nat, ghost rhs: seq<Obj>)
    returns (verdict: Verdict, next: Obj)
    requires levels.Valid() && StacksOk(levels.View(), rhs) && count <= MAX_SUBOBJECTS
    requires Top(levels.View()) == l && l.state != Default && rhs[|rhs| - 1] == r
    modifies levels, levels.obj, levels.state, levels.elemIndex
    ensures levels.Valid()
    ensures Judges(old(levels.View()), rhs, count, levels.View(), if verdict == Deeper then rhs + [next] else rhs, verdict, count)
  {
    hide Rank;
    next := r;
    if l.index == Length(l.obj) {
      return Agree, next;
    }
    var child: Obj;
    if l.state == InList {
      child, next := l.obj.items[l.index], r.items[l.index];
    } else {
      if l.obj.pairs[l.index].key != r.pairs[l.index].key {
        return Differ, next;
      }
      child, next := l.obj.pairs[l.index].val, r.pairs[l.index].val;
    }
    if levels.index >= MAX_DEPTH - 1 {
      return Differ, next;
    }
    EqPush(levels.View(), rhs, count, child, next);
    ghost var below := Below(levels.View());
    levels.SetTop(l.(index := l.index + 1));
    levels.Push(child);
    assert levels.View() == below + [l.(index := l.index + 1), Level(child, Default, 0)];
    verdict := Deeper;
  }

  ghost predicate Apart(levels: IterLevels, others: array<Obj>) {
    && others as object != levels.obj as object && others as object != levels.state as object
    && others as object != levels.elemIndex as object
  }

  /** One turn: Agree here means that the root has been left. */
  method CompareTurn(levels: IterLevels, others: array<Obj>, n: nat) returns (verdict: Verdict, count: nat)
    requires levels.Valid() && others.Length == MAX_DEPTH && Apart(levels, others) && n <= MAX_SUBOBJECTS
    requires StacksOk(levels.View(), others[..levels.index + 1])
    modifies levels, levels.obj, levels.state, levels.elemIndex, others
    ensures levels.Valid()
    ensures verdict == Deeper ==>
              EqTurn(old(levels.View()), old(others[..levels.index + 1]), n, levels.View(), others[..levels.index + 1], count)
    ensures verdict != Deeper ==> (EqResume(old(levels.View()), old(others[..levels.index + 1]), n) <==> verdict == Agree)
  {
    hide EqResume, Rank, EqContinue, EqObj, StackOk, Beside, LevelOk, Waiting;
    ghost var from, right := levels.View(), others[..levels.index + 1];
    var l := levels.Current();
    var r := others[levels.index];
    if l.state == Default {
      verdict, count := CompareDefault(levels, l, r, n, right);
    } else {
      count := n;
      var next;
      verdict, next := CompareElement(levels, l, r, n, right);
      if verdict == Deeper {
        others[levels.index] := next;
        assert others[..levels.index + 1] == right + [next];
      }
    }
    if verdict == Agree {
      EqPop(from, right, n);
      if levels.index > 0 {
        levels.Pop();
        assert others[..levels.index + 1] == right[..|right| - 1];
        verdict := Deeper;
      }
    }
  }

  method CompareLoop(lhs: Obj, rhs: Obj) returns (equal: bool)
    ensures equal <==> EqObj(lhs, rhs, 0, 0).Some?
  {
    var levels := new IterLevels(lhs);
    var others := new Obj[MAX_DEPTH](_ => rhs);
    var count: nat := 0;
    assert others[..1] == [rhs];
    assert EqResume(levels.View(), others[..1], 0) == EqObj(lhs, rhs, 0, 0).Some?;
    hide EqResume, Rank, EqObj, StackOk, Beside;
    while true
      invariant levels.Valid() && fresh(levels) && fresh(levels.obj) && fresh(levels.state) && fresh(levels.elemIndex)
      invariant Apart(levels, others) && count <= MAX_SUBOBJECTS
      invariant StacksOk(levels.View(), others[..levels.index + 1])
      invariant EqResume(levels.View(), others[..levels.index + 1], count) == EqObj(lhs, rhs, 0, 0).Some?
      decreases Rank(levels.View(), MAX_DEPTH)
    {
      var verdict;
      verdict, count := CompareTurn(levels, others, count);
      if verdict != Deeper {
        return verdict == Agree;
      }
    }
  }

  /** gg_obj_eq is true exactly when the left tree is within the limits and the contents agree. */
  method ObjEq(lhs: Obj, rhs: Obj) returns (equal: bool)
    ensures equal <==> WithinLimits(lhs) && Same(lhs, rhs)
  {
    EqMeets(lhs, rhs, 0, 0);
    equal := CompareLoop(lhs, rhs);
  }
}
