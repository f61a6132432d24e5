/**
 What canonical form is for: two trees mean the same, whatever the order of their pairs and however
 many shadowed duplicates they carry, exactly when their canonical forms have equal content.
 */
module Equivalence {
  import opened Common
  import opened Objects
  import opened MapOrder
  import opened DeepCanonical
  import Compare

  // ---------- trees without floating point ----------

  predicate FloatFree(o: Obj)
    decreases o, 1
  {
    match o
    case F64(_) => false
    case List(_, items) => ItemsFloatFree(items)
    case Map(_, pairs) => PairsFloatFree(pairs)
    case _ => true
  }

  predicate ItemsFloatFree(items: seq<Obj>)
    decreases items, 0
  {
    items == [] || (FloatFree(items[0]) && ItemsFloatFree(items[1..]))
  }

  predicate PairsFloatFree(pairs: seq<KV>)
    decreases pairs, 0
  {
    pairs == [] || (FloatFree(pairs[0].val) && PairsFloatFree(pairs[1..]))
  }

  lemma {:induction false} SameIsErasedEqual(l: Obj, r: Obj)
    requires FloatFree(l)
    ensures Compare.Same(l, r) <==> Erase(l) == Erase(r)
    decreases l, 1
  {
    if l.List? && r.List? {
      if |l.items| == |r.items| {
        SameItemsErased(l.items, r.items);
      }
    } else if l.Map? && r.Map? {
      if |l.pairs| == |r.pairs| {
        SamePairsErased(l.pairs, r.pairs);
      }
    }
  }

  lemma {:induction false} SameItemsErased(a: seq<Obj>, b: seq<Obj>)
    requires |a| == |b| && ItemsFloatFree(a)
    ensures Compare.SameItems(a, b) <==> EraseItems(a) == EraseItems(b)
    decreases a, 0
  {
    if a != [] {
      SameIsErasedEqual(a[0], b[0]);
      SameItemsErased(a[1..], b[1..]);
      assert EraseItems(a) == [Erase(a[0])] + EraseItems(a[1..]) && EraseItems(b) == [Erase(b[0])] + EraseItems(b[1..]);
      assert EraseItems(a)[1..] == EraseItems(a[1..]) && EraseItems(b)[1..] == EraseItems(b[1..]);
    }
  }

  lemma {:induction false} SamePairsErased(a: seq<KV>, b: seq<KV>)
    requires |a| == |b| && PairsFloatFree(a)
    ensures Compare.SamePairs(a, b) <==> ErasePairs(a) == ErasePairs(b)
    decreases a, 0
  {
    if a != [] {
      SameIsErasedEqual(a[0].val, b[0].val);
      SamePairsErased(a[1..], b[1..]);
      assert ErasePairs(a) == [EraseKV(a[0])] + ErasePairs(a[1..]) && ErasePairs(b) == [EraseKV(b[0])] + ErasePairs(b[1..]);
      assert ErasePairs(a)[1..] == ErasePairs(a[1..]) && ErasePairs(b)[1..] == ErasePairs(b[1..]);
    }
  }

  // ---------- erasing addresses commutes with canonicalising ----------

  lemma {:induction false} ErasePut(kv: KV, pairs: seq<KV>)
    ensures ErasePairs(Put(kv, pairs)) == Put(EraseKV(kv), ErasePairs(pairs))
  {
    if pairs != [] {
      assert ErasePairs(pairs)[1..] == ErasePairs(pairs[1..]);
      if pairs[0].key != kv.key && !KeyLess(kv.key, pairs[0].key) {
        ErasePut(kv, pairs[1..]);
        assert Put(kv, pairs)[1..] == Put(kv, pairs[1..]);
      } else if pairs[0].key == kv.key {
        assert Put(kv, pairs)[1..] == pairs[1..];
      } else {
        assert Put(kv, pairs)[1..] == pairs;
      }
    }
  }

  lemma {:induction false} EraseCanon(pairs: seq<KV>)
    ensures ErasePairs(Canon(pairs)) == Canon(ErasePairs(pairs))
  {
    if pairs != [] {
      EraseCanon(pairs[1..]);
      ErasePut(pairs[0], Canon(pairs[1..]));
      assert ErasePairs(pairs)[1..] == ErasePairs(pairs[1..]);
    }
  }

  // ---------- meaning ----------

  /** Trees that mean the same: lists element by element, maps by what every key stands for. */
  ghost predicate Equiv(a: Obj, b: Obj)
    decreases a, 1
  {
    match a
    case List(_, items) =>
      b.List? && |items| == |b.items| && forall i :: 0 <= i < |items| ==> Equiv(items[i], b.items[i])
    case Map(_, pairs) =>
      b.Map? && forall key ::
        var x, y := Lookup(pairs, key), Lookup(b.pairs, key);
        x.None? == y.None? && (x.Some? ==> (LookupSmaller(pairs, key); Equiv(x.value.val, y.value.val)))
    case _ => Erase(a) == Erase(b)
  }

  lemma {:induction false} LookupSmaller(pairs: seq<KV>, key: bytes)
    ensures Lookup(pairs, key).Some? ==> Lookup(pairs, key).value in pairs
  {
    if pairs != [] && pairs[0].key != key {
      LookupSmaller(pairs[1..], key);
    }
  }

  /** The content of a tree's canonical form. */
  function Norm(o: Obj): Obj {
    Erase(DeepCanon(o))
  }

  function NormKV(kv: KV): KV {
    EraseKV(DeepKV(kv))
  }

  function NormPairs(pairs: seq<KV>): seq<KV> {
    ErasePairs(DeepPairs(pairs))
  }

  lemma {:induction false} NormLookup(pairs: seq<KV>, key: bytes)
    ensures var x := Lookup(pairs, key);
            Lookup(NormPairs(pairs), key) == if x.None? then None else Some(NormKV(x.value))
  {
    if pairs != [] {
      assert DeepPairs(pairs)[1..] == DeepPairs(pairs[1..]);
      assert NormPairs(pairs)[0] == NormKV(pairs[0]) && NormPairs(pairs)[1..] == NormPairs(pairs[1..]);
      if pairs[0].key != key {
        NormLookup(pairs[1..], key);
      }
    }
  }

  lemma NormMap(at: nat, pairs: seq<KV>)
    ensures Norm(Map(at, pairs)) == Map(0, Canon(NormPairs(pairs)))
  {
    EraseCanon(DeepPairs(pairs));
  }

  lemma {:induction false} NormItems(a: seq<Obj>, b: seq<Obj>)
    requires |a| == |b|
    ensures EraseItems(DeepItems(a)) == EraseItems(DeepItems(b)) <==> forall i :: 0 <= i < |a| ==> Norm(a[i]) == Norm(b[i])
  {
    var x, y := EraseItems(DeepItems(a)), EraseItems(DeepItems(b));
    forall i | 0 <= i < |a| ensures x[i] == Norm(a[i]) && y[i] == Norm(b[i]) {
      DeepItemsAt(a, i);
      DeepItemsAt(b, i);
    }
    if x != y {
      assert exists i :: 0 <= i < |x| && x[i] != y[i];
    }
  }

  /** Two maps give a key values with the same canonical content, or neither has the key. */
  ghost predicate NormAgree(a: seq<KV>, b: seq<KV>, key: bytes) {
    var x, y := Lookup(a, key), Lookup(b, key);
    x.None? == y.None? && (x.Some? ==> Norm(x.value.val) == Norm(y.value.val))
  }

  lemma NormAgreeLookup(a: seq<KV>, b: seq<KV>, key: bytes)
    ensures NormAgree(a, b, key) <==> Lookup(NormPairs(a), key) == Lookup(NormPairs(b), key)
  {
    NormLookup(a, key);
    NormLookup(b, key);
  }

  lemma NormPairsLookups(a: seq<KV>, b: seq<KV>)
    ensures Canon(NormPairs(a)) == Canon(NormPairs(b)) <==> forall key :: NormAgree(a, b, key)
  {
    CanonIsNormalForm(NormPairs(a), NormPairs(b));
    forall key ensures NormAgree(a, b, key) <==> Lookup(NormPairs(a), key) == Lookup(NormPairs(b), key) {
      NormAgreeLookup(a, b, key);
    }
    if forall key :: NormAgree(a, b, key) {
      forall key ensures Lookup(NormPairs(a), key) == Lookup(NormPairs(b), key) {
        assert NormAgree(a, b, key);
      }
    }
  }

  /** Two trees mean the same exactly when their canonical forms have equal content. */
  lemma {:induction false} EquivIffSameCanon(a: Obj, b: Obj)
    ensures Equiv(a, b) <==> Norm(a) == Norm(b)
    decreases a, 1
  {
    if a.List? && b.List? {
      if |a.items| == |b.items| {
        forall i | 0 <= i < |a.items| ensures Equiv(a.items[i], b.items[i]) <==> Norm(a.items[i]) == Norm(b.items[i]) {
          EquivIffSameCanon(a.items[i], b.items[i]);
        }
        NormItems(a.items, b.items);
      }
    } else if a.Map? && b.Map? {
      EquivMaps(a, b);
    }
  }

  lemma {:induction false} EquivMaps(a: Obj, b: Obj)
    requires a.Map? && b.Map?
    ensures Equiv(a, b) <==> Norm(a) == Norm(b)
    decreases a, 0
  {
    NormMap(a.at, a.pairs);
    NormMap(b.at, b.pairs);
    NormPairsLookups(a.pairs, b.pairs);
    if Equiv(a, b) {
      forall key ensures NormAgree(a.pairs, b.pairs, key) {
        LookupSmaller(a.pairs, key);
        var x, y := Lookup(a.pairs, key), Lookup(b.pairs, key);
        if x.Some? {
          EquivIffSameCanon(x.value.val, y.value.val);
        }
      }
    }
    if forall key :: NormAgree(a.pairs, b.pairs, key) {
      forall key
        ensures var x, y := Lookup(a.pairs, key), Lookup(b.pairs, key);
                x.None? == y.None? && (x.Some? ==> Equiv(x.value.val, y.value.val))
      {
        LookupSmaller(a.pairs, key);
        var x, y := Lookup(a.pairs, key), Lookup(b.pairs, key);
        assert NormAgree(a.pairs, b.pairs, key);
        if x.Some? {
          EquivIffSameCanon(x.value.val, y.value.val);
        }
      }
    }
  }

  // ---------- floats survive canonicalisation or are absent from it ----------

  lemma {:induction false} DeepFloatFree(o: Obj)
    requires FloatFree(o)
    ensures FloatFree(DeepCanon(o))
    decreases o, 1
  {
    if o.List? {
      DeepItemsFloatFree(o.items);
    } else if o.Map? {
      DeepPairsFloatFree(o.pairs);
      CanonFloatFree(DeepPairs(o.pairs));
    }
  }

  lemma {:induction false} DeepItemsFloatFree(items: seq<Obj>)
    requires ItemsFloatFree(items)
    ensures ItemsFloatFree(DeepItems(items))
    decreases items, 0
  {
    if items != [] {
      DeepFloatFree(items[0]);
      DeepItemsFloatFree(items[1..]);
      assert DeepItems(items)[1..] == DeepItems(items[1..]);
    }
  }

  lemma {:induction false} DeepPairsFloatFree(pairs: seq<KV>)
    requires PairsFloatFree(pairs)
    ensures PairsFloatFree(DeepPairs(pairs))
    decreases pairs, 0
  {
    if pairs != [] {
      DeepFloatFree(pairs[0].val);
      DeepPairsFloatFree(pairs[1..]);
      assert DeepPairs(pairs)[1..] == DeepPairs(pairs[1..]);
    }
  }

  lemma {:induction false} PutFloatFree(kv: KV, pairs: seq<KV>)
    requires FloatFree(kv.val) && PairsFloatFree(pairs)
    ensures PairsFloatFree(Put(kv, pairs))
  {
    if pairs != [] && pairs[0].key != kv.key && !KeyLess(kv.key, pairs[0].key) {
      PutFloatFree(kv, pairs[1..]);
      assert Put(kv, pairs)[1..] == Put(kv, pairs[1..]);
    } else if pairs != [] && pairs[0].key == kv.key {
      assert Put(kv, pairs)[1..] == pairs[1..];
    } else {
      assert Put(kv, pairs)[1..] == pairs;
    }
  }

  lemma {:induction false} CanonFloatFree(pairs: seq<KV>)
    requires PairsFloatFree(pairs)
    ensures PairsFloatFree(Canon(pairs))
  {
    if pairs != [] {
      CanonFloatFree(pairs[1..]);
      PutFloatFree(pairs[0], Canon(pairs[1..]));
    }
  }

  // ---------- trees with floating point ----------

  /** Trees that mean the same where floats are compared as numbers, as gg_obj_eq does. */
  ghost predicate Alike(a: Obj, b: Obj)
    decreases a, 1
  {
    match a
    case List(_, items) =>
      b.List? && |items| == |b.items| && forall i :: 0 <= i < |items| ==> Alike(items[i], b.items[i])
    case Map(_, pairs) =>
      b.Map? && forall key ::
        var x, y := Lookup(pairs, key), Lookup(b.pairs, key);
        x.None? == y.None? && (x.Some? ==> (LookupSmaller(pairs, key); Alike(x.value.val, y.value.val)))
    case _ => Compare.Same(a, b)
  }

  /** Two maps give a key values that compare equal, or neither has the key. */
  ghost predicate Agree(a: seq<KV>, b: seq<KV>, key: bytes) {
    var x, y := Lookup(a, key), Lookup(b, key);
    x.None? == y.None? && (x.Some? ==> Compare.Same(x.value.val, y.value.val))
  }

  lemma {:induction false} SamePairsAgree(a: seq<KV>, b: seq<KV>, key: bytes)
    requires |a| == |b| && Compare.SamePairs(a, b)
    ensures Agree(a, b, key)
    decreases |a|
  {
    if a != [] && a[0].key != key {
      SamePairsAgree(a[1..], b[1..], key);
    }
  }

  /** Sorted pairs that agree on every key are the same, pair by pair. */
  lemma {:induction false} AgreeSame(a: seq<KV>, b: seq<KV>)
    requires Sorted(a) && Sorted(b) && forall key :: Agree(a, b, key)
    ensures |a| == |b| && Compare.SamePairs(a, b)
    decreases |a|
  {
    hide Compare.Same;
    if a == [] || b == [] {
      var key := if a != [] then a[0].key else if b != [] then b[0].key else [];
      assert Agree(a, b, key);
    } else {
      var ka, kb := a[0].key, b[0].key;
      assert Agree(a, b, ka) && Agree(a, b, kb);
      KeyLessTotal(ka, kb);
      if KeyLess(ka, kb) {
        SortedHead(b, ka);
      } else if KeyLess(kb, ka) {
        SortedHead(a, kb);
      }
      SortedTail(a);
      SortedTail(b);
      forall key ensures Agree(a[1..], b[1..], key) {
        assert Agree(a, b, key);
        if key == ka {
          AboveNone(a[1..], key);
          AboveNone(b[1..], key);
        }
      }
      AgreeSame(a[1..], b[1..]);
    }
  }

  lemma {:induction false} DeepLookup(pairs: seq<KV>, key: bytes)
    ensures var x := Lookup(pairs, key); Lookup(DeepPairs(pairs), key) == if x.None? then None else Some(DeepKV(x.value))
  {
    hide DeepCanon;
    if pairs != [] {
      assert DeepPairs(pairs)[1..] == DeepPairs(pairs[1..]);
      DeepLookup(pairs[1..], key);
    }
  }

  /** What the canonical forms of two maps give for a key. */
  lemma CanonAgree(a: seq<KV>, b: seq<KV>, key: bytes)
    ensures var x, y := Lookup(a, key), Lookup(b, key);
            Agree(Canon(DeepPairs(a)), Canon(DeepPairs(b)), key) <==>
            x.None? == y.None? && (x.Some? ==> Compare.Same(DeepCanon(x.value.val), DeepCanon(y.value.val)))
  {
    hide Compare.Same, Lookup, Canon, DeepCanon;
    CanonMeets(DeepPairs(a));
    CanonMeets(DeepPairs(b));
    DeepLookup(a, key);
    DeepLookup(b, key);
  }

  lemma {:induction false} SameItemsAt(a: seq<Obj>, b: seq<Obj>)
    requires |a| == |b|
    ensures Compare.SameItems(a, b) <==> forall i :: 0 <= i < |a| ==> Compare.Same(a[i], b[i])
  {
    hide Compare.Same;
    if a != [] {
      SameItemsAt(a[1..], b[1..]);
      if forall i :: 0 <= i < |a| ==> Compare.Same(a[i], b[i]) {
        forall i | 0 <= i < |a[1..]| ensures Compare.Same(a[1..][i], b[1..][i]) {
          assert a[1..][i] == a[i + 1] && b[1..][i] == b[i + 1];
        }
      }
      if Compare.SameItems(a, b) {
        forall i | 0 <= i < |a| ensures Compare.Same(a[i], b[i]) {
          if i > 0 {
            assert a[i] == a[1..][i - 1] && b[i] == b[1..][i - 1];
          }
        }
      }
    }
  }

  /** Comparing canonical forms decides whether the trees mean the same, for every two trees. */
  lemma {:induction false} SameCanonIffAlike(a: Obj, b: Obj)
    ensures Compare.Same(DeepCanon(a), DeepCanon(b)) <==> Alike(a, b)
    decreases a, 1
  {
    if a.List? && b.List? {
      if |a.items| == |b.items| {
        AlikeLists(a, b);
      }
    } else if a.Map? && b.Map? {
      AlikeMaps(a, b);
    }
  }

  lemma {:induction false} AlikeLists(a: Obj, b: Obj)
    requires a.List? && b.List? && |a.items| == |b.items|
    ensures Compare.Same(DeepCanon(a), DeepCanon(b)) <==> Alike(a, b)
    decreases a, 0
  {
    hide DeepItems, Compare.SameItems;
    var x, y := DeepItems(a.items), DeepItems(b.items);
    SameItemsAt(x, y);
    forall i | 0 <= i < |a.items|
      ensures x[i] == DeepCanon(a.items[i]) && y[i] == DeepCanon(b.items[i])
      ensures Compare.Same(x[i], y[i]) <==> Alike(a.items[i], b.items[i])
    {
      DeepItemsAt(a.items, i);
      DeepItemsAt(b.items, i);
      SameCanonIffAlike(a.items[i], b.items[i]);
    }
    assert Compare.Same(List(a.at, x), List(b.at, y)) <==> Compare.SameItems(x, y);
  }

  lemma {:induction false} AlikeMaps(a: Obj, b: Obj)
    requires a.Map? && b.Map?
    ensures Compare.Same(DeepCanon(a), DeepCanon(b)) <==> Alike(a, b)
    decreases a, 0
  {
    hide DeepPairs, Compare.SamePairs, Canon, Agree, Lookup;
    var x, y := Canon(DeepPairs(a.pairs)), Canon(DeepPairs(b.pairs));
    forall key ensures Agree(x, y, key) <==>
                       var p, q := Lookup(a.pairs, key), Lookup(b.pairs, key);
                       p.None? == q.None? && (p.Some? ==> Alike(p.value.val, q.value.val)) {
      CanonAgree(a.pairs, b.pairs, key);
      LookupSmaller(a.pairs, key);
      var p, q := Lookup(a.pairs, key), Lookup(b.pairs, key);
      if p.Some? && q.Some? {
        SameCanonIffAlike(p.value.val, q.value.val);
      }
    }
    if Compare.Same(DeepCanon(a), DeepCanon(b)) {
      forall key ensures Agree(x, y, key) {
        SamePairsAgree(x, y, key);
      }
    }
    if Alike(a, b) {
      forall key ensures Agree(x, y, key) {
      }
      CanonMeets(DeepPairs(a.pairs));
      CanonMeets(DeepPairs(b.pairs));
      AgreeSame(x, y);
    }
  }

  /** Without floats on the left the two notions of meaning coincide. */
  lemma AlikeIsEquiv(a: Obj, b: Obj)
    requires FloatFree(a)
    ensures Alike(a, b) <==> Equiv(a, b)
  {
    hide Alike, Equiv, Compare.Same, DeepCanon, FloatFree;
    SameCanonIffAlike(a, b);
    DeepFloatFree(a);
    SameIsErasedEqual(DeepCanon(a), DeepCanon(b));
    EquivIffSameCanon(a, b);
  }

  /** gg_obj_canonicalize on both trees and then gg_obj_eq decides whether they mean the same. */
  method EqAfterCanonicalize(a: Obj, b: Obj) returns (ret: Error, equal: bool)
    ensures ret == Ok ==> (equal <==> Alike(a, b))
    ensures ret == Ok && FloatFree(a) ==> (equal <==> Equiv(a, b))
  {
    hide Alike, Equiv, Compare.Same, DeepCanon, FloatFree, Depth, Visited;
    equal := false;
    var x, y;
    ret, x := Canonicalize(a);
    if ret != Ok {
      return;
    }
    ret, y := Canonicalize(b);
    if ret != Ok {
      return;
    }
    equal := Compare.ObjEq(x, y);
    SameCanonIffAlike(a, b);
    if FloatFree(a) {
      AlikeIsEquiv(a, b);
    }
  }
}
