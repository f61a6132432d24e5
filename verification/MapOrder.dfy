/** Key order, first-match lookup, and the canonical form of a pair sequence. */
module MapOrder {
  import opened Common
  import opened Objects

  // ---------- key order ----------

  /** Lexicographic order of keys as byte strings. */
  predicate KeyLess(a: bytes, b: bytes)
    decreases |a|
  {
    if b == [] then false
    else if a == [] then true
    else a[0] < b[0] || (a[0] == b[0] && KeyLess(a[1..], b[1..]))
  }

  lemma {:induction false} KeyLessTotal(a: bytes, b: bytes)
    ensures KeyLess(a, b) || a == b || KeyLess(b, a)
    decreases |a|
  {
    if a != [] && b != [] && a[0] == b[0] {
      KeyLessTotal(a[1..], b[1..]);
      assert a == [a[0]] + a[1..] && b == [b[0]] + b[1..];
    }
  }

  lemma {:induction false} KeyLessTrans(a: bytes, b: bytes, c: bytes)
    requires KeyLess(a, b) && KeyLess(b, c)
    ensures KeyLess(a, c)
    decreases |a|
  {
    if a != [] && a[0] == b[0] == c[0] {
      KeyLessTrans(a[1..], b[1..], c[1..]);
    }
  }

  lemma {:induction false} KeyLessIrreflexive(a: bytes)
    ensures !KeyLess(a, a)
    decreases |a|
  {
    if a != [] {
      KeyLessIrreflexive(a[1..]);
    }
  }

  lemma KeyLessAsym(a: bytes, b: bytes)
    requires KeyLess(a, b)
    ensures !KeyLess(b, a) && a != b
  {
    KeyLessIrreflexive(a);
    if KeyLess(b, a) {
      KeyLessTrans(a, b, a);
    }
  }

  /** The order of keys: the first difference decides, and a proper prefix comes first. */
  lemma {:induction false} KeyLessIsLexicographic(a: bytes, b: bytes)
    ensures KeyLess(a, b) <==>
            exists k :: 0 <= k <= |a| && k < |b| && a[..k] == b[..k] && (k == |a| || a[k] < b[k])
    decreases |a|
  {
    if KeyLess(a, b) {
      if a == [] || a[0] != b[0] {
        assert a[..0] == b[..0];
      } else {
        KeyLessIsLexicographic(a[1..], b[1..]);
        var k :| 0 <= k <= |a[1..]| && k < |b[1..]| && a[1..][..k] == b[1..][..k] && (k == |a[1..]| || a[1..][k] < b[1..][k]);
        assert a[..k + 1] == [a[0]] + a[1..][..k] && b[..k + 1] == [b[0]] + b[1..][..k];
      }
    }
    if exists k :: 0 <= k <= |a| && k < |b| && a[..k] == b[..k] && (k == |a| || a[k] < b[k]) {
      var k :| 0 <= k <= |a| && k < |b| && a[..k] == b[..k] && (k == |a| || a[k] < b[k]);
      if k > 0 {
        assert a[0] == a[..k][0] == b[..k][0] == b[0];
        assert a[1..][..k - 1] == a[..k][1..] && b[1..][..k - 1] == b[..k][1..];
        KeyLessIsLexicographic(a[1..], b[1..]);
      }
    }
  }

  // ---------- lookup ----------

  /** gg_map_get: the first pair with the key. */
  function Lookup(pairs: seq<KV>, key: bytes): (r: Option<KV>)
    ensures r.Some? ==> r.value.key == key
  {
    if pairs == [] then None
    else if pairs[0].key == key then Some(pairs[0])
    else Lookup(pairs[1..], key)
  }

  lemma {:induction false} LookupNone(pairs: seq<KV>, key: bytes)
    ensures Lookup(pairs, key) == None <==> forall i :: 0 <= i < |pairs| ==> pairs[i].key != key
  {
    if pairs != [] {
      LookupNone(pairs[1..], key);
      assert forall i :: 0 < i < |pairs| ==> pairs[i] == pairs[1..][i - 1];
    }
  }

  ghost predicate SameLookups(a: seq<KV>, b: seq<KV>) {
    forall key :: Lookup(a, key) == Lookup(b, key)
  }

  lemma {:induction false} LookupConcat(a: seq<KV>, b: seq<KV>, key: bytes)
    ensures Lookup(a + b, key) == if Lookup(a, key).Some? then Lookup(a, key) else Lookup(b, key)
  {
    if a == [] {
      assert a + b == b;
    } else {
      assert (a + b)[0] == a[0] && (a + b)[1..] == a[1..] + b;
      LookupConcat(a[1..], b, key);
    }
  }

  /** Lookup finds the pair at the first position with the key. */
  lemma LookupAt(pairs: seq<KV>, i: nat)
    requires i < |pairs| && forall j :: 0 <= j < i ==> pairs[j].key != pairs[i].key
    ensures Lookup(pairs, pairs[i].key) == Some(pairs[i])
  {
    assert pairs == pairs[..i] + pairs[i..];
    LookupNone(pairs[..i], pairs[i].key);
    LookupConcat(pairs[..i], pairs[i..], pairs[i].key);
  }

  // ---------- canonical pair sequences ----------

  /** Keys strictly increase. */
  ghost predicate Sorted(pairs: seq<KV>) {
    forall i, j :: 0 <= i < j < |pairs| ==> KeyLess(pairs[i].key, pairs[j].key)
  }

  lemma SortedTail(pairs: seq<KV>)
    requires Sorted(pairs) && pairs != []
    ensures Sorted(pairs[1..])
    ensures forall i :: 0 <= i < |pairs[1..]| ==> KeyLess(pairs[0].key, pairs[1..][i].key)
  {
  }

  lemma SortedHead(pairs: seq<KV>, key: bytes)
    requires Sorted(pairs) && (pairs == [] || KeyLess(key, pairs[0].key))
    ensures forall i :: 0 <= i < |pairs| ==> KeyLess(key, pairs[i].key)
    ensures Lookup(pairs, key) == None
  {
    forall i | 0 <= i < |pairs| ensures KeyLess(key, pairs[i].key) && pairs[i].key != key {
      if i > 0 {
        KeyLessTrans(key, pairs[0].key, pairs[i].key);
      }
      KeyLessAsym(key, pairs[i].key);
    }
    LookupNone(pairs, key);
  }

  lemma AboveNone(pairs: seq<KV>, key: bytes)
    requires forall i :: 0 <= i < |pairs| ==> KeyLess(key, pairs[i].key)
    ensures Lookup(pairs, key) == None
  {
    KeyLessIrreflexive(key);
    LookupNone(pairs, key);
  }

  /** A pair sequence with strictly increasing keys is determined by its lookups. */
  lemma {:induction false} SortedUnique(a: seq<KV>, b: seq<KV>)
    requires Sorted(a) && Sorted(b) && SameLookups(a, b)
    ensures a == b
  {
    if a == [] || b == [] {
      var key := if a != [] then a[0].key else if b != [] then b[0].key else [];
      assert Lookup(a, key) == Lookup(b, key);
    } else {
      var ka, kb := a[0].key, b[0].key;
      assert Lookup(a, ka) == Lookup(b, ka) && Lookup(a, kb) == Lookup(b, kb);
      KeyLessTotal(ka, kb);
      if KeyLess(ka, kb) {
        SortedHead(b, ka);
      } else if KeyLess(kb, ka) {
        SortedHead(a, kb);
      }
      assert ka == kb && a[0] == b[0];
      SortedTail(a);
      SortedTail(b);
      forall key ensures Lookup(a[1..], key) == Lookup(b[1..], key) {
        assert Lookup(a, key) == Lookup(b, key);
        if key == ka {
          AboveNone(a[1..], key);
          AboveNone(b[1..], key);
        }
      }
      SortedUnique(a[1..], b[1..]);
    }
  }

  /** Put a pair into a sorted sequence, in place of a pair with the same key. */
  function Put(kv: KV, pairs: seq<KV>): (r: seq<KV>)
    ensures |pairs| <= |r| <= |pairs| + 1
  {
    if pairs == [] then [kv]
    else if pairs[0].key == kv.key then [kv] + pairs[1..]
    else if KeyLess(kv.key, pairs[0].key) then [kv] + pairs
    else [pairs[0]] + Put(kv, pairs[1..])
  }

  /** The canonical form: sorted keys, the first of several equal keys kept. */
  function Canon(pairs: seq<KV>): (r: seq<KV>)
    ensures |r| <= |pairs|
  {
    if pairs == [] then [] else Put(pairs[0], Canon(pairs[1..]))
  }

  lemma {:induction false} PutMembers(kv: KV, pairs: seq<KV>)
    ensures forall i :: 0 <= i < |Put(kv, pairs)| ==> Put(kv, pairs)[i] == kv || Put(kv, pairs)[i] in pairs
  {
    if pairs != [] {
      PutMembers(kv, pairs[1..]);
    }
  }

  lemma {:induction false} CanonMembers(pairs: seq<KV>)
    ensures forall i :: 0 <= i < |Canon(pairs)| ==> Canon(pairs)[i] in pairs
  {
    if pairs != [] {
      CanonMembers(pairs[1..]);
      PutMembers(pairs[0], Canon(pairs[1..]));
    }
  }

  lemma {:induction false} PutSorted(kv: KV, pairs: seq<KV>)
    requires Sorted(pairs)
    ensures Sorted(Put(kv, pairs))
    ensures forall key :: Lookup(Put(kv, pairs), key) == if key == kv.key then Some(kv) else Lookup(pairs, key)
  {
    if pairs == [] {
    } else if pairs[0].key == kv.key {
      SortedTail(pairs);
      AboveNone(pairs[1..], kv.key);
    } else if KeyLess(kv.key, pairs[0].key) {
      SortedHead(pairs, kv.key);
    } else {
      KeyLessTotal(kv.key, pairs[0].key);
      SortedTail(pairs);
      PutSorted(kv, pairs[1..]);
      var rest := Put(kv, pairs[1..]);
      PutMembers(kv, pairs[1..]);
      forall i | 0 <= i < |rest| ensures KeyLess(pairs[0].key, rest[i].key) {
        if rest[i] != kv {
          var j :| 0 <= j < |pairs[1..]| && pairs[1..][j] == rest[i];
        }
      }
    }
  }

  lemma {:induction false} CanonMeets(pairs: seq<KV>)
    ensures Sorted(Canon(pairs)) && SameLookups(Canon(pairs), pairs)
  {
    if pairs != [] {
      CanonMeets(pairs[1..]);
      PutSorted(pairs[0], Canon(pairs[1..]));
    }
  }

  /** Any sorted sequence with the same lookups is the canonical form. */
  lemma CanonIs(pairs: seq<KV>, r: seq<KV>)
    requires Sorted(r) && SameLookups(r, pairs)
    ensures r == Canon(pairs)
  {
    CanonMeets(pairs);
    SortedUnique(r, Canon(pairs));
  }

  /** Sequences that are already sorted are their own canonical form, so canonicalising twice is once. */
  lemma CanonIdempotent(pairs: seq<KV>)
    ensures Sorted(pairs) <==> Canon(pairs) == pairs
    ensures Canon(Canon(pairs)) == Canon(pairs)
  {
    CanonMeets(pairs);
    if Sorted(pairs) {
      CanonIs(pairs, pairs);
    }
    CanonIs(Canon(pairs), Canon(pairs));
  }

  /** Two maps have the same canonical pairs exactly when every lookup agrees. */
  lemma CanonIsNormalForm(a: seq<KV>, b: seq<KV>)
    ensures Canon(a) == Canon(b) <==> SameLookups(a, b)
  {
    CanonMeets(a);
    CanonMeets(b);
    if SameLookups(a, b) {
      CanonIs(b, Canon(a));
    }
    if Canon(a) == Canon(b) {
      forall key ensures Lookup(a, key) == Lookup(b, key) {
        assert Lookup(Canon(a), key) == Lookup(a, key) && Lookup(Canon(b), key) == Lookup(b, key);
      }
    }
  }

  /** Keys in order and the first of two pairs with the same key. */
  lemma KnownCanon(x: KV, y: KV, z: KV)
    requires x.key == Ascii("a") && y.key == Ascii("b") && z.key == Ascii("a")
    ensures Canon([y, x, z]) == [x, y]
  {
    assert [y, x, z][1..] == [x, z] && [x, z][1..] == [z] && [z][1..] == [];
    assert x.key[0] == 0x61 && y.key[0] == 0x62 && |x.key| == 1 && x.key == z.key;
    assert Canon([z]) == [z];
    assert Canon([x, z]) == [x];
    assert Canon([y, x, z]) == Put(y, [x]);
    assert !KeyLess(y.key, x.key) && y.key != x.key && [x][1..] == [] && Put(y, []) == [y];
  }
}
