/**
 Map canonicalisation in place (src/map_canonical.c): duplicates are pruned by moving the last pair
 into the gap, then the pairs are insertion sorted.
 */
module MapCanonical {
  import opened Common
  import opened Objects
  import opened MapOrder

  /** is_key_less compares byte by byte over the common length. */
  method IsKeyLess(lhs: bytes, rhs: bytes) returns (less: bool)
    ensures less == KeyLess(lhs, rhs)
    ensures less <==>
            exists k :: 0 <= k <= |lhs| && k < |rhs| && lhs[..k] == rhs[..k] && (k == |lhs| || lhs[k] < rhs[k])
  {
    KeyLessIsLexicographic(lhs, rhs);
    var len := Min(|lhs|, |rhs|);
    var i := 0;
    while i != len
      invariant 0 <= i <= len
      invariant KeyLess(lhs, rhs) == KeyLess(lhs[i..], rhs[i..])
    {
      if lhs[i] < rhs[i] {
        return true;
      }
      if rhs[i] < lhs[i] {
        return false;
      }
      assert lhs[i..][1..] == lhs[i + 1..] && rhs[i..][1..] == rhs[i + 1..];
      i := i + 1;
    }
    less := |lhs| < |rhs|;
  }

  /** gg_map_get over the first `len` pairs; the result is the index of the pair found. */
  method MapGet(pairs: array<KV>, len: nat, key: bytes) returns (found: bool, index: nat)
    requires len <= pairs.Length
    ensures found ==> index < len && Lookup(pairs[..len], key) == Some(pairs[index])
    ensures found ==> pairs[index].key == key && forall j :: 0 <= j < index ==> pairs[j].key != key
    ensures !found <==> Lookup(pairs[..len], key) == None
  {
    index := 0;
    while index < len
      invariant index <= len
      invariant forall j :: 0 <= j < index ==> pairs[j].key != key
    {
      if pairs[index].key == key {
        LookupAt(pairs[..len], index);
        return true, index;
      }
      index := index + 1;
    }
    LookupNone(pairs[..len], key);
    found := false;
  }

  // ---------- pruning ----------

  /** No earlier pair has the key of any pair from `i` on. */
  ghost predicate FirstFrom(pairs: seq<KV>, i: nat) {
    forall j, l :: 0 <= l < j < |pairs| && i <= j ==> pairs[l].key != pairs[j].key
  }

  /** The pair at `i` is dropped and the last pair moved into its place. */
  function Dropped(pairs: seq<KV>, i: nat): (r: seq<KV>)
    requires i < |pairs|
    ensures |r| == |pairs| - 1
  {
    var last := |pairs| - 1;
    if i == last then pairs[..last] else pairs[..last][i := pairs[last]]
  }

  lemma DroppedFirst(pairs: seq<KV>, i: nat)
    requires i < |pairs| && FirstFrom(pairs, i + 1)
    ensures FirstFrom(Dropped(pairs, i), i)
  {
    var r, last := Dropped(pairs, i), |pairs| - 1;
    forall j, l | 0 <= l < j < |r| && i <= j ensures r[l].key != r[j].key {
      var pj, pl := if j == i then last else j, if l == i then last else l;
      assert r[j] == pairs[pj] && r[l] == pairs[pl];
    }
  }

  /** A pair behind another with its key is never found, and a pair with a unique key is found anywhere. */
  lemma MoveLookup(a: seq<KV>, d: KV, m: seq<KV>, x: KV, key: bytes)
    requires Lookup(a, d.key).Some? && Lookup(a, x.key).None? && Lookup(m, x.key).None?
    ensures Lookup(a + ([x] + m), key) == Lookup(a + ([d] + (m + [x])), key)
  {
    LookupConcat(a, [x] + m, key);
    LookupConcat([x], m, key);
    LookupConcat(a, [d] + (m + [x]), key);
    LookupConcat([d], m + [x], key);
    LookupConcat(m, [x], key);
  }

  lemma ShadowedLookup(a: seq<KV>, d: KV, key: bytes)
    requires Lookup(a, d.key).Some?
    ensures Lookup(a, key) == Lookup(a + [d], key)
  {
    LookupConcat(a, [d], key);
  }

  lemma DroppedParts(pairs: seq<KV>, i: nat)
    requires i < |pairs| - 1
    ensures var last := |pairs| - 1;
            && pairs == pairs[..i] + ([pairs[i]] + (pairs[i + 1..last] + [pairs[last]]))
            && Dropped(pairs, i) == pairs[..i] + ([pairs[last]] + pairs[i + 1..last])
  {
  }

  /** Under FirstFrom the last pair's key occurs nowhere before it, and that of the pair at `i` does. */
  lemma DroppedKeys(pairs: seq<KV>, i: nat)
    requires i < |pairs| - 1 && FirstFrom(pairs, i + 1)
    ensures var last := |pairs| - 1;
            Lookup(pairs[..i], pairs[last].key).None? && Lookup(pairs[i + 1..last], pairs[last].key).None?
  {
    hide Lookup;
    LookupNone(pairs[..i], pairs[|pairs| - 1].key);
    LookupNone(pairs[i + 1..|pairs| - 1], pairs[|pairs| - 1].key);
  }

  lemma DroppedLookups(pairs: seq<KV>, i: nat)
    requires i < |pairs| && FirstFrom(pairs, i + 1)
    requires exists l :: 0 <= l < i && pairs[l].key == pairs[i].key
    ensures SameLookups(Dropped(pairs, i), pairs)
  {
    hide Lookup, FirstFrom, Dropped;
    var last, a := |pairs| - 1, pairs[..i];
    assert Lookup(a, pairs[i].key).Some? by {
      var l :| 0 <= l < i && pairs[l].key == pairs[i].key;
      assert a[l].key == pairs[i].key;
      LookupNone(a, pairs[i].key);
    }
    if i == last {
      assert Dropped(pairs, i) == a by { DroppedLast(pairs); }
      assert pairs == a + [pairs[i]];
      forall key ensures Lookup(a, key) == Lookup(pairs, key) {
        ShadowedLookup(a, pairs[i], key);
      }
    } else {
      DroppedParts(pairs, i);
      DroppedKeys(pairs, i);
      forall key ensures Lookup(Dropped(pairs, i), key) == Lookup(pairs, key) {
        MoveLookup(a, pairs[i], pairs[i + 1..last], pairs[last], key);
      }
    }
  }

  lemma DroppedLast(pairs: seq<KV>)
    requires pairs != []
    ensures Dropped(pairs, |pairs| - 1) == pairs[..|pairs| - 1]
  {
  }

  lemma DroppedKeeps(pairs: seq<KV>, i: nat, first: nat, orig: seq<KV>)
    requires first < i < |pairs| && pairs[first].key == pairs[i].key
    requires SameLookups(pairs, orig) && FirstFrom(pairs, i + 1)
    ensures SameLookups(Dropped(pairs, i), orig) && FirstFrom(Dropped(pairs, i), i)
  {
    DroppedLookups(pairs, i);
    DroppedFirst(pairs, i);
    SameTrans(Dropped(pairs, i), pairs, orig);
  }

  const PRUNED := KV(0, [60, 112, 114, 117, 110, 101, 100, 62], Null)

  lemma PrunedKey()
    ensures PRUNED == KV(0, Ascii("<pruned>"), Null)
  {
  }

  /** Prune the pair at `i` of the first `len`. */
  method PruneAt(pairs: array<KV>, len: nat, i: nat)
    requires i < len <= pairs.Length
    modifies pairs
    ensures pairs[..len - 1] == Dropped(old(pairs[..len]), i)
    ensures pairs[len - 1] == PRUNED
    ensures forall j :: len <= j < pairs.Length ==> pairs[j] == old(pairs[j])
  {
    if i != len - 1 {
      pairs[i] := pairs[len - 1];
    }
    pairs[len - 1] := PRUNED;
  }

  lemma FirstExtends(pairs: seq<KV>, i: nat)
    requires 0 < i <= |pairs| && FirstFrom(pairs, i)
    requires forall l :: 0 <= l < i - 1 ==> pairs[l].key != pairs[i - 1].key
    ensures FirstFrom(pairs, i - 1)
  {
  }

  method PruneDuplicates(pairs: array<KV>, len: nat) returns (kept: nat)
    requires len <= pairs.Length
    modifies pairs
    ensures kept <= len && SameLookups(pairs[..kept], old(pairs[..len])) && FirstFrom(pairs[..kept], 0)
    ensures forall j :: kept <= j < len ==> pairs[j] == PRUNED
    ensures forall j :: len <= j < pairs.Length ==> pairs[j] == old(pairs[j])
  {
    SameRefl(pairs[..len]);
    kept := len;
    var i := len;
    assert FirstFrom(pairs[..len], len);
    hide SameLookups, Lookup, FirstFrom, Dropped;
    while i > 0
      invariant 0 <= i <= kept <= len
      invariant SameLookups(pairs[..kept], old(pairs[..len])) && FirstFrom(pairs[..kept], i)
      invariant forall j :: kept <= j < len ==> pairs[j] == PRUNED
      invariant forall j :: len <= j < pairs.Length ==> pairs[j] == old(pairs[j])
    {
      ghost var before := pairs[..kept];
      var found, first := MapGet(pairs, kept, pairs[i - 1].key);
      assert found by {
        assert before[i - 1].key == pairs[i - 1].key;
        LookupNone(before, pairs[i - 1].key);
      }
      if first == i - 1 {
        FirstExtends(before, i);
      } else {
        PruneAt(pairs, kept, i - 1);
        kept := kept - 1;
        DroppedKeeps(before, i - 1, first, old(pairs[..len]));
      }
      i := i - 1;
    }
  }

  lemma SameRefl(a: seq<KV>)
    ensures SameLookups(a, a)
  {
  }

  lemma SameTrans(a: seq<KV>, b: seq<KV>, c: seq<KV>)
    requires SameLookups(a, b) && SameLookups(b, c)
    ensures SameLookups(a, c)
  {
  }

  // ---------- sorting ----------

  function Swapped(pairs: seq<KV>, j: nat): seq<KV>
    requires 0 < j < |pairs|
  {
    pairs[j := pairs[j - 1]][j - 1 := pairs[j]]
  }

  /** Exchanging neighbours with different keys changes no lookup. */
  lemma SwapLookups(pairs: seq<KV>, j: nat)
    requires 0 < j < |pairs| && pairs[j].key != pairs[j - 1].key
    ensures SameLookups(Swapped(pairs, j), pairs)
  {
    var a, x, y, b := pairs[..j - 1], pairs[j - 1], pairs[j], pairs[j + 1..];
    assert pairs == a + ([x] + ([y] + b)) && Swapped(pairs, j) == a + ([y] + ([x] + b));
    forall key ensures Lookup(Swapped(pairs, j), key) == Lookup(pairs, key) {
      LookupConcat(a, [x] + ([y] + b), key);
      LookupConcat([x], [y] + b, key);
      LookupConcat([y], b, key);
      LookupConcat(a, [y] + ([x] + b), key);
      LookupConcat([y], [x] + b, key);
      LookupConcat([x], b, key);
    }
  }

  lemma SwapDistinct(pairs: seq<KV>, j: nat)
    requires 0 < j < |pairs| && FirstFrom(pairs, 0)
    ensures FirstFrom(Swapped(pairs, j), 0)
  {
    var r := Swapped(pairs, j);
    forall k, l | 0 <= l < k < |r| ensures r[l].key != r[k].key {
      var pk := if k == j then j - 1 else if k == j - 1 then j else k;
      var pl := if l == j then j - 1 else if l == j - 1 then j else l;
      assert r[k] == pairs[pk] && r[l] == pairs[pl];
    }
  }

  /** Sorted up to `n` except that the pair at `j` may still have to move down. */
  ghost predicate SortedBut(pairs: seq<KV>, n: nat, j: nat)
    requires n <= |pairs|
  {
    && (forall k, l :: 0 <= l < k < n && k != j && l != j ==> KeyLess(pairs[l].key, pairs[k].key))
    && (forall k :: j < k < n ==> KeyLess(pairs[j].key, pairs[k].key))
  }

  lemma SwapSorted(pairs: seq<KV>, n: nat, j: nat)
    requires 0 < j < n <= |pairs| && SortedBut(pairs, n, j) && KeyLess(pairs[j].key, pairs[j - 1].key)
    ensures SortedBut(Swapped(pairs, j), n, j - 1)
  {
  }

  lemma StopSorted(pairs: seq<KV>, n: nat, j: nat)
    requires j < n <= |pairs| && SortedBut(pairs, n, j) && FirstFrom(pairs, 0)
    requires j == 0 || !KeyLess(pairs[j].key, pairs[j - 1].key)
    ensures Sorted(pairs[..n])
  {
    if j > 0 {
      KeyLessTotal(pairs[j].key, pairs[j - 1].key);
      forall l | 0 <= l < j ensures KeyLess(pairs[l].key, pairs[j].key) {
        if l < j - 1 {
          KeyLessTrans(pairs[l].key, pairs[j - 1].key, pairs[j].key);
        }
      }
    }
  }

  method SortKeys(pairs: array<KV>, len: nat)
    requires len <= pairs.Length && FirstFrom(pairs[..len], 0)
    modifies pairs
    ensures Sorted(pairs[..len]) && SameLookups(pairs[..len], old(pairs[..len]))
    ensures forall j :: len <= j < pairs.Length ==> pairs[j] == old(pairs[j])
  {
    hide SameLookups, FirstFrom, KeyLess;
    SameRefl(pairs[..len]);
    var i := 0;
    while i < len
      invariant 0 <= i <= len && Sorted(pairs[..len][..i]) && FirstFrom(pairs[..len], 0)
      invariant SameLookups(pairs[..len], old(pairs[..len]))
      invariant forall j :: len <= j < pairs.Length ==> pairs[j] == old(pairs[j])
    {
      var j := i;
      while j > 0
        invariant 0 <= j <= i && SortedBut(pairs[..len], i + 1, j) && FirstFrom(pairs[..len], 0)
        invariant SameLookups(pairs[..len], old(pairs[..len]))
        invariant forall k :: len <= k < pairs.Length ==> pairs[k] == old(pairs[k])
      {
        ghost var before := pairs[..len];
        var less := IsKeyLess(pairs[j].key, pairs[j - 1].key);
        if !less {
          break;
        }
        KeyLessAsym(before[j].key, before[j - 1].key);
        SwapLookups(before, j);
        SwapDistinct(before, j);
        SwapSorted(before, i + 1, j);
        pairs[j], pairs[j - 1] := pairs[j - 1], pairs[j];
        assert pairs[..len] == Swapped(before, j);
        SameTrans(pairs[..len], before, old(pairs[..len]));
        j := j - 1;
      }
      StopSorted(pairs[..len], i + 1, j);
      i := i + 1;
    }
    assert pairs[..len][..len] == pairs[..len];
  }

  /** gg_map_canonicalize_shallow leaves exactly the canonical form of the pairs it was given. */
  method CanonicalizeShallow(pairs: array<KV>, len: nat) returns (kept: nat)
    requires len <= pairs.Length
    modifies pairs
    ensures kept <= len && pairs[..kept] == Canon(old(pairs[..len]))
    ensures forall i, j :: 0 <= i < j < kept ==> LexLess(pairs[i].key, pairs[j].key)
    ensures forall j :: kept <= j < len ==> pairs[j] == PRUNED
    ensures forall j :: len <= j < pairs.Length ==> pairs[j] == old(pairs[j])
  {
    kept := PruneDuplicates(pairs, len);
    ghost var pruned := pairs[..kept];
    SortKeys(pairs, kept);
    SameTrans(pairs[..kept], pruned, old(pairs[..len]));
    CanonIs(old(pairs[..len]), pairs[..kept]);
    SortedKeys(pairs[..kept]);
  }

  lemma SortedKeys(pairs: seq<KV>)
    requires Sorted(pairs)
    ensures forall i, j :: 0 <= i < j < |pairs| ==> LexLess(pairs[i].key, pairs[j].key)
  {
    hide KeyLess;
    forall i, j | 0 <= i < j < |pairs| ensures LexLess(pairs[i].key, pairs[j].key) {
      KeyLessIsLexicographic(pairs[i].key, pairs[j].key);
    }
  }

  /** gg_map_is_canonical checks neighbours only; that is enough for the whole sequence. */
  method IsCanonical(pairs: seq<KV>) returns (r: bool)
    ensures r <==> Sorted(pairs)
    ensures r <==> Canon(pairs) == pairs
  {
    hide KeyLess, Canon;
    CanonIdempotent(pairs);
    var i := 1;
    while i < |pairs|
      invariant 1 <= i && Sorted(pairs[..Min(i, |pairs|)])
    {
      var less := IsKeyLess(pairs[i - 1].key, pairs[i].key);
      if !less {
        return false;
      }
      forall l | 0 <= l < i ensures KeyLess(pairs[l].key, pairs[i].key) {
        if l < i - 1 {
          assert KeyLess(pairs[..i][l].key, pairs[..i][i - 1].key);
          KeyLessTrans(pairs[l].key, pairs[i - 1].key, pairs[i].key);
        }
      }
      i := i + 1;
    }
    assert pairs[..Min(i, |pairs|)] == pairs;
    r := true;
  }
}
