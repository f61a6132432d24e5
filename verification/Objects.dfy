/**
 GgObject trees. A buffer, list, map or key is a reference: `at` is the address of the memory it
 points to, the rest is what that memory holds.
 */
module Objects {
  import opened Common

  datatype Obj =
    | Null
    | Bool(b: bool)
    | I64(i: int)
    | F64(bits: nat)
    | Buf(at: nat, bytes: bytes)
    | List(at: nat, items: seq<Obj>)
    | Map(at: nat, pairs: seq<KV>)

  datatype KV = KV(keyAt: nat, key: bytes, val: Obj)

  const MAX_DEPTH := 15
  const MAX_SUBOBJECTS := 255

  /** sizeof on a platform with 8-byte pointers; a GgKV is at most two GgObjects. */
  const OBJECT_SIZE := 11
  const KV_SIZE := 21

  function ObjectBytes(n: nat): nat {
    n * OBJECT_SIZE
  }

  function PairBytes(n: nat): nat {
    n * KV_SIZE
  }

  // ---------- limits ----------

  /** Levels from the object down to its deepest descendant. */
  function Depth(o: Obj): (d: nat)
    ensures d >= 1
    decreases o, 1
  {
    match o
    case List(_, items) => 1 + DepthItems(items)
    case Map(_, pairs) => 1 + DepthPairs(pairs)
    case _ => 1
  }

  function DepthItems(items: seq<Obj>): nat
    decreases items, 0
  {
    if items == [] then 0
    else
      var d, r := Depth(items[0]), DepthItems(items[1..]);
      if d > r then d else r
  }

  function DepthPairs(pairs: seq<KV>): nat
    decreases pairs, 0
  {
    if pairs == [] then 0
    else
      var d, r := Depth(pairs[0].val), DepthPairs(pairs[1..]);
      if d > r then d else r
  }

  /** Subobjects below the object; a map pair counts as two. */
  function Count(o: Obj): nat
    decreases o, 1
  {
    match o
    case List(_, items) => |items| + CountItems(items)
    case Map(_, pairs) => 2 * |pairs| + CountPairs(pairs)
    case _ => 0
  }

  function CountItems(items: seq<Obj>): nat
    decreases items, 0
  {
    if items == [] then 0 else Count(items[0]) + CountItems(items[1..])
  }

  function CountPairs(pairs: seq<KV>): nat
    decreases pairs, 0
  {
    if pairs == [] then 0 else Count(pairs[0].val) + CountPairs(pairs[1..])
  }

  predicate WithinLimits(o: Obj) {
    Depth(o) <= MAX_DEPTH && Count(o) <= MAX_SUBOBJECTS
  }

  // ---------- content ----------

  /** The same tree with every address forgotten. */
  function Erase(o: Obj): Obj
    decreases o, 1
  {
    match o
    case Buf(_, bytes) => Buf(0, bytes)
    case List(_, items) => List(0, EraseItems(items))
    case Map(_, pairs) => Map(0, ErasePairs(pairs))
    case _ => o
  }

  function EraseItems(items: seq<Obj>): (r: seq<Obj>)
    ensures |r| == |items| && forall i :: 0 <= i < |r| ==> r[i] == Erase(items[i])
    decreases items, 0
  {
    if items == [] then [] else [Erase(items[0])] + EraseItems(items[1..])
  }

  function EraseKV(kv: KV): KV
    decreases kv, 0
  {
    KV(0, kv.key, Erase(kv.val))
  }

  function ErasePairs(pairs: seq<KV>): (r: seq<KV>)
    ensures |r| == |pairs| && forall i :: 0 <= i < |r| ==> r[i] == EraseKV(pairs[i])
    decreases pairs, 0
  {
    if pairs == [] then [] else [EraseKV(pairs[0])] + ErasePairs(pairs[1..])
  }

  /** A pointer, a 16-bit length and a tag; a key's pointer and length and an object. */
  lemma Sizes()
    ensures OBJECT_SIZE == 8 + 2 + 1 && KV_SIZE == 8 + 2 + OBJECT_SIZE && KV_SIZE <= 2 * OBJECT_SIZE
  {
  }
}
