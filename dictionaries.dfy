/**
 * Swift `Dictionary` operations the view-models use: subscript assignment
 * with an optional value, and `d[k, default: OrderedSet()].append(x)`.
 */
module Dictionaries {
  import opened Wrappers
  import opened OrderedSets

  /** Key `k` is absent from both maps or present in both with the same value. */
  ghost predicate SameAt<K, V>(m: map<K, V>, r: map<K, V>, k: K) {
    (k in m <==> k in r) && (k in m ==> m[k] == r[k])
  }

  /** `d[k] = v` with `v: V?`: a non-nil value is stored, nil removes the key. */
  function Store<K(!new), V>(m: map<K, V>, k: K, v: Option<V>): (r: map<K, V>)
    ensures k in r <==> v.Some?
    ensures v.Some? ==> r[k] == v.value
    ensures forall j :: j != k ==> SameAt(m, r, j)
  {
    match v
    case Some(x) => m[k := x]
    case None => m - {k}
  }

  /** One subscript assignment, as a value. */
  datatype Write<K, V> = Write(key: K, value: Option<V>)

  /** The assignments of `ws` performed in order. */
  function StoreAll<K(!new), V>(m: map<K, V>, ws: seq<Write<K, V>>): map<K, V>
    decreases |ws|
  {
    if ws == [] then m
    else Store(StoreAll(m, ws[..|ws| - 1]), ws[|ws| - 1].key, ws[|ws| - 1].value)
  }

  /** The value of the last assignment to `k` in `ws`, if there is one. */
  ghost function LastWrite<K, V>(ws: seq<Write<K, V>>, k: K): Option<Option<V>>
    decreases |ws|
  {
    if ws == [] then None
    else if ws[|ws| - 1].key == k then Some(ws[|ws| - 1].value)
    else LastWrite(ws[..|ws| - 1], k)
  }

  /**
   * Last write wins: after a run of assignments each key holds what its last
   * assignment put there, and a key never assigned keeps its old entry.
   */
  lemma {:induction false} StoreAllAt<K(!new), V>(m: map<K, V>, ws: seq<Write<K, V>>, k: K)
    ensures LastWrite(ws, k).None? ==> SameAt(m, StoreAll(m, ws), k)
    ensures LastWrite(ws, k).Some? ==>
      var v := LastWrite(ws, k).value;
      (k in StoreAll(m, ws) <==> v.Some?) && (v.Some? ==> StoreAll(m, ws)[k] == v.value)
    decreases |ws|
  {
    if ws != [] && ws[|ws| - 1].key != k {
      StoreAllAt(m, ws[..|ws| - 1], k);
    }
  }

  /** Running two batches of assignments is running their concatenation. */
  lemma {:induction false} StoreAllConcat<K(!new), V>(m: map<K, V>, a: seq<Write<K, V>>, b: seq<Write<K, V>>)
    ensures StoreAll(m, a + b) == StoreAll(StoreAll(m, a), b)
    decreases |b|
  {
    if b == [] {
      assert a + b == a;
    } else {
      assert (a + b)[..|a + b| - 1] == a + b[..|b| - 1];
      StoreAllConcat(m, a, b[..|b| - 1]);
    }
  }

  /** The last write to `k` in `a + b` comes from `b` if `b` writes `k` at all. */
  lemma {:induction false} LastWriteConcat<K, V>(a: seq<Write<K, V>>, b: seq<Write<K, V>>, k: K)
    ensures LastWrite(a + b, k) == if LastWrite(b, k).Some? then LastWrite(b, k) else LastWrite(a, k)
    decreases |b|
  {
    if b == [] {
      assert a + b == a;
    } else {
      assert (a + b)[..|a + b| - 1] == a + b[..|b| - 1];
      LastWriteConcat(a, b[..|b| - 1], k);
    }
  }

  /** Reading `d[k, default: OrderedSet()]`: the bucket under `k`, empty when missing. */
  function Bucket<K, V>(m: map<K, seq<V>>, k: K): seq<V> {
    if k in m then m[k] else []
  }

  /** `d[k, default: OrderedSet()].append(x)`: creates the bucket if needed, then appends. */
  function AppendAt<K(!new), V(==,!new)>(m: map<K, seq<V>>, k: K, x: V): (r: map<K, seq<V>>)
    ensures k in r && r[k] == Append(Bucket(m, k), x)
    ensures forall j :: j != k ==> SameAt(m, r, j)
  {
    m[k := Append(Bucket(m, k), x)]
  }
}
