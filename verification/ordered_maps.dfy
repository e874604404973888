/**
 An insertion-ordered map, the shape of both JavaScript's `Map` and of a plain
 object's own keys: `order` lists the keys in the order they were first set and
 `entries` holds the current values. Setting a key that is already present
 replaces its value and keeps its position.
 */
module OrderedMaps {

  datatype OrderedMap<K, V> = OrderedMap(order: seq<K>, entries: map<K, V>) {

    /** Every key is listed exactly once, and only keys that hold a value. */
    ghost predicate Valid() {
      && (forall i, j :: 0 <= i < j < |order| ==> order[i] != order[j])
      && (forall k <- entries.Keys :: k in order)
      && (forall i :: 0 <= i < |order| ==> order[i] in entries)
    }
  }

  function Empty<K, V>(): (m: OrderedMap<K, V>)
    ensures m.Valid()
    ensures m.order == [] && m.entries == map[]
  {
    OrderedMap([], map[])
  }

  /** `m.set(k, v)`: a new key goes to the end, an existing key keeps its place. */
  function Put<K, V>(m: OrderedMap<K, V>, k: K, v: V): (r: OrderedMap<K, V>)
    ensures r.entries == m.entries[k := v]
    ensures k in m.entries ==> r.order == m.order
    ensures k !in m.entries ==> r.order == m.order + [k]
    ensures m.Valid() ==> r.Valid()
  {
    if k in m.entries then OrderedMap(m.order, m.entries[k := v])
    else OrderedMap(m.order + [k], m.entries[k := v])
  }

  /** The values `src` holds for the keys listed in `keys`. */
  ghost function Listed<K, V>(keys: seq<K>, src: map<K, V>): map<K, V>
  {
    map k | k in keys && k in src :: src[k]
  }

  lemma ListedCons<K, V>(keys: seq<K>, src: map<K, V>)
    requires |keys| > 0
    ensures Listed(keys, src)
            == (if keys[0] in src then map[keys[0] := src[keys[0]]] else map[]) + Listed(keys[1..], src)
  {
    forall k | k in keys
      ensures k == keys[0] || k in keys[1..]
    {
      var i :| 0 <= i < |keys| && keys[i] == k;
      if i > 0 { assert keys[1..][i - 1] == k; }
    }
  }

  /** Sets, in the order of `keys`, every listed key that `src` holds. */
  function PutAll<K, V>(m: OrderedMap<K, V>, keys: seq<K>, src: map<K, V>): (r: OrderedMap<K, V>)
    ensures r.entries == m.entries + Listed(keys, src)
    ensures |m.order| <= |r.order| && r.order[..|m.order|] == m.order
    ensures m.Valid() ==> r.Valid()
    decreases |keys|
  {
    if |keys| == 0 then
      assert Listed(keys, src) == map[];
      m
    else
      var m' := if keys[0] in src then Put(m, keys[0], src[keys[0]]) else m;
      var r := PutAll(m', keys[1..], src);
      PutAllStep(m, m', r, keys, src);
      r
  }

  /** One key of `PutAll`, then the rest: the facts about the rest extend to all of `keys`. */
  lemma PutAllStep<K, V>(m: OrderedMap<K, V>, m': OrderedMap<K, V>, r: OrderedMap<K, V>, keys: seq<K>, src: map<K, V>)
    requires |keys| > 0
    requires m' == if keys[0] in src then Put(m, keys[0], src[keys[0]]) else m
    requires r.entries == m'.entries + Listed(keys[1..], src)
    requires |m'.order| <= |r.order| && r.order[..|m'.order|] == m'.order
    requires m'.Valid() ==> r.Valid()
    ensures r.entries == m.entries + Listed(keys, src)
    ensures |m.order| <= |r.order| && r.order[..|m.order|] == m.order
    ensures m.Valid() ==> r.Valid()
  {
    assert r.order[..|m.order|] == r.order[..|m'.order|][..|m.order|];
    ListedCons(keys, src);
    var head: map<K, V> := if keys[0] in src then map[keys[0] := src[keys[0]]] else map[];
    assert m'.entries == m.entries + head;
    UnionAssoc(m.entries, head, Listed(keys[1..], src));
  }

  lemma UnionAssoc<K, V>(a: map<K, V>, b: map<K, V>, c: map<K, V>)
    ensures (a + b) + c == a + (b + c)
  {
  }

  lemma UnionEmpty<K, V>(a: map<K, V>)
    ensures a + map[] == a && map[] + a == a
  {
  }

  lemma UnionSelf<K, V>(a: map<K, V>)
    ensures a + a == a
  {
  }

  /**
   Folds every entry of `upd` into `base`, in `upd`'s order: the last write
   wins per key, keys already in `base` keep their position, new keys are
   appended.
   */
  function Merge<K, V>(base: OrderedMap<K, V>, upd: OrderedMap<K, V>): (r: OrderedMap<K, V>)
    ensures upd.Valid() ==> r.entries == base.entries + upd.entries
    ensures |base.order| <= |r.order| && r.order[..|base.order|] == base.order
    ensures base.Valid() ==> r.Valid()
  {
    var r := PutAll(base, upd.order, upd.entries);
    assert upd.Valid() ==> Listed(upd.order, upd.entries) == upd.entries;
    r
  }
}
