/**
 * JavaScript objects used as string-keyed dictionaries: keys keep their
 * insertion order, and a write to an existing key keeps that key's position.
 * Object spread (`{...a, ...b}`) is `Spread`; `mapValue` is `MapValues`.
 */
module OrderedMaps {

  type Key = string

  /** `keys` is the insertion order, `entries` the key/value association. */
  datatype OrderedMap<V> = OrderedMap(keys: seq<Key>, entries: map<Key, V>)

  ghost predicate Distinct(ks: seq<Key>) {
    forall i, j :: 0 <= i < j < |ks| ==> ks[i] != ks[j]
  }

  /** Every key occurs once in the order, and the order lists exactly the entries' keys. */
  ghost predicate Valid<V>(m: OrderedMap<V>) {
    && Distinct(m.keys)
    && (forall k :: k in m.keys <==> k in m.entries)
  }

  function Empty<V>(): (r: OrderedMap<V>)
    ensures Valid(r) && r.entries == map[]
  {
    OrderedMap([], map[])
  }

  /** `m[k] = v`: a new key goes last, an existing key keeps its place. */
  function Put<V>(m: OrderedMap<V>, k: Key, v: V): (r: OrderedMap<V>)
    ensures Valid(m) ==> Valid(r)
    ensures r.entries == m.entries[k := v]
    ensures k in m.entries ==> r.keys == m.keys
    ensures k !in m.entries ==> r.keys == m.keys + [k]
  {
    if k in m.entries then OrderedMap(m.keys, m.entries[k := v])
    else OrderedMap(m.keys + [k], m.entries[k := v])
  }

  /** The keys of `ks`, in order, that are not in `present`. */
  function NewKeys(ks: seq<Key>, present: set<Key>): (r: seq<Key>)
    ensures forall k :: k in r <==> k in ks && k !in present
    ensures |r| <= |ks|
  {
    if ks == [] then []
    else NewKeys(ks[..|ks| - 1], present) + (if ks[|ks| - 1] in present then [] else [ks[|ks| - 1]])
  }

  lemma {:induction false} NewKeysDistinct(ks: seq<Key>, present: set<Key>)
    requires Distinct(ks)
    ensures Distinct(NewKeys(ks, present))
  {
    if ks != [] {
      var init := ks[..|ks| - 1];
      NewKeysDistinct(init, present);
      assert ks[|ks| - 1] !in init;
    }
  }

  /**
   * Writing the last of `ks`, a key not among the earlier ones, onto a map
   * whose order is `base` followed by the new keys of the earlier ones
   * gives `base` followed by the new keys of all of `ks`.
   */
  lemma PutNewKeys<V>(m: OrderedMap<V>, base: seq<Key>, present: set<Key>, ks: seq<Key>, v: V)
    requires ks != []
    requires m.keys == base + NewKeys(ks[..|ks| - 1], present)
    requires ks[|ks| - 1] in m.entries <==> ks[|ks| - 1] in present
    ensures Put(m, ks[|ks| - 1], v).keys == base + NewKeys(ks, present)
  {
    var nk := NewKeys(ks[..|ks| - 1], present);
    if ks[|ks| - 1] in present {
      assert NewKeys(ks, present) == nk + [];
      assert nk + [] == nk;
    } else {
      assert NewKeys(ks, present) == nk + [ks[|ks| - 1]];
      assert (base + nk) + [ks[|ks| - 1]] == base + (nk + [ks[|ks| - 1]]);
    }
  }

  lemma DistinctConcat(xs: seq<Key>, ys: seq<Key>)
    requires Distinct(xs) && Distinct(ys)
    requires forall k :: k in ys ==> k !in xs
    ensures Distinct(xs + ys)
  {
    forall i, j | 0 <= i < j < |xs + ys|
      ensures (xs + ys)[i] != (xs + ys)[j]
    {
      if j >= |xs| && i < |xs| {
        assert (xs + ys)[j] in ys;
      }
    }
  }

  /**
   * `{...a, ...b}`: every key of `a` in `a`'s order, then the keys of `b`
   * that `a` lacks in `b`'s order; on a shared key the value of `b` wins.
   */
  function Spread<V>(a: OrderedMap<V>, b: OrderedMap<V>): (r: OrderedMap<V>)
    ensures Valid(a) && Valid(b) ==> Valid(r)
    ensures r.entries.Keys == a.entries.Keys + b.entries.Keys
    ensures forall k :: k in b.entries ==> r.entries[k] == b.entries[k]
    ensures forall k :: k in a.entries && k !in b.entries ==> r.entries[k] == a.entries[k]
    ensures r.keys == a.keys + NewKeys(b.keys, a.entries.Keys)
  {
    var tail := NewKeys(b.keys, a.entries.Keys);
    var r := OrderedMap(a.keys + tail, a.entries + b.entries);
    assert Valid(a) && Valid(b) ==> Valid(r) by {
      if Valid(a) && Valid(b) {
        NewKeysDistinct(b.keys, a.entries.Keys);
        DistinctConcat(a.keys, tail);
      }
    }
    r
  }

  /** `mapValue(m, f)`: same keys in the same order, every value passed through `f`. */
  function MapValues<V>(m: OrderedMap<V>, f: V -> V): (r: OrderedMap<V>)
    ensures Valid(m) ==> Valid(r)
    ensures r.keys == m.keys && r.entries.Keys == m.entries.Keys
    ensures forall k :: k in m.entries ==> r.entries[k] == f(m.entries[k])
  {
    OrderedMap(m.keys, map k | k in m.entries :: f(m.entries[k]))
  }

  /** `Object.values(m)`: the values in key order. */
  function Values<V>(m: OrderedMap<V>): (r: seq<V>)
    requires Valid(m)
    ensures |r| == |m.keys|
    ensures forall i :: 0 <= i < |m.keys| ==> r[i] == m.entries[m.keys[i]]
  {
    seq(|m.keys|, i requires 0 <= i < |m.keys| => m.entries[m.keys[i]])
  }

  /** The value at every key is listed by `Values`. */
  lemma ValueListed<V>(m: OrderedMap<V>, k: Key)
    requires Valid(m) && k in m.entries
    ensures m.entries[k] in Values(m)
  {
    var i :| 0 <= i < |m.keys| && m.keys[i] == k;
    assert Values(m)[i] == m.entries[k];
  }

  /** A value is listed by `Values` exactly when some key holds it. */
  lemma ValuesHolds<V>(m: OrderedMap<V>, v: V)
    requires Valid(m)
    ensures v in Values(m) <==> exists k :: k in m.entries && m.entries[k] == v
  {
    var vs := Values(m);
    if v in vs {
      var i :| 0 <= i < |vs| && vs[i] == v;
      assert m.keys[i] in m.entries;
    }
    if exists k :: k in m.entries && m.entries[k] == v {
      var k :| k in m.entries && m.entries[k] == v;
      assert k in m.keys;
      var i :| 0 <= i < |m.keys| && m.keys[i] == k;
      assert vs[i] == v;
    }
  }

  /**
   * A dictionary built by writing `build(n)` at `key(n)` for every node in
   * order, so that the last node with a given key decides its value.
   */
  function FromSeq<N, V>(nodes: seq<N>, key: N --> Key, build: N --> V): (r: OrderedMap<V>)
    requires forall i :: 0 <= i < |nodes| ==> key.requires(nodes[i]) && build.requires(nodes[i])
    ensures Valid(r)
  {
    if nodes == [] then Empty()
    else Put(FromSeq(nodes[..|nodes| - 1], key, build), key(nodes[|nodes| - 1]), build(nodes[|nodes| - 1]))
  }

  /** The keys are exactly the nodes' keys, and every value was built from a node with that key. */
  lemma {:induction false} FromSeqEntries<N, V>(nodes: seq<N>, key: N --> Key, build: N --> V, k: Key)
    requires forall i :: 0 <= i < |nodes| ==> key.requires(nodes[i]) && build.requires(nodes[i])
    ensures k in FromSeq(nodes, key, build).entries <==> exists i :: 0 <= i < |nodes| && key(nodes[i]) == k
    ensures k in FromSeq(nodes, key, build).entries ==>
              exists i :: 0 <= i < |nodes| && key(nodes[i]) == k && FromSeq(nodes, key, build).entries[k] == build(nodes[i])
  {
    if nodes != [] {
      var init := nodes[..|nodes| - 1];
      FromSeqEntries(init, key, build, k);
      assert forall i :: 0 <= i < |init| ==> init[i] == nodes[i];
      if k != key(nodes[|nodes| - 1]) {
        if exists i :: 0 <= i < |nodes| && key(nodes[i]) == k {
          var i :| 0 <= i < |nodes| && key(nodes[i]) == k;
          assert i < |init|;
        }
      }
    }
  }

  /** The last node with a given key decides the value at that key. */
  lemma {:induction false} FromSeqLastWins<N, V>(nodes: seq<N>, key: N --> Key, build: N --> V, i: nat)
    requires forall j :: 0 <= j < |nodes| ==> key.requires(nodes[j]) && build.requires(nodes[j])
    requires i < |nodes|
    requires forall j :: i < j < |nodes| ==> key(nodes[j]) != key(nodes[i])
    ensures key(nodes[i]) in FromSeq(nodes, key, build).entries
    ensures FromSeq(nodes, key, build).entries[key(nodes[i])] == build(nodes[i])
  {
    if i < |nodes| - 1 {
      var init := nodes[..|nodes| - 1];
      assert forall j :: 0 <= j < |init| ==> init[j] == nodes[j];
      FromSeqLastWins(init, key, build, i);
    }
  }

  /**
   * `m` after writing `vs[j]` at `ks[j]` for every `j` in order: the keys
   * written are added, every other key keeps its value.
   */
  function PutAll<V>(m: OrderedMap<V>, ks: seq<Key>, vs: seq<V>): (r: OrderedMap<V>)
    requires |ks| == |vs|
    ensures Valid(m) ==> Valid(r)
    ensures forall k :: k in r.entries <==> k in m.entries || k in ks
    ensures forall k :: k in m.entries && k !in ks ==> r.entries[k] == m.entries[k]
  {
    if ks == [] then m
    else Put(PutAll(m, ks[..|ks| - 1], vs[..|vs| - 1]), ks[|ks| - 1], vs[|vs| - 1])
  }

  /** Writing distinct keys keeps the old order and appends the keys that were missing, in order. */
  lemma {:induction false} PutAllKeys<V>(m: OrderedMap<V>, ks: seq<Key>, vs: seq<V>)
    requires |ks| == |vs| && Distinct(ks)
    ensures PutAll(m, ks, vs).keys == m.keys + NewKeys(ks, m.entries.Keys)
  {
    if ks != [] {
      var init, vinit := ks[..|ks| - 1], vs[..|vs| - 1];
      DistinctInit(ks);
      PutAllKeys(m, init, vinit);
      PutNewKeys(PutAll(m, init, vinit), m.keys, m.entries.Keys, ks, vs[|vs| - 1]);
    }
  }

  /** Dropping the last of distinct keys leaves distinct keys, none of them the last. */
  lemma DistinctInit(ks: seq<Key>)
    requires Distinct(ks) && ks != []
    ensures Distinct(ks[..|ks| - 1]) && ks[|ks| - 1] !in ks[..|ks| - 1]
  {
    var init := ks[..|ks| - 1];
    forall i | 0 <= i < |init| ensures init[i] != ks[|ks| - 1] {
      assert init[i] == ks[i];
    }
  }

  /** Writing distinct keys leaves `vs[j]` at `ks[j]`. */
  lemma {:induction false} PutAllValues<V>(m: OrderedMap<V>, ks: seq<Key>, vs: seq<V>, j: nat)
    requires |ks| == |vs| && Distinct(ks)
    requires j < |ks|
    ensures PutAll(m, ks, vs).entries[ks[j]] == vs[j]
  {
    if j < |ks| - 1 {
      var init := ks[..|ks| - 1];
      assert Distinct(init);
      PutAllValues(m, init, vs[..|vs| - 1], j);
    }
  }
}
