/** Inverted indexes: the hash maps from a key to the vector of owners listed under it. */
module Index {
  import opened Prelude

  /** `table` lists owner `v` under key `k`, exactly once, precisely when `v` uses `k`; no key is empty. */
  ghost predicate Exact<K, V>(table: map<K, seq<V>>, uses: map<V, set<K>>) {
    && (forall k :: k in table ==> table[k] != [] && NoDup(table[k]))
    && (forall k, v :: k in table && v in table[k] ==> v in uses && k in uses[v])
    && (forall k, v :: v in uses && k in uses[v] ==> k in table && v in table[k])
  }

  /** Append `v` to the vector under `k`, creating it when absent. */
  function Push<K, V>(table: map<K, seq<V>>, k: K, v: V): map<K, seq<V>> {
    table[k := (if k in table then table[k] else []) + [v]]
  }

  /** Remove every `v` from the vector under `k`, and the key itself once its vector is empty. */
  function Drop<K, V(==)>(table: map<K, seq<V>>, k: K, v: V): map<K, seq<V>> {
    if k !in table then table
    else
      var rest := Filter(table[k], x => x != v);
      if rest == [] then table - {k} else table[k := rest]
  }

  function PushAll<K, V>(table: map<K, seq<V>>, keys: seq<K>, v: V): map<K, seq<V>> {
    if keys == [] then table
    else Push(PushAll(table, keys[..|keys| - 1], v), keys[|keys| - 1], v)
  }

  function DropAll<K, V(==)>(table: map<K, seq<V>>, keys: seq<K>, v: V): map<K, seq<V>> {
    if keys == [] then table
    else Drop(DropAll(table, keys[..|keys| - 1], v), keys[|keys| - 1], v)
  }

  lemma PushExact<K, V>(table: map<K, seq<V>>, uses: map<V, set<K>>, k: K, v: V)
    requires Exact(table, uses)
    requires v in uses ==> k !in uses[v]
    ensures Exact(Push(table, k, v), uses[v := (if v in uses then uses[v] else {}) + {k}])
  {
    var old' := if k in table then table[k] else [];
    var table' := Push(table, k, v);
    assert v !in old';
    assert table'[k] == old' + [v];
    assert NoDup(table'[k]);
  }

  lemma {:induction false} PushAllExact<K, V>(table: map<K, seq<V>>, uses: map<V, set<K>>, keys: seq<K>, v: V)
    requires Exact(table, uses)
    requires v !in uses && NoDup(keys)
    ensures Exact(PushAll(table, keys, v), uses[v := Elems(keys)])
  {
    if keys != [] {
      var front, last := keys[..|keys| - 1], keys[|keys| - 1];
      PushAllExact(table, uses, front, v);
      PushExact(PushAll(table, front, v), uses[v := Elems(front)], last, v);
      assert Elems(keys) == Elems(front) + {last};
      assert uses[v := Elems(front)][v := Elems(keys)] == uses[v := Elems(keys)];
    }
  }

  lemma DropExact<K, V>(table: map<K, seq<V>>, uses: map<V, set<K>>, k: K, v: V)
    requires Exact(table, uses) && v in uses
    ensures Exact(Drop(table, k, v), uses[v := uses[v] - {k}])
  {
    if k in table {
      FilterNoDup(table[k], x => x != v);
    }
  }

  lemma {:induction false} DropSomeExact<K, V>(table: map<K, seq<V>>, uses: map<V, set<K>>, keys: seq<K>, v: V)
    requires Exact(table, uses) && v in uses
    ensures Exact(DropAll(table, keys, v), uses[v := uses[v] - Elems(keys)])
  {
    if keys == [] {
      assert uses[v] - Elems(keys) == uses[v];
      assert uses[v := uses[v] - Elems(keys)] == uses;
    } else {
      var front, last := keys[..|keys| - 1], keys[|keys| - 1];
      DropSomeExact(table, uses, front, v);
      var mid := uses[v := uses[v] - Elems(front)];
      DropExact(DropAll(table, front, v), mid, last, v);
      assert Elems(keys) == Elems(front) + {last};
      assert mid[v] - {last} == uses[v] - Elems(keys);
      assert mid[v := mid[v] - {last}] == uses[v := uses[v] - Elems(keys)];
    }
  }

  /** Dropping an owner under all its keys leaves the index of the remaining owners. */
  lemma DropAllExact<K, V>(table: map<K, seq<V>>, uses: map<V, set<K>>, keys: seq<K>, v: V)
    requires Exact(table, uses) && v in uses && uses[v] <= Elems(keys)
    ensures Exact(DropAll(table, keys, v), uses - {v})
  {
    DropSomeExact(table, uses, keys, v);
    var mid := uses[v := uses[v] - Elems(keys)];
    assert mid[v] == {};
    forall k, w | k in DropAll(table, keys, v) && w in DropAll(table, keys, v)[k]
      ensures w in uses - {v} && k in (uses - {v})[w]
    {
      assert w in mid && k in mid[w];
    }
    forall k, w | w in uses - {v} && k in (uses - {v})[w]
      ensures k in DropAll(table, keys, v) && w in DropAll(table, keys, v)[k]
    {
      assert k in mid[w];
    }
  }

  /** List `v` under each of `keys`, in order. */
  method ListUnder<K, V>(table: map<K, seq<V>>, keys: seq<K>, v: V) returns (r: map<K, seq<V>>)
    ensures r == PushAll(table, keys, v)
  {
    r := table;
    for i := 0 to |keys|
      invariant r == PushAll(table, keys[..i], v)
    {
      assert keys[..i + 1][..i] == keys[..i];
      r := Push(r, keys[i], v);
    }
    assert keys[..|keys|] == keys;
  }

  /** Remove `v` from under each of `keys`, in order. */
  method UnlistFrom<K, V(==)>(table: map<K, seq<V>>, keys: seq<K>, v: V) returns (r: map<K, seq<V>>)
    ensures r == DropAll(table, keys, v)
  {
    r := table;
    for i := 0 to |keys|
      invariant r == DropAll(table, keys[..i], v)
    {
      assert keys[..i + 1][..i] == keys[..i];
      r := Drop(r, keys[i], v);
    }
    assert keys[..|keys|] == keys;
  }

  lemma {:induction false} DropAllElsewhere<K, V>(table: map<K, seq<V>>, keys: seq<K>, v: V, k: K)
    requires k !in keys
    ensures k in DropAll(table, keys, v) <==> k in table
    ensures k in table ==> DropAll(table, keys, v)[k] == table[k]
  {
    if keys != [] {
      DropAllElsewhere(table, keys[..|keys| - 1], v, k);
    }
  }
}
