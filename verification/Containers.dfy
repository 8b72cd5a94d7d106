/** The map containers generated on top of the hash table, and their runs. */
module Containers {
  import opened Wrappers
  import opened Probing
  import opened KHash

  /** Stores the node under its key, replacing whatever was there. */
  method MapAdd<K(==,0), V(0)>(t: Table<K, V>, key: K, node: V)
    requires t.Valid() && t.HasRoom()
    modifies t.Repr()
    ensures t.Valid() && fresh(t.Repr() - old(t.Repr()))
    ensures t.Contents == old(t.Contents)[key := node]
  {
    hide Holds, AllReachable, TombstoneOnPath, LiveSlots, UsedSlots, PowerOfTwo;
    var x, _ := t.Put(key);
    t.SetVal(x, node);
  }

  method MapRemove<K(==,0), V(0)>(t: Table<K, V>, key: K)
    requires t.Valid()
    modifies t.Repr()
    ensures t.Valid() && t.Repr() == old(t.Repr())
    ensures t.Contents == old(t.Contents) - {key}
  {
    var x, _ := t.Get(key);
    if x != t.nBuckets {
      t.Del(x);
    }
  }

  method MapGet<K(==,0), V(0)>(t: Table<K, V>, key: K) returns (r: Option<V>)
    requires t.Valid()
    ensures r == if key in t.Contents then Some(t.Contents[key]) else None
  {
    var x, _ := t.Get(key);
    if x == t.nBuckets {
      r := None;
    } else {
      r := Some(t.vals[x]);
    }
  }

  datatype Op<K, V> = Add(key: K, node: V) | Remove(key: K) | Clear | Resize(requested: nat)

  /** What one operation does to a plain finite map. */
  function Effect<K, V>(op: Op<K, V>, m: map<K, V>): map<K, V> {
    match op
    case Add(key, node) => m[key := node]
    case Remove(key) => m - {key}
    case Clear => map[]
    case Resize(_) => m
  }

  function Meaning<K, V>(ops: seq<Op<K, V>>, m: map<K, V>): map<K, V> {
    if ops == [] then m else Meaning(ops[1..], Effect(ops[0], m))
  }

  lemma EffectSize<K, V>(op: Op<K, V>, m: map<K, V>)
    ensures |Effect(op, m)| <= |m| + 1
  {
    match op
    case Add(key, node) => AddSize(m, key, node);
    case Remove(key) => RemoveSize(m, key);
    case Clear =>
    case Resize(_) =>
  }

  lemma AddSize<K, V>(m: map<K, V>, key: K, node: V)
    ensures |m[key := node]| <= |m| + 1
  {
    assert m[key := node].Keys == m.Keys + {key};
  }

  lemma RemoveSize<K, V>(m: map<K, V>, key: K)
    ensures |m - {key}| <= |m|
  {
    var left := (m - {key}).Keys;
    assert m.Keys == left + (m.Keys - left);
  }

  method Step<K(==,0), V(0)>(t: Table<K, V>, op: Op<K, V>)
    requires t.Valid() && |t.Contents| < 0x4000_0000
    requires op.Resize? ==> op.requested < 0x1_0000_0000
    modifies t.Repr()
    ensures t.Valid() && fresh(t.Repr() - old(t.Repr()))
    ensures t.Contents == Effect(op, old(t.Contents))
  {
    hide Holds, AllReachable, LiveSlots, UsedSlots, PowerOfTwo;
    t.SizeIsCardinality();
    match op
    case Add(key, node) => MapAdd(t, key, node);
    case Remove(key) => MapRemove(t, key);
    case Clear => t.Clear();
    case Resize(requested) => t.Resize(requested);
  }

  /** Every run of operations refines the run of the finite map. */
  method Run<K(==,0), V(0)>(t: Table<K, V>, ops: seq<Op<K, V>>)
    requires t.Valid() && |t.Contents| + |ops| < 0x4000_0000
    requires forall op | op in ops && op.Resize? :: op.requested < 0x1_0000_0000
    modifies t.Repr()
    ensures t.Valid() && fresh(t.Repr() - old(t.Repr()))
    ensures t.Contents == Meaning(ops, old(t.Contents))
  {
    hide Table.Valid, Effect;
    if ops != [] {
      EffectSize(ops[0], t.Contents);
      Step(t, ops[0]);
      Run(t, ops[1..]);
    }
  }
}
