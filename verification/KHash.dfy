/** The open-addressing hash table behind every device, node and socket map. */
module KHash {
  import opened Probing
  import opened RoundUp

  /** A bucket's two flag bits: 2 (empty), 1 (deleted) or 0 (live). */
  datatype Flag = Empty | Deleted | Live

  // ---------------------------------------------------------------- buckets

  ghost function LiveSlots(flags: seq<Flag>): set<nat> {
    set i: nat | i < |flags| && flags[i] == Live
  }

  ghost function UsedSlots(flags: seq<Flag>): set<nat> {
    set i: nat | i < |flags| && flags[i] != Empty
  }

  /** Every bucket that a key with hash `h` probes before probe `s` is in use. */
  ghost predicate Path(flags: seq<Flag>, h: nat, s: nat)
    requires |flags| > 0
  {
    forall t: nat | t < s :: flags[Slot(h, t, |flags|)] != Empty
  }

  /** Bucket `i` lies on the probe sequence of `h`, before any empty bucket. */
  ghost predicate Reachable(flags: seq<Flag>, h: nat, i: nat)
    requires |flags| > 0
  {
    exists s: nat :: Slot(h, s, |flags|) == i && Path(flags, h, s)
  }

  /** A tombstone lies on the probe sequence of `h`, before any empty bucket. */
  ghost predicate TombstoneOnPath(flags: seq<Flag>, h: nat) {
    exists i: nat :: i < |flags| && flags[i] == Deleted && Reachable(flags, h, i)
  }

  /** Bucket `i` is the last tombstone on the probe sequence of `h` before any
      empty bucket. */
  ghost predicate LastTombstone(flags: seq<Flag>, h: nat, i: nat)
    requires i < |flags|
  {
    && flags[i] == Deleted
    && exists s: nat :: Slot(h, s, |flags|) == i && Path(flags, h, s) &&
         forall t: nat | s < t && Path(flags, h, t) :: flags[Slot(h, t, |flags|)] != Deleted
  }

  lemma ReachableKept(flags: seq<Flag>, flags': seq<Flag>, h: nat, i: nat)
    requires |flags| == |flags'| > 0 && Reachable(flags, h, i)
    requires forall j | 0 <= j < |flags| :: flags[j] != Empty ==> flags'[j] != Empty
    ensures Reachable(flags', h, i)
  {
    var s: nat :| Slot(h, s, |flags|) == i && Path(flags, h, s);
    assert Path(flags', h, s);
  }

  /** A table that is not full stops every probe sequence at an empty bucket,
      and no later than at probe `n - 1`. */
  lemma FirstEmpty(flags: seq<Flag>, h: nat) returns (e: nat)
    requires PowerOfTwo(|flags|) && |UsedSlots(flags)| < |flags|
    ensures e < |flags| && flags[Slot(h, e, |flags|)] == Empty && Path(flags, h, e)
  {
    var n := |flags|;
    assert UsedSlots(flags) != Below(n);
    var i: nat :| i in Below(n) && i !in UsedSlots(flags);
    e := Coverage(h, i, n);
    e := LeastEmpty(flags, h, e);
  }

  lemma LeastEmpty(flags: seq<Flag>, h: nat, s: nat) returns (e: nat)
    requires |flags| > 0 && flags[Slot(h, s, |flags|)] == Empty
    ensures e <= s && flags[Slot(h, e, |flags|)] == Empty && Path(flags, h, e)
  {
    if Path(flags, h, s) {
      e := s;
    } else {
      var t: nat :| t < s && flags[Slot(h, t, |flags|)] == Empty;
      e := LeastEmpty(flags, h, t);
    }
  }

  // ---------------------------------------------------------------- contents

  /** The buckets in `slots` hold the entries of `m`, each key exactly once. */
  ghost predicate Holds<K, V>(slots: set<nat>, keys: seq<K>, vals: seq<V>, m: map<K, V>)
    requires |keys| == |vals| && forall i | i in slots :: i < |keys|
  {
    && (forall i | i in slots :: keys[i] in m && m[keys[i]] == vals[i])
    && (forall i, j | i in slots && j in slots :: keys[i] == keys[j] ==> i == j)
    && (forall k | k in m :: exists i :: i in slots && keys[i] == k)
  }

  /** Every live bucket can be found by probing for the key it holds. */
  ghost predicate AllReachable<K>(flags: seq<Flag>, keys: seq<K>, hash: K -> nat)
    requires 0 < |flags| <= |keys|
  {
    forall i: nat | i < |flags| && flags[i] == Live :: Reachable(flags, hash(keys[i]), i)
  }

  /** `(khint_t)(n * 0.77 + 0.5)`, exact because `77 * n` is no multiple of 50
      when `n` is a power of two. */
  function UpperBound(n: nat): nat {
    (77 * n + 50) / 100
  }

  // ---------------------------------------------------------------- rehashing

  /** The state of the arrays in the middle of a rehash: `old` marks the buckets
      still to be moved, `new` the buckets already placed, and both kinds share
      the one key array and the one value array. Together they hold `m`. */
  ghost predicate Migrating<K, V>(src: seq<Flag>, dst: seq<Flag>, keys: seq<K>, vals: seq<V>,
                                  hash: K -> nat, m: map<K, V>)
  {
    && |src| <= |keys| == |vals| && 0 < |dst| <= |keys|
    && LiveSlots(src) !! LiveSlots(dst)
    && UsedSlots(dst) == LiveSlots(dst)
    && Holds(LiveSlots(src) + LiveSlots(dst), keys, vals, m)
    && AllReachable(dst, keys, hash)
  }

  lemma NoTombstones<K, V>(src: seq<Flag>, dst: seq<Flag>, keys: seq<K>, vals: seq<V>,
                           hash: K -> nat, m: map<K, V>)
    requires Migrating(src, dst, keys, vals, hash, m)
    ensures UsedSlots(dst) == LiveSlots(dst)
    ensures (forall i | 0 <= i < |src| :: src[i] != Live) ==>
              LiveSlots(src) == {} && Migrating([], dst, keys, vals, hash, m)
  {
    assert LiveSlots([]) == {};
  }

  lemma HoldsPlus<K, V>(slots: set<nat>, keys: seq<K>, vals: seq<V>, m: map<K, V>, key: K, val: V, i: nat)
    requires |keys| == |vals| && i < |keys| && i !in slots && forall j | j in slots :: j < |keys|
    requires Holds(slots, keys, vals, m) && key !in m
    ensures Holds(slots + {i}, keys[i := key], vals[i := val], m[key := val])
  {
    var keys2 := keys[i := key];
    var m2 := m[key := val];
    forall k | k in m2
      ensures exists j :: j in slots + {i} && keys2[j] == k
    {
      if k == key {
        assert keys2[i] == k;
      } else {
        var j :| j in slots && keys[j] == k;
        assert keys2[j] == k;
      }
    }
  }

  lemma HoldsMinus<K, V>(slots: set<nat>, keys: seq<K>, vals: seq<V>, m: map<K, V>, i: nat)
    requires |keys| == |vals| && i in slots && forall j | j in slots :: j < |keys|
    requires Holds(slots, keys, vals, m)
    ensures Holds(slots - {i}, keys, vals, m - {keys[i]})
  {
    forall k | k in m - {keys[i]}
      ensures exists j :: j in slots - {i} && keys[j] == k
    {
      var j :| j in slots && keys[j] == k;
      assert j != i;
    }
  }

  /** A bucket that becomes live under a reachable key leaves the rest reachable. */
  lemma ReachablePlus<K>(flags: seq<Flag>, keys: seq<K>, hash: K -> nat, key: K, i: nat)
    requires 0 < |flags| <= |keys| && AllReachable(flags, keys, hash)
    requires i < |flags| && Reachable(flags, hash(key), i)
    ensures AllReachable(flags[i := Live], keys[i := key], hash)
  {
    var flags2, keys2 := flags[i := Live], keys[i := key];
    forall j: nat | j < |flags2| && flags2[j] == Live
      ensures Reachable(flags2, hash(keys2[j]), j)
    {
      ReachableKept(flags, flags2, hash(keys2[j]), j);
    }
  }

  /** Writing the entry in hand into a free bucket of the new table. */
  lemma PlaceKeeps<K, V>(src: seq<Flag>, dst: seq<Flag>, keys: seq<K>, vals: seq<V>,
                         hash: K -> nat, m: map<K, V>, key: K, val: V, i: nat)
    requires Migrating(src, dst, keys, vals, hash, m) && key !in m
    requires i < |dst| && dst[i] == Empty && Reachable(dst, hash(key), i)
    requires i < |src| ==> src[i] != Live
    ensures Migrating(src, dst[i := Live], keys[i := key], vals[i := val], hash, m[key := val])
    ensures |LiveSlots(dst[i := Live])| == |LiveSlots(dst)| + 1
  {
    hide Holds, Reachable;
    assert LiveSlots(dst[i := Live]) == LiveSlots(dst) + {i};
    assert UsedSlots(dst[i := Live]) == UsedSlots(dst) + {i};
    ReachablePlus(dst, keys, hash, key, i);
    HoldsPlus(LiveSlots(src) + LiveSlots(dst), keys, vals, m, key, val, i);
    assert LiveSlots(src) + (LiveSlots(dst) + {i}) == LiveSlots(src) + LiveSlots(dst) + {i};
  }

  /** Taking the entry out of a bucket that is still to be moved. */
  lemma TakeKeeps<K, V>(src: seq<Flag>, dst: seq<Flag>, keys: seq<K>, vals: seq<V>,
                        hash: K -> nat, m: map<K, V>, i: nat)
    requires Migrating(src, dst, keys, vals, hash, m)
    requires i < |src| && src[i] == Live
    ensures keys[i] in m && m[keys[i]] == vals[i]
    ensures Migrating(src[i := Deleted], dst, keys, vals, hash, m - {keys[i]})
    ensures |LiveSlots(src[i := Deleted])| == |LiveSlots(src)| - 1
  {
    var src2 := src[i := Deleted];
    assert LiveSlots(src2) == LiveSlots(src) - {i};
    HoldsMinus(LiveSlots(src) + LiveSlots(dst), keys, vals, m, i);
    assert LiveSlots(src2) + LiveSlots(dst) == LiveSlots(src) + LiveSlots(dst) - {i};
  }

  /** The start of a rehash: the (possibly longer) arrays still hold the old entries. */
  lemma StartMigration<K, V>(src: seq<Flag>, n: nat, keys: seq<K>, vals: seq<V>, keys': seq<K>, vals': seq<V>,
                             hash: K -> nat, m: map<K, V>)
    requires |src| == |keys| == |vals| <= |keys'| == |vals'| && 0 < n <= |keys'|
    requires keys == keys'[..|src|] && vals == vals'[..|src|]
    requires Holds(LiveSlots(src), keys, vals, m)
    ensures Migrating(src, seq(n, _ => Empty), keys', vals', hash, m)
    ensures LiveSlots(seq(n, _ => Empty)) == {}
  {
    var none := seq(n, _ => Empty);
    assert LiveSlots(none) == {} == UsedSlots(none);
    assert LiveSlots(src) + LiveSlots(none) == LiveSlots(src);
    HoldsPrefix(LiveSlots(src), keys, vals, keys', vals', m);
  }

  /** Only the first elements of the arrays matter when all entries are there. */
  lemma HoldsPrefix<K, V>(slots: set<nat>, keys: seq<K>, vals: seq<V>, keys': seq<K>, vals': seq<V>, m: map<K, V>)
    requires |keys| == |vals| && |keys'| == |vals'| && forall i | i in slots :: i < |keys| && i < |keys'|
    requires forall i | i in slots :: keys[i] == keys'[i] && vals[i] == vals'[i]
    requires Holds(slots, keys, vals, m)
    ensures Holds(slots, keys', vals', m)
  {
    forall k | k in m
      ensures exists i :: i in slots && keys'[i] == k
    {
      var i :| i in slots && keys[i] == k;
      assert keys'[i] == k;
    }
  }

  /** The end of a rehash: the new buckets hold everything, whatever is cut off. */
  lemma FinishMigration<K, V>(dst: seq<Flag>, keys: seq<K>, vals: seq<V>, keys': seq<K>, vals': seq<V>,
                              hash: K -> nat, m: map<K, V>)
    requires Migrating([], dst, keys, vals, hash, m)
    requires |dst| == |keys'| == |vals'| && keys' == keys[..|dst|] && vals' == vals[..|dst|]
    ensures Holds(LiveSlots(dst), keys', vals', m) && AllReachable(dst, keys', hash)
    ensures UsedSlots(dst) == LiveSlots(dst)
    ensures forall i | 0 <= i < |dst| :: dst[i] != Deleted
  {
    assert LiveSlots([]) + LiveSlots(dst) == LiveSlots(dst);
    HoldsPrefix(LiveSlots(dst), keys, vals, keys', vals', m);
    forall i | 0 <= i < |dst|
      ensures dst[i] != Deleted
    {
      assert i in UsedSlots(dst) <==> i in LiveSlots(dst);
    }
  }

  /** One kick: the entry in hand takes bucket `i`, the old entry of `i` goes in hand. */
  lemma SwapKeeps<K, V>(src: seq<Flag>, dst: seq<Flag>, keys: seq<K>, vals: seq<V>,
                        hash: K -> nat, m: map<K, V>, key: K, val: V, i: nat)
    requires Migrating(src, dst, keys, vals, hash, m) && key !in m
    requires i < |dst| && dst[i] == Empty && Reachable(dst, hash(key), i)
    requires i < |src| && src[i] == Live
    ensures i < |keys| == |vals| && keys[i] in m && m[keys[i]] == vals[i]
    ensures Migrating(src[i := Deleted], dst[i := Live], keys[i := key], vals[i := val], hash,
                      (m - {keys[i]})[key := val])
    ensures |LiveSlots(src[i := Deleted])| == |LiveSlots(src)| - 1
    ensures |LiveSlots(dst[i := Live])| == |LiveSlots(dst)| + 1
  {
    TakeKeeps(src, dst, keys, vals, hash, m, i);
    PlaceKeeps(src[i := Deleted], dst, keys, vals, hash, m - {keys[i]}, key, val, i);
  }

  lemma SwapMap<K, V>(m: map<K, V>, k: K, key: K, val: V)
    requires k in m && key !in m
    ensures var m' := (m - {k})[key := val]; k !in m' && m'[k := m[k]] == m[key := val]
  {
  }

  lemma LiveEntry<K, V>(flags: seq<Flag>, keys: seq<K>, vals: seq<V>, m: map<K, V>, x: nat)
    requires |flags| == |keys| == |vals| && x < |flags| && flags[x] == Live
    requires Holds(LiveSlots(flags), keys, vals, m)
    ensures keys[x] in m && m[keys[x]] == vals[x]
  {
    assert x in LiveSlots(flags);
  }

  lemma EmptyTable<K, V>(flags: seq<Flag>, keys: seq<K>, vals: seq<V>, m: map<K, V>)
    requires |flags| == |keys| == |vals| == 0 && Holds(LiveSlots(flags), keys, vals, m)
    ensures m == map[]
  {
    assert LiveSlots(flags) == {};
  }

  /** A free bucket on the key's path becomes live: one more entry, still all found. */
  lemma InsertKeeps<K, V>(flags: seq<Flag>, keys: seq<K>, vals: seq<V>, hash: K -> nat,
                          m: map<K, V>, key: K, val: V, x: nat)
    requires 0 < |flags| == |keys| == |vals| && x < |flags| && flags[x] != Live && key !in m
    requires Holds(LiveSlots(flags), keys, vals, m) && AllReachable(flags, keys, hash)
    requires Reachable(flags, hash(key), x)
    ensures Holds(LiveSlots(flags[x := Live]), keys[x := key], vals[x := val], m[key := val])
    ensures AllReachable(flags[x := Live], keys[x := key], hash)
    ensures |LiveSlots(flags[x := Live])| == |LiveSlots(flags)| + 1
    ensures |UsedSlots(flags[x := Live])| == |UsedSlots(flags)| + if flags[x] == Empty then 1 else 0
  {
    hide Holds, Reachable;
    assert LiveSlots(flags[x := Live]) == LiveSlots(flags) + {x};
    assert UsedSlots(flags[x := Live]) == UsedSlots(flags) + {x};
    assert flags[x] != Empty ==> UsedSlots(flags) + {x} == UsedSlots(flags);
    HoldsPlus(LiveSlots(flags), keys, vals, m, key, val, x);
    ReachablePlus(flags, keys, hash, key, x);
  }

  /** A live bucket becomes a tombstone: it still carries every probe past it. */
  lemma DeleteKeeps<K, V>(flags: seq<Flag>, keys: seq<K>, vals: seq<V>, hash: K -> nat,
                          m: map<K, V>, x: nat)
    requires 0 < |flags| == |keys| == |vals| && x < |flags| && flags[x] == Live
    requires Holds(LiveSlots(flags), keys, vals, m) && AllReachable(flags, keys, hash)
    ensures Holds(LiveSlots(flags[x := Deleted]), keys, vals, m - {keys[x]})
    ensures AllReachable(flags[x := Deleted], keys, hash)
    ensures |LiveSlots(flags[x := Deleted])| == |LiveSlots(flags)| - 1
    ensures UsedSlots(flags[x := Deleted]) == UsedSlots(flags)
  {
    hide Holds, Reachable;
    var flags2 := flags[x := Deleted];
    assert LiveSlots(flags2) == LiveSlots(flags) - {x};
    HoldsMinus(LiveSlots(flags), keys, vals, m, x);
    forall i: nat | i < |flags2| && flags2[i] == Live
      ensures Reachable(flags2, hash(keys[i]), i)
    {
      ReachableKept(flags, flags2, hash(keys[i]), i);
    }
  }

  lemma OverwriteKeeps<K, V>(slots: set<nat>, keys: seq<K>, vals: seq<V>, m: map<K, V>, x: nat, v: V)
    requires |keys| == |vals| && x in slots && forall i | i in slots :: i < |keys|
    requires Holds(slots, keys, vals, m)
    ensures Holds(slots, keys, vals[x := v], m[keys[x] := v])
  {
    var m2, vals2 := m[keys[x] := v], vals[x := v];
    forall i | i in slots
      ensures keys[i] in m2 && m2[keys[i]] == vals2[i]
    {
      assert keys[i] in m && m[keys[i]] == vals[i] && (keys[i] == keys[x] ==> i == x);
    }
    forall k | k in m2
      ensures exists i :: i in slots && keys[i] == k
    {
      assert k in m;
      var i :| i in slots && keys[i] == k;
    }
  }

  lemma {:induction false} HoldsSize<K, V>(slots: set<nat>, keys: seq<K>, vals: seq<V>, m: map<K, V>)
    requires |keys| == |vals| && forall i | i in slots :: i < |keys|
    requires Holds(slots, keys, vals, m)
    ensures |slots| == |m|
  {
    if slots == {} {
      HoldsNothing(keys, vals, m);
    } else {
      var i :| i in slots;
      HoldsEntry(slots, keys, vals, m, i);
      HoldsMinus(slots, keys, vals, m, i);
      hide Holds;
      HoldsSize(slots - {i}, keys, vals, m - {keys[i]});
      OneLess(m, keys[i]);
    }
  }

  lemma HoldsNothing<K, V>(keys: seq<K>, vals: seq<V>, m: map<K, V>)
    requires |keys| == |vals| && Holds({}, keys, vals, m)
    ensures m == map[]
  {
  }

  lemma HoldsEntry<K, V>(slots: set<nat>, keys: seq<K>, vals: seq<V>, m: map<K, V>, i: nat)
    requires |keys| == |vals| && i in slots && forall j | j in slots :: j < |keys|
    requires Holds(slots, keys, vals, m)
    ensures keys[i] in m && m[keys[i]] == vals[i]
  {
  }

  lemma OneLess<K, V>(m: map<K, V>, k: K)
    requires k in m
    ensures |m| == |m - {k}| + 1
  {
    assert m.Keys == (m - {k}).Keys + {k};
  }

  // ---------------------------------------------------------------- probing

  /** Probe `s` has met neither an empty bucket nor the key. */
  ghost predicate Passed<K>(flags: seq<Flag>, keys: seq<K>, h: nat, key: K, s: nat)
    requires 0 < |flags| <= |keys|
  {
    forall t: nat | t < s ::
      var i := Slot(h, t, |flags|);
      flags[i] != Empty && (flags[i] == Live ==> keys[i] != key)
  }

  /** Nothing in use is reachable beyond the first empty bucket. */
  lemma ReachedBefore(flags: seq<Flag>, h: nat, e: nat, i: nat)
    requires |flags| > 0 && flags[Slot(h, e, |flags|)] == Empty
    requires i < |flags| && flags[i] != Empty && Reachable(flags, h, i)
    ensures exists t: nat :: t < e && Slot(h, t, |flags|) == i
  {
    var s: nat :| Slot(h, s, |flags|) == i && Path(flags, h, s);
    assert s < e;
  }

  /** A probe that ends at an empty bucket shows that the key is not in the table. */
  lemma Absent<K, V>(flags: seq<Flag>, keys: seq<K>, vals: seq<V>, hash: K -> nat, m: map<K, V>,
                     key: K, e: nat)
    requires 0 < |flags| == |keys| == |vals| && Passed(flags, keys, hash(key), key, e)
    requires flags[Slot(hash(key), e, |flags|)] == Empty
    requires Holds(LiveSlots(flags), keys, vals, m) && AllReachable(flags, keys, hash)
    ensures key !in m && Path(flags, hash(key), e)
  {
    if key in m {
      var i :| i in LiveSlots(flags) && keys[i] == key;
      ReachedBefore(flags, hash(key), e, i);
    }
  }

  /** Bookkeeping of `site`: `site` is the bucket count, or the last tombstone passed. */
  ghost predicate SiteIs(flags: seq<Flag>, h: nat, s: nat, site: nat)
    requires |flags| > 0
  {
    if site == |flags| then
      forall t: nat | t < s :: flags[Slot(h, t, |flags|)] != Deleted
    else
      exists at: nat :: at < s && site == Slot(h, at, |flags|) && flags[site] == Deleted &&
        forall t: nat | at < t < s :: flags[Slot(h, t, |flags|)] != Deleted
  }

  lemma NoSite(flags: seq<Flag>, h: nat)
    requires |flags| > 0
    ensures SiteIs(flags, h, 0, |flags|) && Slot(h, 0, |flags|) == h % |flags|
  {
  }

  lemma NextSite(flags: seq<Flag>, h: nat, s: nat, site: nat)
    requires |flags| > 0 && SiteIs(flags, h, s, site)
    ensures SiteIs(flags, h, s + 1,
                   if flags[Slot(h, s, |flags|)] == Deleted then Slot(h, s, |flags|) else site)
  {
    if site != |flags| && flags[Slot(h, s, |flags|)] != Deleted {
      var at: nat :| at < s && site == Slot(h, at, |flags|) && flags[site] == Deleted &&
        forall t: nat | at < t < s :: flags[Slot(h, t, |flags|)] != Deleted;
      assert at < s + 1;
    }
  }

  lemma PathEnd(flags: seq<Flag>, h: nat, s: nat)
    requires |flags| > 0 && Path(flags, h, s)
    ensures Reachable(flags, h, Slot(h, s, |flags|))
  {
  }

  lemma SiteFinal(flags: seq<Flag>, h: nat, e: nat, site: nat)
    requires |flags| > 0 && SiteIs(flags, h, e, site)
    requires flags[Slot(h, e, |flags|)] == Empty && Path(flags, h, e)
    ensures site == |flags| ==> !TombstoneOnPath(flags, h)
    ensures site != |flags| ==>
              site < |flags| && LastTombstone(flags, h, site) && Reachable(flags, h, site) &&
              TombstoneOnPath(flags, h)
  {
    if TombstoneOnPath(flags, h) {
      var i: nat :| i < |flags| && flags[i] == Deleted && Reachable(flags, h, i);
      ReachedBefore(flags, h, e, i);
    }
    if site != |flags| {
      var at: nat :| at < e && site == Slot(h, at, |flags|) && flags[site] == Deleted &&
        forall t: nat | at < t < e :: flags[Slot(h, t, |flags|)] != Deleted;
      assert Path(flags, h, at);
    }
  }

  /** The next probe, computed incrementally, and that it is not the first again. */
  lemma NextProbe(h: nat, s: nat, n: nat)
    requires PowerOfTwo(n) && s + 2 < 2 * n
    ensures Slot(h, s + 1, n) == (Slot(h, s, n) + (s + 1)) % n != h % n
  {
    SlotStep(h, s, n);
    ProbesDistinct(h, 0, s + 1, n);
  }

  // ---------------------------------------------------------------- the table

  class Table<K(==,0), V(0)> {
    const hash: K -> nat
    ghost var Contents: map<K, V>

    var nBuckets: nat
    var size: nat
    var nOccupied: nat
    var upperBound: nat
    var flags: array<Flag>
    var keys: array<K>
    var vals: array<V>

    ghost function Repr(): set<object>
      reads this
    {
      {this, flags, keys, vals}
    }

    ghost predicate Shaped()
      reads this
    {
      && flags as object != keys && flags as object != vals && keys as object != vals
      && flags.Length == keys.Length == vals.Length == nBuckets
      && (nBuckets > 0 ==> 4 <= nBuckets <= 0x8000_0000 && PowerOfTwo(nBuckets))
    }

    ghost predicate Valid()
      reads this, flags, keys, vals
    {
      && Shaped()
      && upperBound == UpperBound(nBuckets)
      && size == |LiveSlots(flags[..])|
      && nOccupied == |UsedSlots(flags[..])| <= upperBound
      && Holds(LiveSlots(flags[..]), keys[..], vals[..], Contents)
      && (nBuckets > 0 ==> AllReachable(flags[..], keys[..], hash))
    }

    constructor (hash: K -> nat)
      ensures Valid() && fresh(Repr())
      ensures this.hash == hash && Contents == map[]
    {
      this.hash := hash;
      Contents := map[];
      nBuckets, size, nOccupied, upperBound := 0, 0, 0, 0;
      flags, keys, vals := new Flag[0], new K[0], new V[0];
      new;
      assert LiveSlots(flags[..]) == {} == UsedSlots(flags[..]);
    }

    method Clear()
      requires Valid()
      modifies this, flags
      ensures Valid() && Repr() == old(Repr())
      ensures Contents == map[]
      ensures nBuckets == old(nBuckets)
    {
      forall i | 0 <= i < flags.Length {
        flags[i] := Empty;
      }
      size, nOccupied := 0, 0;
      Contents := map[];
      assert LiveSlots(flags[..]) == {} == UsedSlots(flags[..]);
    }

    /** `__hash_equal`: only the key of a live bucket may be looked at. */
    predicate SameKey(x: nat, key: K)
      requires x < flags.Length == keys.Length && flags[x] == Live
      reads this, flags, keys
    {
      keys[x] == key
    }

    /** Finds the bucket of a key; `compared` are the buckets whose keys it looked at. */
    method Get(key: K) returns (x: nat, ghost compared: set<nat>)
      requires Valid()
      ensures forall i | i in compared :: i < nBuckets && flags[i] == Live
      ensures x <= nBuckets
      ensures key in Contents <==> x < nBuckets
      ensures x < nBuckets ==>
                x in compared && flags[x] == Live && keys[x] == key && vals[x] == Contents[key]
    {
      hide Holds, AllReachable, LiveSlots, UsedSlots, PowerOfTwo, UpperBound;
      compared := {};
      if nBuckets == 0 {
        EmptyTable(flags[..], keys[..], vals[..], Contents);
        return 0, {};
      }
      UpperBoundFits(nBuckets);
      var step, i := 0, hash(key) % nBuckets;
      var last := i;
      ghost var h, f, ks := hash(key), flags[..], keys[..];
      ghost var e := FirstEmpty(f, h);
      while flags[i] != Empty && (flags[i] == Deleted || !SameKey(i, key))
        invariant step <= e && i == Slot(h, step, nBuckets)
        invariant Passed(f, ks, h, key, step)
        invariant forall j | j in compared :: j < nBuckets && flags[j] == Live
        decreases e - step
      {
        compared := if flags[i] == Live then compared + {i} else compared;
        NextProbe(h, step, nBuckets);
        step := step + 1;
        i := (i + step) % nBuckets;
        if i == last {
          return nBuckets, compared;
        }
      }
      x := if flags[i] != Live then nBuckets else i;
      if flags[i] == Empty {
        Absent(f, ks, vals[..], hash, Contents, key, step);
      } else {
        compared := compared + {i};
        LiveEntry(f, ks, vals[..], Contents, i);
      }
    }

    /** The kick-out loop: places the entry in hand, and every live entry it
        displaces, by probing the new table only. */
    method KickOut(newFlags: array<Flag>, key0: K, val0: V, ghost m: map<K, V>)
      requires Separate(newFlags)
      requires Migrating(flags[..], newFlags[..], keys[..], vals[..], hash, m) && key0 !in m
      requires PowerOfTwo(newFlags.Length)
      requires |LiveSlots(flags[..])| + |LiveSlots(newFlags[..])| + 1 < newFlags.Length
      modifies flags, newFlags, keys, vals
      ensures Migrating(flags[..], newFlags[..], keys[..], vals[..], hash, m[key0 := val0])
      ensures |LiveSlots(flags[..])| + |LiveSlots(newFlags[..])|
           == old(|LiveSlots(flags[..])| + |LiveSlots(newFlags[..])|) + 1
      ensures forall i | 0 <= i < flags.Length :: flags[i] == Live ==> old(flags[i]) == Live
    {
      hide Migrating, LiveSlots, UsedSlots, Reachable, PowerOfTwo, Holds, AllReachable;
      var key, val := key0, val0;
      ghost var rest := m;
      ghost var total := |LiveSlots(flags[..])| + |LiveSlots(newFlags[..])|;
      while true
        invariant Migrating(flags[..], newFlags[..], keys[..], vals[..], hash, rest)
        invariant key !in rest && rest[key := val] == m[key0 := val0]
        invariant |LiveSlots(flags[..])| + |LiveSlots(newFlags[..])| == total
        invariant forall i | 0 <= i < flags.Length :: flags[i] == Live ==> old(flags[i]) == Live
        decreases |LiveSlots(flags[..])|
      {
        NoTombstones(flags[..], newFlags[..], keys[..], vals[..], hash, rest);
        var i := FreeSlot(newFlags, hash(key));
        ghost var f, g, ks, vs := flags[..], newFlags[..], keys[..], vals[..];
        newFlags[i] := Live;
        if i < flags.Length && flags[i] == Live {
          SwapKeeps(f, g, ks, vs, hash, rest, key, val, i);
          SwapMap(rest, ks[i], key, val);
          rest := (rest - {ks[i]})[key := val];
          var k, v := keys[i], vals[i];
          keys[i], vals[i] := key, val;
          key, val := k, v;
          flags[i] := Deleted;
          assert flags[..] == f[i := Deleted] && newFlags[..] == g[i := Live];
          assert keys[..] == ks[i := keys[i]] && vals[..] == vs[i := vals[i]];
        } else {
          PlaceKeeps(f, g, ks, vs, hash, rest, key, val, i);
          keys[i] := key;
          vals[i] := val;
          assert flags[..] == f && newFlags[..] == g[i := Live];
          assert keys[..] == ks[i := key] && vals[..] == vs[i := val];
          return;
        }
      }
    }

    ghost predicate Separate(newFlags: array<Flag>)
      reads this
    {
      && flags as object != keys && flags as object != vals && keys as object != vals
      && newFlags as object !in {this, flags, keys, vals}
      && flags.Length <= keys.Length == vals.Length && 0 < newFlags.Length <= keys.Length
    }

    /** The probe loop of the rehash: the first empty bucket for a hash. */
    method FreeSlot(newFlags: array<Flag>, h: nat) returns (i: nat)
      requires PowerOfTwo(newFlags.Length) && |UsedSlots(newFlags[..])| < newFlags.Length
      ensures i < newFlags.Length && newFlags[i] == Empty && Reachable(newFlags[..], h, i)
    {
      var step := 0;
      i := h % newFlags.Length;
      ghost var e := FirstEmpty(newFlags[..], h);
      while newFlags[i] != Empty
        invariant step <= e && i == Slot(h, step, newFlags.Length)
        decreases e - step
      {
        SlotStep(h, step, newFlags.Length);
        step := step + 1;
        i := (i + step) % newFlags.Length;
      }
      assert Path(newFlags[..], h, step);
    }

    /** Moves every live entry into the buckets of `newFlags`, in place. */
    method Rehash(newFlags: array<Flag>)
      requires Separate(newFlags)
      requires Migrating(flags[..], newFlags[..], keys[..], vals[..], hash, Contents)
      requires PowerOfTwo(newFlags.Length)
      requires |LiveSlots(flags[..])| + |LiveSlots(newFlags[..])| < newFlags.Length
      modifies flags, newFlags, keys, vals
      ensures Migrating([], newFlags[..], keys[..], vals[..], hash, Contents)
      ensures |LiveSlots(newFlags[..])| == old(|LiveSlots(flags[..])| + |LiveSlots(newFlags[..])|)
    {
      hide Migrating, LiveSlots, UsedSlots, Holds, AllReachable, PowerOfTwo;
      var j := 0;
      ghost var total := |LiveSlots(flags[..])| + |LiveSlots(newFlags[..])|;
      while j != flags.Length
        invariant j <= flags.Length
        invariant Migrating(flags[..], newFlags[..], keys[..], vals[..], hash, Contents)
        invariant |LiveSlots(flags[..])| + |LiveSlots(newFlags[..])| == total
        invariant forall i | 0 <= i < j :: flags[i] != Live
      {
        if flags[j] == Live {
          ghost var f := flags[..];
          TakeKeeps(f, newFlags[..], keys[..], vals[..], hash, Contents, j);
          var key, val := keys[j], vals[j];
          flags[j] := Deleted;
          assert flags[..] == f[j := Deleted];
          KickOut(newFlags, key, val, Contents - {key});
          assert (Contents - {key})[key := val] == Contents;
        }
        j := j + 1;
      }
      NoTombstones(flags[..], newFlags[..], keys[..], vals[..], hash, Contents);
    }

    /** The probe loop of `kh_put`: the bucket that the key already has, or the
        one it will be put in. */
    method Locate(key: K) returns (x: nat)
      requires Valid() && nOccupied < nBuckets
      ensures x < nBuckets
      ensures key in Contents ==> flags[x] == Live && keys[x] == key
      ensures key !in Contents ==> flags[x] != Live && Reachable(flags[..], hash(key), x)
      ensures key !in Contents ==>
                if TombstoneOnPath(flags[..], hash(key)) then LastTombstone(flags[..], hash(key), x)
                else flags[x] == Empty
    {
      hide TombstoneOnPath, LastTombstone, Reachable, AllReachable, SiteIs, Holds, LiveSlots, UsedSlots, PowerOfTwo,
        UpperBound;
      var site: nat, i := nBuckets, hash(key) % nBuckets;
      ghost var h, f, ks, step' := hash(key), flags[..], keys[..], 0;
      ghost var e := FirstEmpty(f, h);
      x := nBuckets;
      if flags[i] == Empty {
        x := i;
        NoSite(f, h);
      } else {
        var step, last := 0, i;
        NoSite(f, h);
        while flags[i] != Empty && (flags[i] == Deleted || !SameKey(i, key))
          invariant step <= e && i == Slot(h, step, nBuckets) && x == nBuckets
          invariant Passed(f, ks, h, key, step) && SiteIs(f, h, step, site)
          decreases e - step
        {
          NextSite(f, h, step, site);
          if flags[i] == Deleted {
            site := i;
          }
          NextProbe(h, step, nBuckets);
          step := step + 1;
          i := (i + step) % nBuckets;
          if i == last {
            x := site;
            break;
          }
        }
        if x == nBuckets {
          if flags[i] == Empty && site != nBuckets {
            x := site;
          } else {
            x := i;
          }
        }
        step' := step;
      }
      if flags[i] == Empty {
        Absent(f, ks, vals[..], hash, Contents, key, step');
        SiteFinal(f, h, step', site);
        PathEnd(f, h, step');
      } else {
        LiveEntry(f, ks, vals[..], Contents, i);
      }
    }

    /** There are spare buckets, or more can be had: a table of 2^31 buckets with as
        many entries as 2^30 can neither be doubled nor purged. */
    predicate HasRoom()
      reads this
    {
      nOccupied < upperBound || size < 0x4000_0000
    }

    /** The first half of `kh_put`: a table without spare buckets is rehashed,
        to purge its tombstones or to double it. Without room nothing happens. */
    method MakeRoom()
      requires Valid()
      modifies Repr()
      ensures Valid() && fresh(Repr() - old(Repr()))
      ensures Contents == old(Contents) && (nBuckets > 0 ==> upperBound < nBuckets)
      ensures nOccupied < upperBound <==> old(HasRoom())
      ensures if old(nOccupied < upperBound)
              then Repr() == old(Repr()) && nBuckets == old(nBuckets) && flags[..] == old(flags[..])
              else old(HasRoom()) ==> forall i | 0 <= i < nBuckets :: flags[i] != Deleted
    {
      hide LiveSlots, UsedSlots, Holds, AllReachable, Reachable, PowerOfTwo, UpperBound, NewCapacity;
      UpperBoundFits(nBuckets);
      if nOccupied >= upperBound {
        LiveUsed(flags[..]);
        CapacityShape(if nBuckets > 2 * size then nBuckets - 1 else nBuckets + 1);
        if size < 0x4000_0000 {
          RoomFound(nBuckets, size);
        } else {
          NoRoomFound(nBuckets, size);
        }
        Resize(if nBuckets > 2 * size then nBuckets - 1 else nBuckets + 1);
      }
    }

    method Put(key: K) returns (x: nat, ret: int)
      requires Valid() && HasRoom()
      modifies Repr()
      ensures Valid() && fresh(Repr() - old(Repr()))
      ensures x < nBuckets && flags[x] == Live && keys[x] == key
      ensures Contents == old(Contents)[key := vals[x]]
      ensures ret == 0 ==> Contents == old(Contents)
      ensures ret == if key in old(Contents) then 0
                     else if old(nOccupied < upperBound && TombstoneOnPath(flags[..], hash(key))) then 2
                     else 1
    {
      hide LiveSlots, UsedSlots, Holds, AllReachable, Reachable, PowerOfTwo, UpperBound;
      MakeRoom();
      UpperBoundFits(nBuckets);
      x := Locate(key);
      ret := Occupy(key, x);
    }

    /** The last part of `kh_put`: claims the bucket found for the key. */
    method Occupy(key: K, x: nat) returns (ret: int)
      requires Valid() && nOccupied < upperBound
      requires x < nBuckets
      requires key in Contents ==> flags[x] == Live && keys[x] == key
      requires key !in Contents ==> flags[x] != Live && Reachable(flags[..], hash(key), x)
      modifies this, flags, keys
      ensures Valid() && Repr() == old(Repr()) && nBuckets == old(nBuckets)
      ensures flags[x] == Live && keys[x] == key && vals[x] == old(vals[x])
      ensures Contents == old(Contents)[key := vals[x]]
      ensures ret == match old(flags[x]) case Live => 0 case Deleted => 2 case Empty => 1
      ensures ret == 0 ==> Contents == old(Contents)
    {
      hide LiveSlots, UsedSlots, Holds, AllReachable, Reachable, PowerOfTwo, UpperBound;
      ghost var f, ks := flags[..], keys[..];
      if flags[x] == Empty {
        keys[x] := key;
        flags[x] := Live;
        size, nOccupied, ret := size + 1, nOccupied + 1, 1;
      } else if flags[x] == Deleted {
        keys[x] := key;
        flags[x] := Live;
        size, ret := size + 1, 2;
      } else {
        ret := 0;
      }
      if ret == 0 {
        LiveEntry(f, ks, vals[..], Contents, x);
      } else {
        assert flags[..] == f[x := Live] && keys[..] == ks[x := key];
        assert vals[..] == vals[..][x := vals[x]];
        InsertKeeps(f, ks, vals[..], hash, Contents, key, vals[x], x);
        Contents := Contents[key := vals[x]];
      }
    }

    /** `kh_del`: a tombstone in place of a live bucket; any other is left alone. */
    method Del(x: nat)
      requires Valid() && x <= nBuckets
      modifies this, flags
      ensures Valid() && Repr() == old(Repr()) && nOccupied == old(nOccupied)
      ensures if x < nBuckets && old(flags[x]) == Live
              then old(keys[x]) in old(Contents) && Contents == old(Contents) - {old(keys[x])}
              else Contents == old(Contents) && flags[..] == old(flags[..])
    {
      hide Holds, AllReachable, LiveSlots, UsedSlots, PowerOfTwo, UpperBound;
      if x != nBuckets && flags[x] == Live {
        ghost var f, ks, vs := flags[..], keys[..], vals[..];
        LiveEntry(f, ks, vs, Contents, x);
        DeleteKeeps(f, ks, vs, hash, Contents, x);
        flags[x] := Deleted;
        size := size - 1;
        assert flags[..] == f[x := Deleted] && keys[..] == ks && vals[..] == vs;
        Contents := Contents - {keys[x]};
      }
    }

    /** `kh_val(h, x) = v` on the bucket of a key. */
    method SetVal(x: nat, v: V)
      requires Valid() && x < nBuckets && flags[x] == Live
      modifies this`Contents, vals
      ensures Valid() && Repr() == old(Repr())
      ensures Contents == old(Contents)[keys[x] := v] && keys[x] in old(Contents)
    {
      ghost var vs := vals[..];
      LiveEntry(flags[..], keys[..], vs, Contents, x);
      vals[x] := v;
      assert vals[..] == vs[x := v];
      OverwriteKeeps(LiveSlots(flags[..]), keys[..], vs, Contents, x, v);
      Contents := Contents[keys[x] := v];
    }

    lemma SizeIsCardinality()
      requires Valid()
      ensures size == |Contents|
    {
      HoldsSize(LiveSlots(flags[..]), keys[..], vals[..], Contents);
    }

    method Resize(requested: nat)
      requires Valid() && requested < 0x1_0000_0000
      modifies Repr()
      ensures Valid() && fresh(Repr() - old(Repr()))
      ensures Contents == old(Contents) && size == old(size) && upperBound == UpperBound(nBuckets)
      ensures size >= UpperBound(NewCapacity(requested)) ==>
                && Repr() == old(Repr()) && nBuckets == old(nBuckets) && nOccupied == old(nOccupied)
                && flags[..] == old(flags[..])
      ensures size < UpperBound(NewCapacity(requested)) ==>
                && nBuckets == NewCapacity(requested) && nOccupied == size
                && forall i | 0 <= i < nBuckets :: flags[i] != Deleted
    {
      hide Valid, PowerOfTwo, UpperBound, RoundUp32, LiveSlots, UsedSlots;
      var n := RoundUp32(requested);
      if n < 4 {
        n := 4;
      }
      assert n == NewCapacity(requested);
      hide NewCapacity;
      CapacityShape(requested);
      UpperIs();
      if size >= UpperBound(n) {
        return;
      }
      Rebuild(n);
    }

    lemma UpperIs()
      requires Valid()
      ensures upperBound == UpperBound(nBuckets)
    {
    }

    /** The rehash proper: new flags, longer arrays if need be, the entries moved, and
        the arrays cut down if they are too long. */
    method Rebuild(n: nat)
      requires Valid() && size < UpperBound(n) < n
      requires PowerOfTwo(n) && 4 <= n <= 0x8000_0000
      modifies Repr()
      ensures Valid() && fresh(Repr() - old(Repr()))
      ensures Contents == old(Contents) && size == old(size) && upperBound == UpperBound(n)
      ensures nBuckets == n && nOccupied == size
      ensures forall i | 0 <= i < nBuckets :: flags[i] != Deleted
    {
      hide LiveSlots, UsedSlots, Holds, AllReachable, Reachable, PowerOfTwo, Migrating, UpperBound;
      ghost var f, ks, vs := flags[..], keys[..], vals[..];
      var newFlags := new Flag[n](_ => Empty);
      Grow(n);
      StartMigration(f, n, ks, vs, keys[..], vals[..], hash, Contents);
      assert newFlags[..] == seq(n, _ => Empty);
      Rehash(newFlags);
      Adopt(newFlags);
    }

    method Grow(n: nat)
      requires keys.Length == vals.Length == nBuckets && keys as object != vals
      modifies `keys, `vals
      ensures keys as object != vals
      ensures (keys == old(keys) && vals == old(vals)) || (fresh(keys) && fresh(vals))
      ensures keys.Length == vals.Length == if nBuckets < n then n else nBuckets
      ensures keys[..nBuckets] == old(keys[..]) && vals[..nBuckets] == old(vals[..])
    {
      if nBuckets < n {
        keys := Realloc(keys, n);
        vals := Realloc(vals, n);
      }
    }

    method Shrink(n: nat)
      requires keys.Length == vals.Length == (if nBuckets < n then n else nBuckets) && keys as object != vals
      modifies `keys, `vals
      ensures keys as object != vals && keys.Length == vals.Length == n
      ensures (keys == old(keys) && vals == old(vals)) || (fresh(keys) && fresh(vals))
      ensures keys[..] == old(keys[..])[..n] && vals[..] == old(vals[..])[..n]
    {
      if nBuckets > n {
        keys := Realloc(keys, n);
        vals := Realloc(vals, n);
      }
    }

    /** The end of `kh_resize`: cuts the arrays down and adopts the new flags. */
    method Adopt(newFlags: array<Flag>)
      requires Separate(newFlags)
      requires keys.Length == if nBuckets < newFlags.Length then newFlags.Length else nBuckets
      requires Migrating([], newFlags[..], keys[..], vals[..], hash, Contents)
      requires |LiveSlots(newFlags[..])| == size < UpperBound(newFlags.Length)
      requires PowerOfTwo(newFlags.Length) && 4 <= newFlags.Length <= 0x8000_0000
      modifies this
      ensures Valid() && flags == newFlags
      ensures (keys == old(keys) && vals == old(vals)) || (fresh(keys) && fresh(vals))
      ensures Contents == old(Contents) && size == old(size) && nBuckets == newFlags.Length
      ensures nOccupied == size
      ensures forall i | 0 <= i < nBuckets :: flags[i] != Deleted
    {
      hide LiveSlots, UsedSlots, Holds, AllReachable, Reachable, PowerOfTwo, Migrating, UpperBound;
      var n := newFlags.Length;
      ghost var ks, vs := keys[..], vals[..];
      Shrink(n);
      FinishMigration(newFlags[..], ks, vs, keys[..], vals[..], hash, Contents);
      flags, nBuckets, nOccupied, upperBound := newFlags, n, size, UpperBound(n);
    }
  }

  /** `realloc`: the common prefix survives. */
  method Realloc<T(0)>(a: array<T>, n: nat) returns (b: array<T>)
    ensures fresh(b) && b.Length == n
    ensures forall i | 0 <= i < n && i < a.Length :: b[i] == a[i]
  {
    b := new T[n];
    forall i | 0 <= i < n && i < a.Length {
      b[i] := a[i];
    }
  }

  /** `kh_resize` asks for a power of two, and for 4 buckets at least. */
  function NewCapacity(requested: nat): (n: nat)
    requires requested < 0x1_0000_0000
  {
    var n := RoundUp32(requested);
    if n < 4 then 4 else n
  }

  lemma UpperBoundFits(n: nat)
    ensures if n == 0 then UpperBound(n) == 0 else n >= 4 ==> UpperBound(n) < n
  {
  }

  /** The bound is the capacity times 0.77, rounded to the nearest integer. */
  lemma UpperBoundRounds(n: nat)
    ensures UpperBound(n) == (n as real * 0.77 + 0.5).Floor
  {
    var x := n as real * 0.77 + 0.5;
    var q, r := (77 * n + 50) / 100, (77 * n + 50) % 100;
    assert x == (77 * n + 50) as real / 100.0;
    assert (77 * n + 50) as real == (100 * q + r) as real == 100.0 * q as real + r as real;
    assert q as real <= x < q as real + 1.0;
  }

  /** The capacity is the least power of two of at least four buckets that is not below
      the request; above 2^31 the request wraps around to four buckets. */
  lemma CapacityLeast(requested: nat)
    requires requested < 0x1_0000_0000
    ensures var n := NewCapacity(requested);
            && PowerOfTwo(n) && n >= 4
            && (requested <= 0x8000_0000 ==> requested <= n && (n == 4 || n < 2 * requested))
            && (requested > 0x8000_0000 ==> n == 4)
  {
    CapacityShape(requested);
    RoundUp32Least(requested);
  }

  lemma CapacityShape(requested: nat)
    requires requested < 0x1_0000_0000
    ensures var n := NewCapacity(requested);
            4 <= n <= 0x8000_0000 && PowerOfTwo(n) && UpperBound(n) < n
  {
    RoundUp32Least(requested);
    assert PowerOfTwo(4) by { assert PowerOfTwo(2); }
  }

  /** Asking for one bucket less rounds up to the present capacity. */
  lemma PurgeCapacity(n: nat, size: nat)
    requires PowerOfTwo(n) && 4 <= n <= 0x8000_0000 && n > 2 * size
    ensures NewCapacity(n - 1) == n && size < UpperBound(n)
  {
    hide RoundUp32, PowerOfTwo;
    RoundUp32Least(n - 1);
    SamePower(RoundUp32(n - 1), n);
  }

  /** Asking for one bucket more doubles the capacity, from 0 to 4. */
  lemma DoubleCapacity(n: nat, size: nat)
    requires n == 0 || (PowerOfTwo(n) && 4 <= n <= 0x8000_0000)
    requires n <= 2 * size < 0x8000_0000 || n == 0
    requires size <= UpperBound(n)
    ensures NewCapacity(n + 1) == if n == 0 then 4 else 2 * n
    ensures size < UpperBound(NewCapacity(n + 1)) < NewCapacity(n + 1)
  {
    RoundUp32Least(n + 1);
    if n > 0 {
      assert PowerOfTwo(2 * n) by { assert 2 * n / 2 == n; }
      SamePower(RoundUp32(n + 1), 2 * n);
    }
  }

  lemma RoomFound(n: nat, size: nat)
    requires n == 0 || (PowerOfTwo(n) && 4 <= n <= 0x8000_0000)
    requires size < 0x4000_0000 && size <= UpperBound(n)
    ensures var c := NewCapacity(if n > 2 * size then n - 1 else n + 1);
            size < UpperBound(c) < c
  {
    if n > 2 * size {
      PurgeCapacity(n, size);
      UpperBoundFits(n);
    } else {
      DoubleCapacity(n, size);
    }
  }

  /** Beyond 2^31 buckets the capacity asked for wraps around to 4. */
  lemma NoRoomFound(n: nat, size: nat)
    requires PowerOfTwo(n) && 4 <= n <= 0x8000_0000 && 0x4000_0000 <= size <= UpperBound(n)
    ensures n == 0x8000_0000 && n <= 2 * size < 0x1_0000_0000
    ensures NewCapacity(n + 1) == 4 && UpperBound(4) <= size
  {
    hide PowerOfTwo, RoundUp32;
    UpperBoundFits(n);
    RoundUp32Least(0x8000_0000);
    if n < 0x8000_0000 {
      PowersApart(n, 0x8000_0000);
    }
    RoundUp32Least(n + 1);
  }

  lemma {:induction false} PowersApart(a: nat, b: nat)
    requires PowerOfTwo(a) && PowerOfTwo(b) && a < b
    ensures 2 * a <= b
  {
    if a > 1 {
      PowersApart(a / 2, b / 2);
    }
  }

  lemma {:induction false} SamePower(a: nat, b: nat)
    requires PowerOfTwo(a) && PowerOfTwo(b) && a < 2 * b && b < 2 * a
    ensures a == b
  {
    if a > 1 && b > 1 {
      SamePower(a / 2, b / 2);
    }
  }

  lemma LiveUsed(flags: seq<Flag>)
    ensures |LiveSlots(flags)| <= |UsedSlots(flags)|
  {
    assert UsedSlots(flags) == LiveSlots(flags) + (UsedSlots(flags) - LiveSlots(flags));
  }
}
