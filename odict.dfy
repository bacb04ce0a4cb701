/**
 * Python's insertion-ordered dictionary (`dict`, `OrderedDict`) as a
 * sequence of key/value entries. `d[k] = v` overwrites the value in place
 * when `k` is already present and appends a new entry otherwise, so the
 * keys stay in order of first assignment.
 */
module OrderedDict {
  import opened Wrappers
  import opened Sorting

  function Keys<K, V>(od: seq<(K, V)>): (ks: seq<K>)
    ensures |ks| == |od|
    ensures forall i :: 0 <= i < |od| ==> ks[i] == od[i].0
  {
    seq(|od|, i requires 0 <= i < |od| => od[i].0)
  }

  /** `list(d.values())`. */
  function Values<K, V>(od: seq<(K, V)>): (vs: seq<V>)
    ensures |vs| == |od|
    ensures forall i :: 0 <= i < |od| ==> vs[i] == od[i].1
  {
    seq(|od|, i requires 0 <= i < |od| => od[i].1)
  }

  predicate UniqueKeys<K(==,!new), V>(od: seq<(K, V)>) {
    forall i, j :: 0 <= i < j < |od| ==> od[i].0 != od[j].0
  }

  predicate Present<K(==,!new), V>(od: seq<(K, V)>, k: K) {
    exists i :: 0 <= i < |od| && od[i].0 == k
  }

  /** The position of the entry for `k`. */
  function Position<K(==,!new), V>(od: seq<(K, V)>, k: K): (r: Option<nat>)
    ensures r.Some? ==> r.value < |od| && od[r.value].0 == k && forall j :: 0 <= j < r.value ==> od[j].0 != k
    ensures r.None? <==> !Present(od, k)
  {
    if od == [] then None
    else if od[0].0 == k then Some(0)
    else
      match Position(od[1..], k)
      case None => None
      case Some(p) => Some(p + 1)
  }

  /** `d.get(k)`. */
  function Lookup<K(==,!new), V>(od: seq<(K, V)>, k: K): (r: Option<V>)
    ensures r.Some? <==> Present(od, k)
    ensures UniqueKeys(od) ==> forall i :: 0 <= i < |od| && od[i].0 == k ==> r == Some(od[i].1)
  {
    match Position(od, k)
    case None => None
    case Some(p) => Some(od[p].1)
  }

  /** `d[k] = v`. */
  function Put<K(==,!new), V>(od: seq<(K, V)>, k: K, v: V): (r: seq<(K, V)>)
    ensures |r| == if Present(od, k) then |od| else |od| + 1
    ensures forall i :: 0 <= i < |od| ==> r[i].0 == od[i].0
    ensures !Present(od, k) ==> r[|od|] == (k, v)
    ensures Lookup(r, k) == Some(v)
    ensures forall k' :: k' != k ==> Lookup(r, k') == Lookup(od, k')
    ensures UniqueKeys(od) ==> UniqueKeys(r)
  {
    match Position(od, k)
    case Some(p) => od[p := (k, v)]
    case None => od + [(k, v)]
  }

  /** The assignments `d[k] = v` for each `(k, v)` of `kvs`, in order. */
  function PutAll<K(==,!new), V>(od: seq<(K, V)>, kvs: seq<(K, V)>): seq<(K, V)> {
    if kvs == [] then od
    else
      var last := kvs[|kvs| - 1];
      Put(PutAll(od, kvs[..|kvs| - 1]), last.0, last.1)
  }

  lemma PutAllSnoc<K(!new), V>(od: seq<(K, V)>, kvs: seq<(K, V)>, kv: (K, V))
    ensures PutAll(od, kvs + [kv]) == Put(PutAll(od, kvs), kv.0, kv.1)
  {
    assert (kvs + [kv])[..|kvs|] == kvs;
  }

  /** The value most recently assigned to `k` in `kvs`, if any: the reference for what the dictionary holds. */
  function LastAssigned<K(==,!new), V>(kvs: seq<(K, V)>, k: K): (r: Option<V>)
    ensures r.Some? <==> Present(kvs, k)
  {
    if kvs == [] then None
    else if kvs[|kvs| - 1].0 == k then Some(kvs[|kvs| - 1].1)
    else
      var r := LastAssigned(kvs[..|kvs| - 1], k);
      assert Present(kvs, k) <==> Present(kvs[..|kvs| - 1], k) by {
        if Present(kvs, k) {
          var i :| 0 <= i < |kvs| && kvs[i].0 == k;
          assert kvs[..|kvs| - 1][i].0 == k;
        }
        if Present(kvs[..|kvs| - 1], k) {
          var i :| 0 <= i < |kvs| - 1 && kvs[..|kvs| - 1][i].0 == k;
          assert kvs[i].0 == k;
        }
      }
      r
  }

  /** The value last assigned to `k` comes from an entry for `k`. */
  lemma {:induction false} LastAssignedFrom<K(!new), V>(kvs: seq<(K, V)>, k: K)
    requires Present(kvs, k)
    ensures (k, LastAssigned(kvs, k).value) in kvs
  {
    if kvs[|kvs| - 1].0 != k {
      var init := kvs[..|kvs| - 1];
      LastAssignedFrom(init, k);
      var i :| 0 <= i < |init| && init[i] == (k, LastAssigned(init, k).value);
      assert kvs[i] == init[i];
    }
  }

  /** Assigning a batch keeps every key at most once. */
  lemma {:induction false} PutAllUnique<K(!new), V>(od: seq<(K, V)>, kvs: seq<(K, V)>)
    requires UniqueKeys(od)
    ensures UniqueKeys(PutAll(od, kvs))
  {
    if kvs != [] {
      PutAllUnique(od, kvs[..|kvs| - 1]);
    }
  }

  /** After the batch the dictionary holds, for each key, the last value assigned to it, or its old value. */
  lemma {:induction false} PutAllLookup<K(!new), V>(od: seq<(K, V)>, kvs: seq<(K, V)>, k: K)
    ensures Lookup(PutAll(od, kvs), k) == if Present(kvs, k) then LastAssigned(kvs, k) else Lookup(od, k)
  {
    if kvs != [] {
      PutAllLookup(od, kvs[..|kvs| - 1], k);
    }
  }

  /** Existing keys keep their places: the old keys are a prefix of the new ones. */
  lemma {:induction false} PutAllKeepsOrder<K(!new), V>(od: seq<(K, V)>, kvs: seq<(K, V)>)
    ensures |od| <= |PutAll(od, kvs)|
    ensures forall i :: 0 <= i < |od| ==> PutAll(od, kvs)[i].0 == od[i].0
  {
    if kvs != [] {
      PutAllKeepsOrder(od, kvs[..|kvs| - 1]);
    }
  }

  /** Assigning a batch and then another is assigning their concatenation. */
  lemma {:induction false} PutAllConcat<K(!new), V>(od: seq<(K, V)>, a: seq<(K, V)>, b: seq<(K, V)>)
    ensures PutAll(od, a + b) == PutAll(PutAll(od, a), b)
  {
    if b == [] {
      assert a + b == a;
    } else {
      assert (a + b)[..|a + b| - 1] == a + b[..|b| - 1];
      PutAllConcat(od, a, b[..|b| - 1]);
    }
  }

  /** Assigning a key that is not present appends its entry. */
  lemma PutFresh<K(!new), V>(od: seq<(K, V)>, k: K, v: V)
    requires !Present(od, k)
    ensures Put(od, k, v) == od + [(k, v)]
  {
    assert Position(od, k).None?;
  }

  /** The last of a batch of fresh, distinct keys is absent once the others are appended. */
  lemma LastFresh<K(!new), V>(od: seq<(K, V)>, kvs: seq<(K, V)>)
    requires kvs != [] && UniqueKeys(kvs)
    requires forall i :: 0 <= i < |kvs| ==> !Present(od, kvs[i].0)
    ensures !Present(od + kvs[..|kvs| - 1], kvs[|kvs| - 1].0)
  {
    var init := kvs[..|kvs| - 1];
    var k := kvs[|kvs| - 1].0;
    forall i | 0 <= i < |od + init|
      ensures (od + init)[i].0 != k
    {
      if i < |od| {
        assert (od + init)[i] == od[i];
      } else {
        assert (od + init)[i] == kvs[i - |od|];
      }
    }
  }

  /** Dropping the last of a batch of fresh, distinct keys leaves a batch of fresh, distinct keys. */
  lemma FreshPrefix<K(!new), V>(od: seq<(K, V)>, kvs: seq<(K, V)>, init: seq<(K, V)>)
    requires kvs != [] && UniqueKeys(kvs) && init == kvs[..|kvs| - 1]
    requires forall i :: 0 <= i < |kvs| ==> !Present(od, kvs[i].0)
    ensures UniqueKeys(init)
    ensures forall i :: 0 <= i < |init| ==> !Present(od, init[i].0)
  {
    assert forall i :: 0 <= i < |init| ==> init[i] == kvs[i];
  }

  lemma SplitLast<T>(s: seq<T>)
    requires s != []
    ensures s[..|s| - 1] + [s[|s| - 1]] == s
  {
  }

  /** One more fresh key appended after a batch that was appended. */
  lemma PutAllFreshStep<K(!new), V>(od: seq<(K, V)>, init: seq<(K, V)>, last: (K, V))
    requires PutAll(od, init) == od + init
    requires !Present(od + init, last.0)
    ensures PutAll(od, init + [last]) == od + (init + [last])
  {
    PutAllSnoc(od, init, last);
    PutFresh(od + init, last.0, last.1);
    assert (od + init) + [last] == od + (init + [last]);
  }

  /** Fresh, pairwise distinct keys are appended in the order they are assigned. */
  lemma {:induction false} PutAllFresh<K(!new), V>(od: seq<(K, V)>, kvs: seq<(K, V)>)
    requires UniqueKeys(kvs)
    requires forall i :: 0 <= i < |kvs| ==> !Present(od, kvs[i].0)
    ensures PutAll(od, kvs) == od + kvs
  {
    if kvs != [] {
      FreshPrefix(od, kvs, kvs[..|kvs| - 1]);
      PutAllFresh(od, kvs[..|kvs| - 1]);
      LastFresh(od, kvs);
      PutAllFreshStep(od, kvs[..|kvs| - 1], kvs[|kvs| - 1]);
      SplitLast(kvs);
    }
  }

  /** Every key of the dictionary is an old key or an assigned one, and both kinds are present. */
  lemma {:induction false} PutAllPresent<K(!new), V>(od: seq<(K, V)>, kvs: seq<(K, V)>, k: K)
    ensures Present(PutAll(od, kvs), k) <==> Present(od, k) || Present(kvs, k)
  {
    PutAllLookup(od, kvs, k);
  }

  /** Every value is stored under the key `key` computes from it. */
  predicate KeyedBy<K(==,!new), V>(od: seq<(K, V)>, key: V -> K) {
    forall i :: 0 <= i < |od| ==> od[i].0 == key(od[i].1)
  }

  lemma {:induction false} PutAllKeyedBy<K(!new), V>(od: seq<(K, V)>, kvs: seq<(K, V)>, key: V -> K)
    requires KeyedBy(od, key) && KeyedBy(kvs, key)
    ensures KeyedBy(PutAll(od, kvs), key)
  {
    if kvs != [] {
      var init := kvs[..|kvs| - 1];
      assert KeyedBy(init, key) by {
        forall i | 0 <= i < |init|
          ensures init[i].0 == key(init[i].1)
        {
          assert init[i] == kvs[i];
        }
      }
      PutAllKeyedBy(od, init, key);
      var prev := PutAll(od, init);
      var last := kvs[|kvs| - 1];
      match Position(prev, last.0)
      case Some(p) =>
        assert PutAll(od, kvs) == prev[p := last];
      case None =>
        assert PutAll(od, kvs) == prev + [last];
    }
  }

  /** A value of the dictionary after `d[k] = w` was there before or is `w`. */
  lemma PutValues<K(!new), V>(od: seq<(K, V)>, k: K, w: V, v: V)
    requires v in Values(Put(od, k, w))
    ensures v in Values(od) || v == w
  {
    var r := Put(od, k, w);
    var i :| 0 <= i < |r| && Values(r)[i] == v;
    match Position(od, k)
    case Some(p) =>
      if i != p {
        assert Values(od)[i] == v;
      }
    case None =>
      if i < |od| {
        assert Values(od)[i] == v;
      }
  }

  /** Every value left in the dictionary was already there or was assigned. */
  lemma {:induction false} PutAllValues<K(!new), V>(od: seq<(K, V)>, kvs: seq<(K, V)>, v: V)
    requires v in Values(PutAll(od, kvs))
    ensures v in Values(od) || v in Values(kvs)
  {
    if kvs != [] {
      var init := kvs[..|kvs| - 1];
      var last := kvs[|kvs| - 1];
      PutValues(PutAll(od, init), last.0, last.1, v);
      if v == last.1 {
        assert Values(kvs)[|kvs| - 1] == v;
      } else {
        PutAllValues(od, init, v);
        if v in Values(init) {
          var j :| 0 <= j < |init| && Values(init)[j] == v;
          assert Values(kvs)[j] == v;
        }
      }
    }
  }

  /** After the batch, an assigned key holds the entry last assigned to it. */
  lemma PutAllHoldsLast<K(!new), V>(od: seq<(K, V)>, kvs: seq<(K, V)>, k: K)
    requires UniqueKeys(od) && Present(kvs, k)
    ensures (k, LastAssigned(kvs, k).value) in PutAll(od, kvs)
  {
    var d := PutAll(od, kvs);
    PutAllUnique(od, kvs);
    PutAllLookup(od, kvs, k);
    var i :| 0 <= i < |d| && d[i].0 == k;
    assert d[i] == (k, LastAssigned(kvs, k).value);
  }

  /** Every entry of a dictionary built from empty by a batch is one of the assigned entries. */
  lemma PutAllEntry<K(!new), V>(kvs: seq<(K, V)>, i: int)
    requires 0 <= i < |PutAll([], kvs)|
    ensures PutAll([], kvs)[i] in kvs
  {
    var d := PutAll([], kvs);
    var k := d[i].0;
    PutAllUnique([], kvs);
    PutAllLookup([], kvs, k);
    LastAssignedFrom(kvs, k);
  }

  // ---------------------------------------------------------------------------
  // A dictionary filled by `d[key(v)] = v` for each value in turn.
  // ---------------------------------------------------------------------------

  /** `(key(v), v)` for each value. */
  function Entries<K, V>(vs: seq<V>, key: V -> K): (kvs: seq<(K, V)>)
    ensures |kvs| == |vs|
    ensures forall i :: 0 <= i < |vs| ==> kvs[i] == (key(vs[i]), vs[i])
  {
    seq(|vs|, i requires 0 <= i < |vs| => (key(vs[i]), vs[i]))
  }

  /** The dictionary after `d[key(v)] = v` for each `v` of `vs`, starting empty. */
  function IndexBy<K(==,!new), V>(vs: seq<V>, key: V -> K): seq<(K, V)> {
    PutAll([], Entries(vs, key))
  }

  lemma IndexBySnoc<K(!new), V>(vs: seq<V>, v: V, key: V -> K)
    ensures IndexBy(vs + [v], key) == Put(IndexBy(vs, key), key(v), v)
  {
    assert Entries(vs + [v], key) == Entries(vs, key) + [(key(v), v)];
    PutAllSnoc([], Entries(vs, key), (key(v), v));
  }

  lemma IndexByConcat<K(!new), V>(a: seq<V>, b: seq<V>, key: V -> K)
    ensures IndexBy(a + b, key) == PutAll(IndexBy(a, key), Entries(b, key))
  {
    assert Entries(a + b, key) == Entries(a, key) + Entries(b, key);
    PutAllConcat([], Entries(a, key), Entries(b, key));
  }

  lemma IndexByKeyed<K(!new), V>(vs: seq<V>, key: V -> K)
    ensures UniqueKeys(IndexBy(vs, key))
    ensures KeyedBy(IndexBy(vs, key), key)
  {
    PutAllUnique([], Entries(vs, key));
    PutAllKeyedBy([], Entries(vs, key), key);
  }

  /** The values are told apart by their keys: each key occurs once. */
  lemma IndexByDistinct<K(!new), V>(vs: seq<V>, key: V -> K)
    ensures InjectiveOn(Values(IndexBy(vs, key)), key)
  {
    IndexByKeyed(vs, key);
  }

  /** A key is in the dictionary exactly when some value has it. */
  /** Some value of `vs` has key `k`. */
  ghost predicate Carries<K, V>(vs: seq<V>, key: V -> K, k: K) {
    exists j :: 0 <= j < |vs| && key(vs[j]) == k
  }

  lemma CarriesConcat<K, V>(a: seq<V>, b: seq<V>, key: V -> K, k: K)
    ensures Carries(a + b, key, k) <==> Carries(a, key, k) || Carries(b, key, k)
  {
    if Carries(a + b, key, k) {
      var j :| 0 <= j < |a + b| && key((a + b)[j]) == k;
      if j >= |a| {
        assert b[j - |a|] == (a + b)[j];
      }
    }
    if Carries(a, key, k) {
      var j :| 0 <= j < |a| && key(a[j]) == k;
      assert (a + b)[j] == a[j];
    }
    if Carries(b, key, k) {
      var j :| 0 <= j < |b| && key(b[j]) == k;
      assert (a + b)[|a| + j] == b[j];
    }
  }

  /** A key is in the dictionary exactly when some indexed value has it. */
  lemma IndexByKeys<K(!new), V>(vs: seq<V>, key: V -> K, k: K)
    ensures Carries(Values(IndexBy(vs, key)), key, k) <==> Carries(vs, key, k)
  {
    var od := IndexBy(vs, key);
    var kvs := Entries(vs, key);
    IndexByKeyed(vs, key);
    PutAllPresent([], kvs, k);
    if Carries(Values(od), key, k) {
      var i :| 0 <= i < |Values(od)| && key(Values(od)[i]) == k;
      assert od[i].0 == k;
      var j :| 0 <= j < |kvs| && kvs[j].0 == k;
      assert key(vs[j]) == k;
    }
    if Carries(vs, key, k) {
      var j :| 0 <= j < |vs| && key(vs[j]) == k;
      assert kvs[j].0 == k;
      var i :| 0 <= i < |od| && od[i].0 == k;
      assert key(Values(od)[i]) == k;
    }
  }

  /** Each value of the dictionary is one of the assigned values. */
  lemma IndexByValuesAll<K(!new), V>(vs: seq<V>, key: V -> K)
    ensures forall v :: v in Values(IndexBy(vs, key)) ==> v in vs
  {
    forall v | v in Values(IndexBy(vs, key))
      ensures v in vs
    {
      IndexByValues(vs, key, v);
    }
  }

  lemma IndexByValues<K(!new), V>(vs: seq<V>, key: V -> K, v: V)
    requires v in Values(IndexBy(vs, key))
    ensures v in vs
  {
    PutAllValues([], Entries(vs, key), v);
    var j :| 0 <= j < |vs| && Values(Entries(vs, key))[j] == v;
    assert vs[j] == v;
  }

  lemma {:induction false} LastAssignedEntry<K(!new), V>(b: seq<V>, key: V -> K, j: int)
    requires InjectiveOn(b, key)
    requires 0 <= j < |b|
    ensures LastAssigned(Entries(b, key), key(b[j])) == Some(b[j])
  {
    var n := |b| - 1;
    if j != n {
      var init := b[..n];
      assert Entries(init, key) == Entries(b, key)[..n];
      assert InjectiveOn(init, key);
      LastAssignedEntry(init, key, j);
    }
  }

  /** A later batch with distinct keys leaves each of its values in the dictionary. */
  lemma IndexByHasLater<K(!new), V>(a: seq<V>, b: seq<V>, key: V -> K, j: int)
    requires InjectiveOn(b, key)
    requires 0 <= j < |b|
    ensures b[j] in Values(IndexBy(a + b, key))
  {
    var k := key(b[j]);
    IndexByConcat(a, b, key);
    PutAllLookup(IndexBy(a, key), Entries(b, key), k);
    assert Entries(b, key)[j].0 == k;
    LastAssignedEntry(b, key, j);
    var od := IndexBy(a + b, key);
    IndexByKeyed(a + b, key);
    var p := Position(od, k).value;
    assert Values(od)[p] == b[j];
  }

  /** An earlier batch with distinct keys keeps its keys first, in order. */
  lemma IndexByKeepsEarlier<K(!new), V>(a: seq<V>, b: seq<V>, key: V -> K)
    requires InjectiveOn(a, key)
    ensures |a| <= |IndexBy(a + b, key)|
    ensures forall i :: 0 <= i < |a| ==> key(Values(IndexBy(a + b, key))[i]) == key(a[i])
  {
    var ea := Entries(a, key);
    assert UniqueKeys(ea);
    PutAllFresh([], ea);
    assert [] + ea == ea;
    IndexByConcat(a, b, key);
    PutAllKeepsOrder(ea, Entries(b, key));
    IndexByKeyed(a + b, key);
  }

  // ---------------------------------------------------------------------------
  // Totals and per-value transformations.
  // ---------------------------------------------------------------------------

  /** The sum of `size` over the values, in order. */
  function SumBy<K, V>(od: seq<(K, V)>, size: V -> nat): nat {
    if od == [] then 0 else SumBy(od[..|od| - 1], size) + size(od[|od| - 1].1)
  }

  /** Overwriting one entry changes the total by the difference of the two sizes. */
  lemma {:induction false} SumByUpdate<K, V>(od: seq<(K, V)>, p: nat, kv: (K, V), size: V -> nat)
    requires p < |od|
    ensures SumBy(od[p := kv], size) == SumBy(od, size) - size(od[p].1) + size(kv.1)
  {
    var n := |od|;
    var od' := od[p := kv];
    if p == n - 1 {
      assert od'[..n - 1] == od[..n - 1];
    } else {
      assert od'[..n - 1] == od[..n - 1][p := kv];
      SumByUpdate(od[..n - 1], p, kv, size);
    }
  }

  /** `d[k] = v` adds the size of `v` to the total and removes the size of the value it replaces. */
  lemma SumByPut<K(!new), V>(od: seq<(K, V)>, k: K, v: V, size: V -> nat)
    ensures SumBy(Put(od, k, v), size) ==
      SumBy(od, size) + size(v) - (match Lookup(od, k) case None => 0 case Some(prev) => size(prev))
  {
    match Position(od, k)
    case Some(p) =>
      SumByUpdate(od, p, (k, v), size);
    case None =>
      assert (od + [(k, v)])[..|od|] == od;
  }

  /** The dictionary with `f` applied to every value; the keys and their order stay. */
  function MapValues<K, V, W>(od: seq<(K, V)>, f: V -> W): (r: seq<(K, W)>)
    ensures |r| == |od|
    ensures forall i :: 0 <= i < |od| ==> r[i] == (od[i].0, f(od[i].1))
  {
    seq(|od|, i requires 0 <= i < |od| => (od[i].0, f(od[i].1)))
  }

  lemma MapValuesSnoc<K, V, W>(od: seq<(K, V)>, f: V -> W, j: nat)
    requires j < |od|
    ensures MapValues(od[..j + 1], f) == MapValues(od[..j], f) + [(od[j].0, f(od[j].1))]
  {
  }

  lemma {:induction false} PositionMapValues<K(!new), V, W>(od: seq<(K, V)>, f: V -> W, k: K)
    ensures Position(MapValues(od, f), k) == Position(od, k)
  {
    if od != [] && od[0].0 != k {
      assert MapValues(od, f)[1..] == MapValues(od[1..], f);
      PositionMapValues(od[1..], f, k);
    }
  }

  /** Looking a key up after the transformation finds the transformed value. */
  lemma LookupMapValues<K(!new), V, W>(od: seq<(K, V)>, f: V -> W, k: K)
    ensures Lookup(MapValues(od, f), k) == match Lookup(od, k) case None => None case Some(v) => Some(f(v))
  {
    PositionMapValues(od, f, k);
  }
}
