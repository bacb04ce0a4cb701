/**
 * The workload-config fingerprint of data.py: `_sanitize_for_hash` sorts the
 * keys of every dict at every depth and keeps list order, and
 * `_compute_workload_hash` hashes the compact JSON text of the result.
 * Serialisation and SHA-256 are not modelled as byte work: the digest is
 * the constructor `Sha256` applied to the canonical value, which makes two
 * digests equal exactly when their canonical forms are.
 */
module Fingerprint {
  import opened Json
  import opened Text
  import opened Sorting

  /** Dict entries ordered by key, as `sorted(value.keys())` orders them. */
  predicate KeyLe(a: (string, Value), b: (string, Value)) {
    StrLe(a.0, b.0)
  }

  predicate KeyLess(a: (string, Value), b: (string, Value)) {
    StrLess(a.0, b.0)
  }

  function SortFields(fields: seq<(string, Value)>): seq<(string, Value)> {
    StableSort(fields, KeyLe)
  }

  /** `_sanitize_for_hash`. */
  function Sanitize(v: Value): (r: Value)
    ensures r.Array? <==> v.Array?
    ensures r.Object? <==> v.Object?
    ensures v.Array? ==> |r.items| == |v.items|
    ensures v.Object? ==> |r.fields| == |v.fields|
    ensures !v.Array? && !v.Object? ==> r == v
    decreases v, 1
  {
    match v
    case Array(items) =>
      Array(seq(|items|, i requires 0 <= i < |items| => Sanitize(items[i])))
    case Object(fields) =>
      Object(SortFields(SanitizeFields(fields)))
    case _ => v
  }

  /** Each dict entry with its value sanitized, keys and order kept. */
  function SanitizeFields(fields: seq<(string, Value)>): (r: seq<(string, Value)>)
    decreases Object(fields), 0
  {
    seq(|fields|, i requires 0 <= i < |fields| => (fields[i].0, Sanitize(fields[i].1)))
  }

  /** The digest of a workload config, or the empty string `""` for none. */
  datatype ConfigHash = NoHash | Sha256(canonical: Value)

  /** `_compute_workload_hash` (the canonical form it hashes). */
  function ComputeWorkloadHash(cfg: Value): (h: ConfigHash)
    ensures h.Sha256? && Canonical(h.canonical)
    ensures Sanitize(h.canonical) == h.canonical
  {
    SanitizeCanonical(cfg);
    SanitizeIdempotent(cfg);
    Sha256(Sanitize(cfg))
  }

  /** Every dict, at every depth, has its keys in increasing order. */
  ghost predicate Canonical(v: Value)
    decreases v
  {
    match v
    case Array(items) => forall i :: 0 <= i < |items| ==> Canonical(items[i])
    case Object(fields) => Sorted(fields, KeyLe) && forall i :: 0 <= i < |fields| ==> Canonical(fields[i].1)
    case _ => true
  }

  lemma KeyLeTotalPreorder()
    ensures forall a, b :: KeyLe(a, b) || KeyLe(b, a)
    ensures forall a, b, c :: KeyLe(a, b) && KeyLe(b, c) ==> KeyLe(a, c)
  {
    forall a: (string, Value), b: (string, Value)
      ensures KeyLe(a, b) || KeyLe(b, a)
    {
      StrLessTrichotomy(a.0, b.0);
    }
    forall a: (string, Value), b: (string, Value), c: (string, Value) | KeyLe(a, b) && KeyLe(b, c)
      ensures KeyLe(a, c)
    {
      if a.0 != b.0 && b.0 != c.0 {
        StrLessTransitive(a.0, b.0, c.0);
      }
    }
  }

  lemma SortFieldsSorted(fields: seq<(string, Value)>)
    ensures Sorted(SortFields(fields), KeyLe)
  {
    KeyLeTotalPreorder();
    StableSortSorted(fields, KeyLe);
  }

  /** The sanitized value has sorted keys at every depth. */
  lemma {:induction false} SanitizeCanonical(v: Value)
    ensures Canonical(Sanitize(v))
    decreases v
  {
    match v
    case Array(items) =>
      forall i | 0 <= i < |items|
        ensures Canonical(Sanitize(items[i]))
      {
        SanitizeCanonical(items[i]);
      }
    case Object(fields) =>
      var mapped := SanitizeFields(fields);
      var sorted := SortFields(mapped);
      SortFieldsSorted(mapped);
      forall k | 0 <= k < |sorted|
        ensures Canonical(sorted[k].1)
      {
        assert sorted[k] in multiset(mapped);
        var i :| 0 <= i < |mapped| && mapped[i] == sorted[k];
        SanitizeCanonical(fields[i].1);
      }
    case _ =>
  }

  /** Sanitizing a value whose keys are already sorted everywhere gives it back unchanged. */
  lemma {:induction false} CanonicalFixed(v: Value)
    requires Canonical(v)
    ensures Sanitize(v) == v
    decreases v
  {
    match v
    case Array(items) =>
      forall i | 0 <= i < |items|
        ensures Sanitize(items[i]) == items[i]
      {
        CanonicalFixed(items[i]);
      }
      assert Sanitize(v).items == items;
    case Object(fields) =>
      var mapped := SanitizeFields(fields);
      forall i | 0 <= i < |fields|
        ensures mapped[i] == fields[i]
      {
        CanonicalFixed(fields[i].1);
      }
      assert mapped == fields;
      StableSortOfSorted(fields, KeyLe);
    case _ =>
  }

  /** `_sanitize_for_hash` is idempotent. */
  lemma SanitizeIdempotent(v: Value)
    ensures Sanitize(Sanitize(v)) == Sanitize(v)
  {
    SanitizeCanonical(v);
    CanonicalFixed(Sanitize(v));
  }

  /**
   * Two JSON values that differ only in the order of dict keys: lists
   * agree element by element; dicts (whose keys are distinct, as after
   * `json.load`) have the same keys, and the same content under each key.
   */
  ghost predicate SameContent(a: Value, b: Value)
    decreases a
  {
    if a.Array? && b.Array? then
      |a.items| == |b.items| &&
      forall i :: 0 <= i < |a.items| ==> SameContent(a.items[i], b.items[i])
    else if a.Object? && b.Object? then
      DistinctKeys(a.fields) && DistinctKeys(b.fields) &&
      (forall i :: 0 <= i < |a.fields| ==> HasKey(b.fields, a.fields[i].0)) &&
      (forall j :: 0 <= j < |b.fields| ==> HasKey(a.fields, b.fields[j].0)) &&
      forall i, j :: 0 <= i < |a.fields| && 0 <= j < |b.fields| && a.fields[i].0 == b.fields[j].0 ==>
        SameContent(a.fields[i].1, b.fields[j].1)
    else
      a == b
  }

  lemma KeyLessAsymmetric()
    ensures forall a, b :: KeyLess(a, b) ==> !KeyLess(b, a)
  {
    forall a: (string, Value), b: (string, Value) | KeyLess(a, b)
      ensures !KeyLess(b, a)
    {
      StrLessAsymmetric(a.0, b.0);
    }
  }

  /** Sorting entries whose keys are distinct orders them strictly by key. */
  lemma SortFieldsStrict(fields: seq<(string, Value)>)
    requires DistinctKeys(fields)
    ensures StrictlySortedBy(SortFields(fields), KeyLess)
    ensures forall x :: x in SortFields(fields) <==> x in fields
  {
    var key := (p: (string, Value)) => p.0;
    assert InjectiveOn(fields, key);
    StableSortInjective(fields, KeyLe, key);
    SortFieldsSorted(fields);
    StableSortMembers(fields, KeyLe);
  }

  /** Two entry lists with distinct keys and the same entries sort to the same list. */
  lemma SortFieldsSameMembers(f: seq<(string, Value)>, g: seq<(string, Value)>)
    requires DistinctKeys(f) && DistinctKeys(g)
    requires forall x :: x in f <==> x in g
    ensures SortFields(f) == SortFields(g)
  {
    SortFieldsStrict(f);
    SortFieldsStrict(g);
    KeyLessAsymmetric();
    StrictlySortedUnique(SortFields(f), SortFields(g), KeyLess);
  }

  /**
   * Reordering the keys of any dict, at any depth, does not change the
   * fingerprint.
   */
  lemma {:induction false} SanitizeKeyOrderIndependent(a: Value, b: Value)
    requires SameContent(a, b)
    ensures Sanitize(a) == Sanitize(b)
    decreases a, 1
  {
    if a.Array? && b.Array? {
      ArrayKeyOrderIndependent(a.items, b.items);
    } else if a.Object? && b.Object? {
      ObjectKeyOrderIndependent(a.fields, b.fields);
    }
  }

  lemma {:induction false} ArrayKeyOrderIndependent(x: seq<Value>, y: seq<Value>)
    requires SameContent(Array(x), Array(y))
    ensures Sanitize(Array(x)) == Sanitize(Array(y))
    decreases Array(x), 0
  {
    forall i | 0 <= i < |x|
      ensures Sanitize(x[i]) == Sanitize(y[i])
    {
      SanitizeKeyOrderIndependent(x[i], y[i]);
    }
    assert Sanitize(Array(x)).items == Sanitize(Array(y)).items;
  }

  lemma {:induction false} ObjectKeyOrderIndependent(f: seq<(string, Value)>, g: seq<(string, Value)>)
    requires SameContent(Object(f), Object(g))
    ensures Sanitize(Object(f)) == Sanitize(Object(g))
    decreases Object(f), 0
  {
    forall i, j | 0 <= i < |f| && 0 <= j < |g| && f[i].0 == g[j].0
      ensures Sanitize(f[i].1) == Sanitize(g[j].1)
    {
      assert f[i] in f;
      SanitizeKeyOrderIndependent(f[i].1, g[j].1);
    }
    EntriesMatched(f, g);
  }

  /** Every sanitized entry of `f` is a sanitized entry of `g` when the keys of `f` occur in `g` with values that sanitize alike. */
  lemma EntriesIncluded(f: seq<(string, Value)>, g: seq<(string, Value)>)
    requires forall i :: 0 <= i < |f| ==> HasKey(g, f[i].0)
    requires forall i, j :: 0 <= i < |f| && 0 <= j < |g| && f[i].0 == g[j].0 ==> Sanitize(f[i].1) == Sanitize(g[j].1)
    ensures forall x :: x in SanitizeFields(f) ==> x in SanitizeFields(g)
  {
    var mf, mg := SanitizeFields(f), SanitizeFields(g);
    forall x | x in mf
      ensures x in mg
    {
      var i :| 0 <= i < |mf| && mf[i] == x;
      var j :| 0 <= j < |g| && g[j].0 == f[i].0;
      assert mg[j] == x;
    }
  }

  /** Once values under equal keys sanitize alike, the sanitized entry lists hold the same entries and sort alike. */
  lemma EntriesMatched(f: seq<(string, Value)>, g: seq<(string, Value)>)
    requires DistinctKeys(f) && DistinctKeys(g)
    requires forall i :: 0 <= i < |f| ==> HasKey(g, f[i].0)
    requires forall j :: 0 <= j < |g| ==> HasKey(f, g[j].0)
    requires forall i, j :: 0 <= i < |f| && 0 <= j < |g| && f[i].0 == g[j].0 ==> Sanitize(f[i].1) == Sanitize(g[j].1)
    ensures SortFields(SanitizeFields(f)) == SortFields(SanitizeFields(g))
  {
    EntriesIncluded(f, g);
    EntriesIncluded(g, f);
    SortFieldsSameMembers(SanitizeFields(f), SanitizeFields(g));
  }

  /** The workload hash ignores dict key order and differs exactly when the canonical forms do. */
  lemma HashKeyOrderIndependent(a: Value, b: Value)
    requires SameContent(a, b)
    ensures ComputeWorkloadHash(a) == ComputeWorkloadHash(b)
  {
    SanitizeKeyOrderIndependent(a, b);
  }
}
