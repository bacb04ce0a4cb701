/**
 * Python's `sorted(xs, key=..., reverse=...)` and `list.sort(...)`: a stable
 * sort. It is modelled as insertion sort under a "may come first" relation
 * `ge`: for `reverse=True` over a key, `ge(a, b)` is `key(a) >= key(b)`,
 * so elements with equal keys keep their input order, as Python guarantees.
 */
module Sorting {

  predicate Sorted<T>(s: seq<T>, ge: (T, T) -> bool) {
    forall i, j :: 0 <= i < j < |s| ==> ge(s[i], s[j])
  }

  /** Put `x` before the first element it may precede. */
  function Insert<T>(x: T, s: seq<T>, ge: (T, T) -> bool): (r: seq<T>)
    ensures |r| == |s| + 1
    ensures multiset(r) == multiset(s) + multiset{x}
  {
    if s == [] || ge(x, s[0]) then [x] + s
    else
      var r := [s[0]] + Insert(x, s[1..], ge);
      assert s == [s[0]] + s[1..];
      r
  }

  function StableSort<T>(s: seq<T>, ge: (T, T) -> bool): (r: seq<T>)
    ensures |r| == |s|
    ensures multiset(r) == multiset(s)
  {
    if s == [] then []
    else
      var r := Insert(s[0], StableSort(s[1..], ge), ge);
      assert s == [s[0]] + s[1..];
      r
  }

  lemma {:induction false} InsertSorted<T>(x: T, s: seq<T>, ge: (T, T) -> bool)
    requires forall a, b :: ge(a, b) || ge(b, a)
    requires forall a, b, c :: ge(a, b) && ge(b, c) ==> ge(a, c)
    requires Sorted(s, ge)
    ensures Sorted(Insert(x, s, ge), ge)
  {
    if s != [] && !ge(x, s[0]) {
      var tail := s[1..];
      InsertSorted(x, tail, ge);
      var r := Insert(x, tail, ge);
      forall k | 0 <= k < |r|
        ensures ge(s[0], r[k])
      {
        assert r[k] in multiset(r);
        if r[k] != x {
          assert r[k] in multiset(tail);
          var j :| 0 <= j < |tail| && tail[j] == r[k];
          assert s[j + 1] == r[k];
        }
      }
      assert Insert(x, s, ge) == [s[0]] + r;
    }
  }

  /** The result of the sort is in order. */
  lemma {:induction false} StableSortSorted<T>(s: seq<T>, ge: (T, T) -> bool)
    requires forall a, b :: ge(a, b) || ge(b, a)
    requires forall a, b, c :: ge(a, b) && ge(b, c) ==> ge(a, c)
    ensures Sorted(StableSort(s, ge), ge)
  {
    if s != [] {
      StableSortSorted(s[1..], ge);
      InsertSorted(s[0], StableSort(s[1..], ge), ge);
    }
  }

  /** Sorting a sequence that is already in order leaves it as it is. */
  lemma {:induction false} StableSortOfSorted<T>(s: seq<T>, ge: (T, T) -> bool)
    requires Sorted(s, ge)
    ensures StableSort(s, ge) == s
  {
    if s != [] {
      StableSortOfSorted(s[1..], ge);
      assert s == [s[0]] + s[1..];
    }
  }

  lemma MultisetHeadTail<T>(s: seq<T>)
    requires s != []
    ensures multiset(s) == multiset{s[0]} + multiset(s[1..])
  {
    assert s == [s[0]] + s[1..];
  }

  lemma SortedHeadsEqual<T>(s: seq<T>, t: seq<T>, ge: (T, T) -> bool)
    requires forall a, b :: ge(a, b) && ge(b, a) ==> a == b
    requires Sorted(s, ge) && Sorted(t, ge)
    requires s != [] && t != [] && multiset(s) == multiset(t)
    ensures s[0] == t[0]
  {
    assert t[0] in multiset(s) && s[0] in multiset(t);
    var i :| 0 <= i < |s| && s[i] == t[0];
    var j :| 0 <= j < |t| && t[j] == s[0];
    if i != 0 && j != 0 {
      assert ge(s[0], t[0]) && ge(t[0], s[0]);
    }
  }

  /** Two ordered arrangements of the same elements are equal when `ge` is antisymmetric. */
  lemma {:induction false} SortedUnique<T>(s: seq<T>, t: seq<T>, ge: (T, T) -> bool)
    requires forall a, b :: ge(a, b) && ge(b, a) ==> a == b
    requires Sorted(s, ge) && Sorted(t, ge)
    requires multiset(s) == multiset(t)
    ensures s == t
  {
    if s == [] {
      assert |multiset(t)| == |t|;
    } else {
      assert s[0] in multiset(t);
      SortedHeadsEqual(s, t, ge);
      MultisetHeadTail(s);
      MultisetHeadTail(t);
      var ms, mt := multiset(s[1..]), multiset(t[1..]);
      assert ms == mt by {
        forall x
          ensures ms[x] == mt[x]
        {
          assert (multiset{s[0]} + ms)[x] == (multiset{t[0]} + mt)[x];
        }
      }
      SortedUnique(s[1..], t[1..], ge);
      assert s == [s[0]] + s[1..] && t == [t[0]] + t[1..];
    }
  }

  /** `f` tells the elements of `s` apart. */
  ghost predicate InjectiveOn<T, K>(s: seq<T>, f: T -> K) {
    forall i, j :: 0 <= i < j < |s| ==> f(s[i]) != f(s[j])
  }

  lemma {:induction false} InsertInjective<T, K>(x: T, s: seq<T>, ge: (T, T) -> bool, f: T -> K)
    requires InjectiveOn(s, f)
    requires forall k :: 0 <= k < |s| ==> f(s[k]) != f(x)
    ensures InjectiveOn(Insert(x, s, ge), f)
  {
    if s != [] && !ge(x, s[0]) {
      var tail := s[1..];
      InsertInjective(x, tail, ge, f);
      var r := Insert(x, tail, ge);
      forall k | 0 <= k < |r|
        ensures f(s[0]) != f(r[k])
      {
        assert r[k] in multiset(r);
        if r[k] != x {
          assert r[k] in multiset(tail);
          var j :| 0 <= j < |tail| && tail[j] == r[k];
          assert s[j + 1] == r[k];
        }
      }
      assert Insert(x, s, ge) == [s[0]] + r;
    }
  }

  /** Sorting keeps elements told apart by `f` told apart. */
  lemma {:induction false} StableSortInjective<T, K>(s: seq<T>, ge: (T, T) -> bool, f: T -> K)
    requires InjectiveOn(s, f)
    ensures InjectiveOn(StableSort(s, ge), f)
  {
    if s != [] {
      StableSortInjective(s[1..], ge, f);
      var t := StableSort(s[1..], ge);
      forall k | 0 <= k < |t|
        ensures f(t[k]) != f(s[0])
      {
        assert t[k] in multiset(s[1..]);
        var j :| 0 <= j < |s[1..]| && s[1..][j] == t[k];
        assert s[j + 1] == t[k];
      }
      InsertInjective(s[0], t, ge, f);
    }
  }

  /** Sorting neither adds nor drops elements. */
  lemma StableSortMembers<T>(s: seq<T>, ge: (T, T) -> bool)
    ensures forall x :: x in StableSort(s, ge) <==> x in s
  {
    forall x
      ensures x in StableSort(s, ge) <==> x in s
    {
      assert x in StableSort(s, ge) <==> x in multiset(StableSort(s, ge));
      assert x in s <==> x in multiset(s);
    }
  }

  predicate StrictlySortedBy<T>(s: seq<T>, less: (T, T) -> bool) {
    forall i, j :: 0 <= i < j < |s| ==> less(s[i], s[j])
  }

  lemma SameMembersBothEmpty<T>(s: seq<T>, t: seq<T>)
    requires forall x :: x in s <==> x in t
    ensures s == [] <==> t == []
  {
    if s != [] {
      assert s[0] in t;
    }
    if t != [] {
      assert t[0] in s;
    }
  }

  /** Two strictly ordered sequences holding the same elements are equal. */
  lemma {:induction false} StrictlySortedUnique<T>(s: seq<T>, t: seq<T>, less: (T, T) -> bool)
    requires forall a, b :: less(a, b) ==> !less(b, a)
    requires StrictlySortedBy(s, less) && StrictlySortedBy(t, less)
    requires forall x :: x in s <==> x in t
    ensures s == t
  {
    SameMembersBothEmpty(s, t);
    if s != [] {
      assert s[0] == t[0] by {
        assert t[0] in s && s[0] in t;
      }
      forall x
        ensures x in s[1..] <==> x in t[1..]
      {
        if x in s[1..] {
          var i :| 0 <= i < |s[1..]| && s[1..][i] == x;
          assert less(s[0], s[i + 1]);
          assert x in t;
          assert x != t[0];
          var j :| 0 <= j < |t| && t[j] == x;
          assert t[1..][j - 1] == x;
        }
        if x in t[1..] {
          var j :| 0 <= j < |t[1..]| && t[1..][j] == x;
          assert less(t[0], t[j + 1]);
          assert x in s;
          assert x != s[0];
          var i :| 0 <= i < |s| && s[i] == x;
          assert s[1..][i - 1] == x;
        }
      }
      StrictlySortedUnique(s[1..], t[1..], less);
      assert s == [s[0]] + s[1..] && t == [t[0]] + t[1..];
    }
  }
}
