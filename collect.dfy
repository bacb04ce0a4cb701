/**
 * The "append what succeeds" loop shape the dashboard uses throughout:
 * walk a list in order and keep the results of a partial step.
 */
module Collect {
  import opened Wrappers
  import opened Sorting

  /** The successful results of `f` over `xs`, in order. */
  function FilterMap<A, B>(xs: seq<A>, f: A -> Option<B>): (r: seq<B>)
    ensures |r| <= |xs|
  {
    if xs == [] then []
    else FilterMap(xs[..|xs| - 1], f) + (if f(xs[|xs| - 1]).Some? then [f(xs[|xs| - 1]).value] else [])
  }

  /** Extending the input by one element extends the result by that element's success, if any. */
  lemma FilterMapSnoc<A, B>(xs: seq<A>, x: A, f: A -> Option<B>)
    ensures FilterMap(xs + [x], f) == FilterMap(xs, f) + (if f(x).Some? then [f(x).value] else [])
  {
    assert (xs + [x])[..|xs|] == xs;
  }

  /** Something is collected exactly when some input element succeeds with it. */
  lemma {:induction false} FilterMapMembers<A, B>(xs: seq<A>, f: A -> Option<B>, y: B)
    ensures y in FilterMap(xs, f) <==> exists i :: 0 <= i < |xs| && f(xs[i]) == Some(y)
  {
    if xs != [] {
      var init := xs[..|xs| - 1];
      FilterMapMembers(init, f, y);
      if exists i :: 0 <= i < |xs| && f(xs[i]) == Some(y) {
        var i :| 0 <= i < |xs| && f(xs[i]) == Some(y);
        if i < |init| {
          assert init[i] == xs[i];
        }
      }
      if exists i :: 0 <= i < |init| && f(init[i]) == Some(y) {
        var i :| 0 <= i < |init| && f(init[i]) == Some(y);
        assert xs[i] == init[i];
      }
    }
  }

  /** The loop itself: try each element in turn and append what succeeds. */
  method CollectSome<A, B>(xs: seq<A>, f: A -> Option<B>) returns (r: seq<B>)
    ensures r == FilterMap(xs, f)
  {
    r := [];
    var i := 0;
    while i < |xs|
      invariant 0 <= i <= |xs|
      invariant r == FilterMap(xs[..i], f)
    {
      FilterMapSnoc(xs[..i], xs[i], f);
      assert xs[..i + 1] == xs[..i] + [xs[i]];
      var y := f(xs[i]);
      if y.Some? {
        r := r + [y.value];
      }
      i := i + 1;
    }
    assert xs[..i] == xs;
  }

  /** The elements of `xs` that satisfy `p`, in order: what a loop with a `continue` guard appends. */
  function Filter<A>(xs: seq<A>, p: A -> bool): (r: seq<A>)
    ensures |r| <= |xs|
  {
    if xs == [] then []
    else Filter(xs[..|xs| - 1], p) + (if p(xs[|xs| - 1]) then [xs[|xs| - 1]] else [])
  }

  /** Everything kept is an element of the input that passes the test. */
  lemma FilterSound<A>(xs: seq<A>, p: A -> bool)
    ensures forall y :: y in Filter(xs, p) ==> y in xs && p(y)
  {
    forall y | y in Filter(xs, p)
      ensures y in xs && p(y)
    {
      FilterMembers(xs, p, y);
    }
  }

  lemma FilterSnoc<A>(xs: seq<A>, x: A, p: A -> bool)
    ensures Filter(xs + [x], p) == Filter(xs, p) + (if p(x) then [x] else [])
  {
    assert (xs + [x])[..|xs|] == xs;
  }

  /** Exactly the elements of `xs` that satisfy `p` are kept. */
  lemma {:induction false} FilterMembers<A>(xs: seq<A>, p: A -> bool, y: A)
    ensures y in Filter(xs, p) <==> y in xs && p(y)
  {
    if xs != [] {
      var init := xs[..|xs| - 1];
      FilterMembers(init, p, y);
      assert xs == init + [xs[|xs| - 1]];
    }
  }

  /** Filtering keeps the relative order: a sorted input gives a sorted output. */
  lemma {:induction false} FilterSorted<A>(xs: seq<A>, p: A -> bool, ge: (A, A) -> bool)
    requires Sorted(xs, ge)
    ensures Sorted(Filter(xs, p), ge)
  {
    if xs != [] {
      var init := xs[..|xs| - 1];
      var last := xs[|xs| - 1];
      assert Sorted(init, ge);
      FilterSorted(init, p, ge);
      var r := Filter(init, p);
      forall k | 0 <= k < |r|
        ensures ge(r[k], last)
      {
        FilterMembers(init, p, r[k]);
        var i :| 0 <= i < |init| && init[i] == r[k];
        assert xs[i] == r[k];
      }
    }
  }

  /** Two tests that agree on every element keep the same elements. */
  lemma {:induction false} FilterAgree<A>(xs: seq<A>, p: A -> bool, q: A -> bool)
    requires forall i :: 0 <= i < |xs| ==> p(xs[i]) == q(xs[i])
    ensures Filter(xs, p) == Filter(xs, q)
  {
    if xs != [] {
      FilterAgree(xs[..|xs| - 1], p, q);
    }
  }

  /** A test every element passes keeps everything. */
  lemma {:induction false} FilterAll<A>(xs: seq<A>, p: A -> bool)
    requires forall i :: 0 <= i < |xs| ==> p(xs[i])
    ensures Filter(xs, p) == xs
  {
    if xs != [] {
      FilterAll(xs[..|xs| - 1], p);
    }
  }

  /** Filtering keeps elements that `f` tells apart told apart. */
  lemma {:induction false} FilterInjective<A, K>(xs: seq<A>, p: A -> bool, f: A -> K)
    requires InjectiveOn(xs, f)
    ensures InjectiveOn(Filter(xs, p), f)
  {
    if xs != [] {
      var init := xs[..|xs| - 1];
      var last := xs[|xs| - 1];
      assert InjectiveOn(init, f);
      FilterInjective(init, p, f);
      var r := Filter(init, p);
      forall k | 0 <= k < |r|
        ensures f(r[k]) != f(last)
      {
        FilterMembers(init, p, r[k]);
        var i :| 0 <= i < |init| && init[i] == r[k];
        assert xs[i] == r[k];
      }
    }
  }

  /** `[f(x) for x in xs]`. */
  function MapSeq<A, B>(xs: seq<A>, f: A -> B): (r: seq<B>)
    ensures |r| == |xs|
    ensures forall i :: 0 <= i < |xs| ==> r[i] == f(xs[i])
  {
    seq(|xs|, i requires 0 <= i < |xs| => f(xs[i]))
  }

  /** Appending two pieces after a prefix groups either way. */
  lemma AppendAssoc<A>(a: seq<A>, b: seq<A>, c: seq<A>, d: seq<A>)
    ensures a + (b + c + d) == a + b + c + d
  {
  }

  /** Mapping a list with one more element at the end adds its image at the end. */
  lemma MapSeqSnoc<A, B>(xs: seq<A>, x: A, f: A -> B)
    ensures MapSeq(xs + [x], f) == MapSeq(xs, f) + [f(x)]
  {
    assert MapSeq(xs + [x], f)[|xs|] == f(x);
  }

  /** Taking one element out of a list takes one copy of it out of its multiset. */
  lemma RemoveAt<A>(ys: seq<A>, j: nat)
    requires j < |ys|
    ensures multiset(ys) == multiset(ys[..j] + ys[j + 1..]) + multiset{ys[j]}
  {
    assert ys == ys[..j] + [ys[j]] + ys[j + 1..];
  }

  lemma MultisetCancel<A>(a: multiset<A>, b: multiset<A>, x: A)
    requires a + multiset{x} == b + multiset{x}
    ensures a == b
  {
    forall e
      ensures a[e] == b[e]
    {
      assert (a + multiset{x})[e] == (b + multiset{x})[e];
    }
  }

  lemma MapSeqRemoveAt<A, B>(ys: seq<A>, j: nat, f: A -> B)
    requires j < |ys|
    ensures multiset(MapSeq(ys, f)) == multiset(MapSeq(ys[..j] + ys[j + 1..], f)) + multiset{f(ys[j])}
  {
    var mapped := MapSeq(ys, f);
    RemoveAt(mapped, j);
    assert MapSeq(ys[..j] + ys[j + 1..], f) == mapped[..j] + mapped[j + 1..];
  }

  /** Mapping a permutation gives a permutation of the mapped values. */
  lemma {:induction false} MapSeqMultiset<A, B>(xs: seq<A>, ys: seq<A>, f: A -> B)
    requires multiset(xs) == multiset(ys)
    ensures multiset(MapSeq(xs, f)) == multiset(MapSeq(ys, f))
  {
    if xs != [] {
      var j := IndexIn(xs[0], ys);
      var rest := ys[..j] + ys[j + 1..];
      RemovedRest(xs, ys, j);
      MapSeqMultiset(xs[1..], rest, f);
      MapSeqRemoveAt(ys, j, f);
      MapSeqHead(xs, f);
    }
  }

  /** A position of `x` in `ys`, given that `x` occurs in its multiset. */
  lemma IndexIn<A>(x: A, ys: seq<A>) returns (j: nat)
    requires x in multiset(ys)
    ensures j < |ys| && ys[j] == x
  {
    assert x in ys;
    j :| j < |ys| && ys[j] == x;
  }

  lemma MapSeqHead<A, B>(xs: seq<A>, f: A -> B)
    requires xs != []
    ensures multiset(MapSeq(xs, f)) == multiset(MapSeq(xs[1..], f)) + multiset{f(xs[0])}
  {
    assert MapSeq(xs, f) == [f(xs[0])] + MapSeq(xs[1..], f);
  }

  /** Taking the first element of `xs` and one copy of it out of `ys` leaves permutations. */
  lemma RemovedRest<A>(xs: seq<A>, ys: seq<A>, j: nat)
    requires xs != [] && j < |ys| && ys[j] == xs[0]
    requires multiset(xs) == multiset(ys)
    ensures multiset(xs[1..]) == multiset(ys[..j] + ys[j + 1..])
  {
    RemoveAt(ys, j);
    assert xs == [xs[0]] + xs[1..];
    MultisetCancel(multiset(xs[1..]), multiset(ys[..j] + ys[j + 1..]), xs[0]);
  }
}
