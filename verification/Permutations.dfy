/** Facts about sequences that hold of every reordering of them. */
module Permutations {
  import opened Common

  ghost predicate Permutation<T>(a: seq<T>, b: seq<T>) {
    multiset(a) == multiset(b)
  }

  lemma SameMembers<T>(a: seq<T>, b: seq<T>)
    requires Permutation(a, b)
    ensures |a| == |b| && forall x :: x in a <==> x in b
  {
    assert |multiset(a)| == |a| && |multiset(b)| == |b|;
    forall x ensures x in a <==> x in b {
      assert x in a <==> x in multiset(a);
      assert x in b <==> x in multiset(b);
    }
  }

  /** Two different positions carry the same key; positions without a key do not count. */
  ghost predicate Repeats<T(!new), K(!new)>(xs: seq<T>, key: T -> Option<K>) {
    exists i, j :: 0 <= i < j < |xs| && key(xs[i]).Some? && key(xs[i]) == key(xs[j])
  }

  lemma Occurrences<T>(xs: seq<T>, i: nat, j: nat)
    requires i < j < |xs| && xs[i] == xs[j]
    ensures multiset(xs)[xs[i]] >= 2
  {
    assert xs == xs[..i] + [xs[i]] + xs[i + 1..j] + [xs[j]] + xs[j + 1..];
  }

  lemma {:induction false} TwoPositions<T>(xs: seq<T>, x: T) returns (i: nat, j: nat)
    requires multiset(xs)[x] >= 2
    ensures i < j < |xs| && xs[i] == x && xs[j] == x
  {
    var front, last := xs[..|xs| - 1], xs[|xs| - 1];
    assert xs == front + [last];
    if last == x {
      assert x in multiset(front);
      i :| 0 <= i < |front| && front[i] == x;
      j := |front|;
    } else {
      i, j := TwoPositions(front, x);
    }
  }

  /** Whether some key repeats does not depend on the order. */
  lemma RepeatsPermuted<T(!new), K(!new)>(a: seq<T>, b: seq<T>, key: T -> Option<K>)
    requires Permutation(a, b) && Repeats(a, key)
    ensures Repeats(b, key)
  {
    var i, j :| 0 <= i < j < |a| && key(a[i]).Some? && key(a[i]) == key(a[j]);
    if a[i] == a[j] {
      Occurrences(a, i, j);
      var k, l := TwoPositions(b, a[i]);
    } else {
      SameMembers(a, b);
      assert a[i] in b && a[j] in b;
      var k :| 0 <= k < |b| && b[k] == a[i];
      var l :| 0 <= l < |b| && b[l] == a[j];
      var lo, hi := if k < l then k else l, if k < l then l else k;
      assert key(b[lo]) == key(b[hi]);
    }
  }

  // ---------------------------------------------------------------- filtering and adding up

  function Filter<T>(xs: seq<T>, p: T -> bool): seq<T> {
    if xs == [] then []
    else Filter(xs[..|xs| - 1], p) + if p(xs[|xs| - 1]) then [xs[|xs| - 1]] else []
  }

  lemma {:induction false} FilterCounts<T>(xs: seq<T>, p: T -> bool, x: T)
    ensures multiset(Filter(xs, p))[x] == if p(x) then multiset(xs)[x] else 0
  {
    if xs != [] {
      FilterCounts(xs[..|xs| - 1], p, x);
      assert xs == xs[..|xs| - 1] + [xs[|xs| - 1]];
    }
  }

  lemma FilterOne<T>(x: T, p: T -> bool)
    ensures Filter([x], p) == if p(x) then [x] else []
  {
    assert [x][..0] == [];
  }

  function Total<T>(xs: seq<T>, weight: T -> nat): nat {
    if xs == [] then 0 else Total(xs[..|xs| - 1], weight) + weight(xs[|xs| - 1])
  }

  lemma {:induction false} TotalConcat<T>(a: seq<T>, b: seq<T>, weight: T -> nat)
    ensures Total(a + b, weight) == Total(a, weight) + Total(b, weight)
  {
    if b == [] {
      assert a + b == a;
    } else {
      assert (a + b)[..|a + b| - 1] == a + b[..|b| - 1];
      TotalConcat(a, b[..|b| - 1], weight);
    }
  }

  lemma {:induction false} FilterConcat<T>(a: seq<T>, b: seq<T>, p: T -> bool)
    ensures Filter(a + b, p) == Filter(a, p) + Filter(b, p)
  {
    if b == [] {
      assert a + b == a;
    } else {
      assert (a + b)[..|a + b| - 1] == a + b[..|b| - 1];
      FilterConcat(a, b[..|b| - 1], p);
    }
  }

  lemma RemoveOne<T>(l: seq<T>, x: T, r: seq<T>)
    ensures multiset(l + [x] + r) - multiset{x} == multiset(l + r)
  {
    assert multiset(l + [x] + r) == multiset(l) + multiset{x} + multiset(r);
    assert multiset(l + r) == multiset(l) + multiset(r);
  }

  lemma CancelOne<T>(front: seq<T>, x: T, l: seq<T>, r: seq<T>)
    requires Permutation(front + [x], l + [x] + r)
    ensures Permutation(front, l + r)
  {
    RemoveOne(l, x, r);
    RemoveOne(front, x, []);
    assert front + [x] + [] == front + [x] && front + [] == front;
  }

  lemma SplitAt<T>(b: seq<T>, x: T) returns (l: seq<T>, r: seq<T>)
    requires x in b
    ensures b == l + [x] + r
  {
    var i :| 0 <= i < |b| && b[i] == x;
    l, r := b[..i], b[i + 1..];
  }

  /** A permutation, seen from the last element of one side. */
  lemma SplitAtLast<T>(a: seq<T>, b: seq<T>) returns (l: seq<T>, r: seq<T>)
    requires Permutation(a, b) && a != []
    ensures b == l + [a[|a| - 1]] + r && Permutation(a[..|a| - 1], l + r)
  {
    hide Permutation;
    var front, x := a[..|a| - 1], a[|a| - 1];
    SameMembers(a, b);
    l, r := SplitAt(b, x);
    assert a == front + [x];
    CancelOne(front, x, l, r);
  }

  lemma {:induction false} TotalPermuted<T>(a: seq<T>, b: seq<T>, weight: T -> nat)
    requires Permutation(a, b)
    ensures Total(a, weight) == Total(b, weight)
    decreases |a|
  {
    SameMembers(a, b);
    if a != [] {
      var l, r := SplitAtLast(a, b);
      var x := a[|a| - 1];
      TotalPermuted(a[..|a| - 1], l + r, weight);
      TotalConcat(l, r, weight);
      TotalConcat(l, [x], weight);
      TotalConcat(l + [x], r, weight);
    }
  }

  lemma {:induction false} FilterPermuted<T>(a: seq<T>, b: seq<T>, p: T -> bool)
    requires Permutation(a, b)
    ensures Permutation(Filter(a, p), Filter(b, p))
    decreases |a|
  {
    SameMembers(a, b);
    if a != [] {
      var l, r := SplitAtLast(a, b);
      var x := a[|a| - 1];
      FilterPermuted(a[..|a| - 1], l + r, p);
      FilterConcat(l, r, p);
      FilterConcat(l, [x], p);
      FilterConcat(l + [x], r, p);
      FilterOne(x, p);
      assert multiset(Filter(b, p)) == multiset(Filter(l, p)) + multiset(Filter([x], p)) + multiset(Filter(r, p));
    }
  }
}
