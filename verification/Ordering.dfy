/** Finite sets written out in a strict total order, as `sorted` does. */
module Ordering {

  ghost predicate IsStrictOrder<T(!new)>(less: (T, T) -> bool) {
    && (forall a :: !less(a, a))
    && (forall a, b, c :: less(a, b) && less(b, c) ==> less(a, c))
    && (forall a, b :: a == b || less(a, b) || less(b, a))
  }

  predicate IsLeast<T(==)>(less: (T, T) -> bool, m: T, xs: set<T>) {
    m in xs && forall x :: x in xs ==> x == m || less(m, x)
  }

  lemma {:induction false} LeastExists<T(!new)>(less: (T, T) -> bool, xs: set<T>) returns (m: T)
    requires IsStrictOrder(less) && xs != {}
    ensures IsLeast(less, m, xs)
    decreases |xs|
  {
    var x :| x in xs;
    var rest := xs - {x};
    m := x;
    if rest == {} {
      assert forall z :: z in xs ==> z == x || z in rest;
    } else {
      var y := LeastExists(less, rest);
      m := if less(x, y) then x else y;
      LeastOfTwo(less, xs, x, y, m);
    }
  }

  lemma LeastOfTwo<T(!new)>(less: (T, T) -> bool, xs: set<T>, x: T, y: T, m: T)
    requires IsStrictOrder(less) && x in xs && IsLeast(less, y, xs - {x})
    requires m == if less(x, y) then x else y
    ensures IsLeast(less, m, xs)
  {
    forall z | z in xs ensures z == m || less(m, z) {
      assert z == x || z in xs - {x};
    }
  }

  function Elements<T>(xs: seq<T>): set<T> {
    set x | x in xs
  }

  predicate StrictlyAscending<T>(less: (T, T) -> bool, xs: seq<T>) {
    forall i, j :: 0 <= i < j < |xs| ==> less(xs[i], xs[j])
  }

  /** Each element once, in order. */
  function SortedBy<T(==, !new)>(less: (T, T) -> bool, xs: set<T>): (r: seq<T>)
    requires IsStrictOrder(less)
    ensures StrictlyAscending(less, r) && Elements(r) == xs
    decreases |xs|
  {
    if xs == {} then []
    else
      assert exists m :: IsLeast(less, m, xs) by { var m := LeastExists(less, xs); }
      var m :| IsLeast(less, m, xs);
      var rest := SortedBy(less, xs - {m});
      LeastFirst(less, m, rest, xs);
      [m] + rest
  }

  lemma LeastFirst<T(!new)>(less: (T, T) -> bool, m: T, rest: seq<T>, xs: set<T>)
    requires IsLeast(less, m, xs) && StrictlyAscending(less, rest) && Elements(rest) == xs - {m}
    ensures StrictlyAscending(less, [m] + rest) && Elements([m] + rest) == xs
  {
    assert forall i :: 0 <= i < |rest| ==> rest[i] in Elements(rest);
    assert forall x :: x in [m] + rest <==> x == m || x in rest;
    assert forall x :: x in rest <==> x in Elements(rest);
  }

  /** There is only one way to write a set in order. */
  lemma {:induction false} AscendingIsUnique<T(!new)>(less: (T, T) -> bool, a: seq<T>, b: seq<T>)
    requires IsStrictOrder(less) && StrictlyAscending(less, a) && StrictlyAscending(less, b)
    requires Elements(a) == Elements(b)
    ensures a == b
    decreases |a|
  {
    assert forall x :: x in a <==> x in Elements(a);
    assert forall x :: x in b <==> x in Elements(b);
    if b != [] {
      assert b[0] in a;
    }
    if a != [] {
      assert a[0] in b;
      HeadIsLeast(less, a);
      HeadIsLeast(less, b);
      TailElements(less, a);
      TailElements(less, b);
      AscendingIsUnique(less, a[1..], b[1..]);
      assert a == [a[0]] + a[1..] && b == [b[0]] + b[1..];
    }
  }

  lemma {:induction false} AscendingSize<T(!new)>(less: (T, T) -> bool, a: seq<T>)
    requires IsStrictOrder(less) && StrictlyAscending(less, a)
    ensures |Elements(a)| == |a|
  {
    if a != [] {
      TailElements(less, a);
      AscendingSize(less, a[1..]);
      assert a[0] in Elements(a);
    }
  }

  lemma HeadIsLeast<T(!new)>(less: (T, T) -> bool, a: seq<T>)
    requires StrictlyAscending(less, a) && a != []
    ensures IsLeast(less, a[0], Elements(a))
  {
  }

  lemma TailElements<T(!new)>(less: (T, T) -> bool, a: seq<T>)
    requires IsStrictOrder(less) && StrictlyAscending(less, a) && a != []
    ensures Elements(a[1..]) == Elements(a) - {a[0]}
  {
    forall x | x in Elements(a) - {a[0]} ensures x in Elements(a[1..]) {
      var i :| 0 <= i < |a| && a[i] == x;
      assert a[1..][i - 1] == x;
    }
    forall x | x in a[1..] ensures x != a[0] {
      var i :| 0 <= i < |a[1..]| && a[1..][i] == x;
      assert less(a[0], a[i + 1]);
    }
  }
}
