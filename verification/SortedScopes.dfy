/** Sets of strings written out in code point order, as `sorted` does. */
module SortedScopes {
  import opened Ordering

  /** Lexicographic order on code points. */
  predicate Less(a: string, b: string)
    decreases |a|
  {
    b != "" && (a == "" || a[0] < b[0] || (a[0] == b[0] && Less(a[1..], b[1..])))
  }

  /** At this position the first text ends or has the smaller character, and they agree before it. */
  predicate DecidedAt(a: string, b: string, n: nat) {
    n <= |a| && n < |b| && a[..n] == b[..n] && (n == |a| || a[n] < b[n])
  }

  lemma DecidedLater(a: string, b: string, n: nat)
    requires a != "" && b != "" && a[0] == b[0]
    ensures DecidedAt(a, b, n + 1) <==> DecidedAt(a[1..], b[1..], n)
  {
    var m := n + 1;
    if m <= |a| && m < |b| {
      assert a[..m] == [a[0]] + a[1..][..n] && b[..m] == [b[0]] + b[1..][..n];
      assert a[..m][1..] == a[1..][..n] && b[..m][1..] == b[1..][..n];
    }
  }

  /** What decides is the first position at which the texts differ. */
  lemma {:induction false} LessExactly(a: string, b: string)
    ensures Less(a, b) <==> exists n: nat :: DecidedAt(a, b, n)
    decreases |a|
  {
    if a == "" || b == "" || a[0] != b[0] {
      DecidedAtOnce(a, b);
    } else {
      LessExactly(a[1..], b[1..]);
      hide DecidedAt;
      if n: nat :| DecidedAt(a, b, n) {
        NotDecidedAtOnce(a, b);
        DecidedLater(a, b, n - 1);
      }
      if n: nat :| DecidedAt(a[1..], b[1..], n) {
        DecidedLater(a, b, n);
      }
    }
  }

  lemma DecidedAtOnce(a: string, b: string)
    requires a == "" || b == "" || a[0] != b[0]
    ensures (exists n: nat :: DecidedAt(a, b, n)) <==> b != "" && (a == "" || a[0] < b[0])
  {
    if b != "" && (a == "" || a[0] < b[0]) {
      assert DecidedAt(a, b, 0);
    }
    if n: nat :| DecidedAt(a, b, n) {
      assert n > 0 ==> a[..n][0] == b[..n][0];
    }
  }

  lemma NotDecidedAtOnce(a: string, b: string)
    requires a != "" && b != "" && a[0] == b[0]
    ensures !DecidedAt(a, b, 0)
  {
  }

  lemma {:induction false} Irreflexive(a: string)
    ensures !Less(a, a)
    decreases |a|
  {
    if a != "" {
      Irreflexive(a[1..]);
    }
  }

  lemma {:induction false} Transitive(a: string, b: string, c: string)
    requires Less(a, b) && Less(b, c)
    ensures Less(a, c)
    decreases |a|
  {
    if a != "" && a[0] == b[0] && b[0] == c[0] {
      Transitive(a[1..], b[1..], c[1..]);
    }
  }

  lemma {:induction false} Connected(a: string, b: string)
    ensures a == b || Less(a, b) || Less(b, a)
    decreases |a|
  {
    if a != "" && b != "" && a[0] == b[0] {
      Connected(a[1..], b[1..]);
      assert a == [a[0]] + a[1..] && b == [b[0]] + b[1..];
    }
  }

  /** Code point order is a strict total order. */
  lemma LessIsStrictOrder()
    ensures IsStrictOrder(Less)
  {
    forall a ensures !Less(a, a) {
      Irreflexive(a);
    }
    forall a, b, c | Less(a, b) && Less(b, c) ensures Less(a, c) {
      Transitive(a, b, c);
    }
    forall a, b ensures a == b || Less(a, b) || Less(b, a) {
      Connected(a, b);
    }
  }

  function Members(xs: seq<string>): set<string> {
    Elements(xs)
  }

  predicate StrictlySorted(xs: seq<string>) {
    StrictlyAscending(Less, xs)
  }

  /** `sorted(xs)` for a set of strings. */
  function Sorted(xs: set<string>): (r: seq<string>)
    ensures StrictlySorted(r) && Members(r) == xs
  {
    LessIsStrictOrder();
    SortedBy(Less, xs)
  }

  lemma SortedIsUnique(a: seq<string>, b: seq<string>)
    requires StrictlySorted(a) && StrictlySorted(b) && Members(a) == Members(b)
    ensures a == b
  {
    LessIsStrictOrder();
    AscendingIsUnique(Less, a, b);
  }
}
