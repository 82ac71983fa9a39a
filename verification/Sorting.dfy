/** Finite sets of numbers in ascending order. */
module Sorting {
  /** The members of a set in ascending order. */
  ghost predicate Ascending(ns: seq<nat>, s: set<nat>) {
    && (forall i :: 0 <= i < |ns| ==> ns[i] in s)
    && (forall n <- s :: n in ns)
    && (forall i, j :: 0 <= i < j < |ns| ==> ns[i] < ns[j])
  }

  lemma {:induction false} AscendingUnique(a: seq<nat>, b: seq<nat>, s: set<nat>)
    requires Ascending(a, s) && Ascending(b, s)
    ensures a == b
    decreases |a|
  {
    if |a| > 0 {
      assert a[0] in s;
      AscendingHead(a, s, b[0]);
      AscendingHead(b, s, a[0]);
      AscendingTail(a, s);
      AscendingTail(b, s);
      AscendingUnique(a[1..], b[1..], s - {a[0]});
      assert a == [a[0]] + a[1..] && b == [b[0]] + b[1..];
    } else if |b| > 0 {
      AscendingHead(a, s, b[0]);
    }
  }

  lemma AscendingHead(a: seq<nat>, s: set<nat>, x: nat)
    requires Ascending(a, s) && x in s
    ensures |a| > 0 && a[0] in s && a[0] <= x
  {
    assert x in a;
  }

  lemma AscendingTail(a: seq<nat>, s: set<nat>)
    requires Ascending(a, s) && |a| > 0
    ensures Ascending(a[1..], s - {a[0]})
  {
    forall n | n in s - {a[0]} ensures n in a[1..] {
      assert n in a;
    }
  }

  method SortNumbers(s: set<nat>) returns (ns: seq<nat>)
    ensures Ascending(ns, s)
  {
    ns := [];
    var left := s;
    while left != {}
      invariant left <= s && Ascending(ns, s - left)
      invariant forall n, i :: n in left && 0 <= i < |ns| ==> ns[i] < n
      decreases left
    {
      ghost var known := LeastExists(left);
      var least :| least in left && forall n :: n in left ==> least <= n;
      ns := ns + [least];
      left := left - {least};
    }
    assert s - left == s;
  }

  ghost predicate IsLeast(least: nat, s: set<nat>) {
    least in s && forall n :: n in s ==> least <= n
  }

  lemma {:induction false} LeastExists(s: set<nat>) returns (least: nat)
    requires s != {}
    ensures IsLeast(least, s)
    decreases s
  {
    var x :| x in s;
    least := x;
    if s != {x} {
      var other := LeastExists(s - {x});
      least := if x <= other then x else other;
      assert forall n :: n in s ==> n == x || n in s - {x};
    }
  }
}
