/** Sums over a sequence, and what adding, removing and replacing an element does to them. */
module Tally {
  ghost function Sum<E>(f: E -> nat, s: seq<E>): nat {
    if |s| == 0 then 0 else f(s[0]) + Sum(f, s[1..])
  }

  lemma {:induction false} SumConcat<E>(f: E -> nat, a: seq<E>, b: seq<E>)
    ensures Sum(f, a + b) == Sum(f, a) + Sum(f, b)
  {
    if |a| == 0 {
      assert a + b == b;
    } else {
      assert (a + b)[1..] == a[1..] + b;
      SumConcat(f, a[1..], b);
    }
  }

  lemma SumOne<E>(f: E -> nat, x: E)
    ensures Sum(f, [x]) == f(x)
  {
  }

  lemma SumAppend<E>(f: E -> nat, s: seq<E>, x: E)
    ensures Sum(f, s + [x]) == Sum(f, s) + f(x)
  {
    SumConcat(f, s, [x]);
    SumOne(f, x);
  }

  lemma SumSplit<E>(f: E -> nat, s: seq<E>, n: nat)
    requires n < |s|
    ensures Sum(f, s) == Sum(f, s[..n]) + f(s[n]) + Sum(f, s[n + 1..])
  {
    assert s == s[..n] + [s[n]] + s[n + 1..];
    SumConcat(f, s[..n] + [s[n]], s[n + 1..]);
    SumAppend(f, s[..n], s[n]);
  }

  lemma SumRemove<E>(f: E -> nat, s: seq<E>, n: nat)
    requires n < |s|
    ensures Sum(f, s) == Sum(f, s[..n] + s[n + 1..]) + f(s[n])
  {
    SumSplit(f, s, n);
    SumConcat(f, s[..n], s[n + 1..]);
  }

  lemma SumReplace<E>(f: E -> nat, s: seq<E>, n: nat, x: E)
    requires n < |s|
    ensures Sum(f, s) + f(x) == Sum(f, s[n := x]) + f(s[n])
  {
    var after := s[n := x];
    SumSplit(f, s, n);
    SumSplit(f, after, n);
    assert after[..n] == s[..n] && after[n + 1..] == s[n + 1..];
  }

  lemma {:induction false} SumZero<E>(f: E -> nat, s: seq<E>)
    requires forall i :: 0 <= i < |s| ==> f(s[i]) == 0
    ensures Sum(f, s) == 0
  {
    if |s| > 0 {
      SumZero(f, s[1..]);
    }
  }
}
