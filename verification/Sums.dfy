/** Adding up what the elements of a list contribute, in any order. */
module Sums {

  function Sum<T, E>(xs: seq<T>, part: T -> multiset<E>): multiset<E> {
    if xs == [] then multiset{} else Sum(xs[..|xs| - 1], part) + part(xs[|xs| - 1])
  }

  lemma {:induction false} SumUpdate<T, E>(xs: seq<T>, part: T -> multiset<E>, k: nat, y: T, m: multiset<E>)
    requires k < |xs| && part(y) == part(xs[k]) + m
    ensures Sum(xs[k := y], part) == Sum(xs, part) + m
  {
    var n := |xs| - 1;
    if k == n {
      assert xs[k := y][..n] == xs[..n];
    } else {
      SumUpdate(xs[..n], part, k, y, m);
      assert xs[k := y][..n] == xs[..n][k := y];
    }
  }

  lemma {:induction false} SumWithout<T, E>(xs: seq<T>, part: T -> multiset<E>, k: nat)
    requires k < |xs|
    ensures Sum(xs, part) == Sum(xs[..k] + xs[k + 1..], part) + part(xs[k])
  {
    var n := |xs| - 1;
    var rest := xs[..k] + xs[k + 1..];
    if k == n {
      assert rest == xs[..n];
    } else {
      SumWithout(xs[..n], part, k);
      assert rest[..|rest| - 1] == xs[..n][..k] + xs[..n][k + 1..];
    }
  }

  lemma {:induction false} SumPermuted<T, E>(a: seq<T>, b: seq<T>, part: T -> multiset<E>)
    requires multiset(a) == multiset(b)
    ensures Sum(a, part) == Sum(b, part)
    decreases |a|
  {
    if a == [] {
      assert |multiset(b)| == 0;
    } else {
      var n, x := |a| - 1, a[|a| - 1];
      assert a == a[..n] + [x];
      assert x in multiset(b);
      var k :| 0 <= k < |b| && b[k] == x;
      var rest := b[..k] + b[k + 1..];
      assert b == b[..k] + [x] + b[k + 1..];
      assert multiset(a[..n]) == multiset(a) - multiset{x} == multiset(rest);
      SumPermuted(a[..n], rest, part);
      SumWithout(b, part, k);
    }
  }
}
