/**
  The reducers' common shape: find the accumulated record with the same key, absorb the new item into it, or append a
  new record.  What such a fold computes is stated once here and used for citations, objectives and goals.
 */
module Grouping {
  import opened Sums

  datatype Grouper<!X, !G, !K> = Grouper(key: X -> K, groupKey: G -> K, make: X -> G, absorb: (G, X) -> G)

  /** A record keeps its key from its first item on. */
  ghost predicate Lawful<X(!new), G(!new), K(!new)>(s: Grouper<X, G, K>) {
    && (forall x :: s.groupKey(s.make(x)) == s.key(x))
    && (forall g, x :: s.groupKey(g) == s.key(x) ==> s.groupKey(s.absorb(g, x)) == s.groupKey(g))
  }

  function Find<X, G, K(==)>(s: Grouper<X, G, K>, gs: seq<G>, key: K): (i: nat)
    ensures i <= |gs| && (i < |gs| ==> s.groupKey(gs[i]) == key)
    ensures forall j :: 0 <= j < i ==> s.groupKey(gs[j]) != key
  {
    if gs == [] || s.groupKey(gs[0]) == key then 0 else 1 + Find(s, gs[1..], key)
  }

  function Add<X, G, K(==)>(s: Grouper<X, G, K>, gs: seq<G>, x: X): seq<G> {
    var i := Find(s, gs, s.key(x));
    if i < |gs| then gs[i := s.absorb(gs[i], x)] else gs + [s.make(x)]
  }

  function GroupAll<X, G, K(==)>(s: Grouper<X, G, K>, gs: seq<G>, xs: seq<X>): seq<G> {
    if xs == [] then gs else Add(s, GroupAll(s, gs, xs[..|xs| - 1]), xs[|xs| - 1])
  }

  /** The items with one key, in order. */
  function Members<X, G, K(==)>(s: Grouper<X, G, K>, xs: seq<X>, key: K): (r: seq<X>)
    ensures forall x :: x in r ==> x in xs && s.key(x) == key
    ensures forall x :: x in xs && s.key(x) == key ==> x in r
  {
    if xs == [] then []
    else
      var earlier := Members(s, xs[..|xs| - 1], key);
      assert xs == xs[..|xs| - 1] + [xs[|xs| - 1]];
      if s.key(xs[|xs| - 1]) == key then earlier + [xs[|xs| - 1]] else earlier
  }

  /** One record made from all of its items at once. */
  function Collapse<X, G, K>(s: Grouper<X, G, K>, xs: seq<X>): G
    requires xs != []
  {
    if |xs| == 1 then s.make(xs[0]) else s.absorb(Collapse(s, xs[..|xs| - 1]), xs[|xs| - 1])
  }

  /** The keys in order of first appearance. */
  function KeysInOrder<X, G, K(==)>(s: Grouper<X, G, K>, xs: seq<X>): seq<K> {
    if xs == [] then []
    else
      var earlier := KeysInOrder(s, xs[..|xs| - 1]);
      if s.key(xs[|xs| - 1]) in earlier then earlier else earlier + [s.key(xs[|xs| - 1])]
  }

  /** Distinct keys; each record is the collapse of exactly the items with its key; no item is left out. */
  ghost predicate Represents<X, G, K>(s: Grouper<X, G, K>, gs: seq<G>, xs: seq<X>) {
    && (forall i, j :: 0 <= i < j < |gs| ==> s.groupKey(gs[i]) != s.groupKey(gs[j]))
    && (forall i :: 0 <= i < |gs| ==>
          var items := Members(s, xs, s.groupKey(gs[i]));
          items != [] && gs[i] == Collapse(s, items))
    && (forall x :: x in xs ==> exists i :: 0 <= i < |gs| && s.groupKey(gs[i]) == s.key(x))
  }

  lemma AddRepresents<X(!new), G(!new), K(!new)>(s: Grouper<X, G, K>, gs: seq<G>, xs: seq<X>, x: X)
    requires Lawful(s) && Represents(s, gs, xs)
    ensures Represents(s, Add(s, gs, x), xs + [x])
  {
    var k := s.key(x);
    var i := Find(s, gs, k);
    var gs' := Add(s, gs, x);
    forall j | 0 <= j < |gs'|
      ensures Members(s, xs + [x], s.groupKey(gs'[j])) != []
      ensures gs'[j] == Collapse(s, Members(s, xs + [x], s.groupKey(gs'[j])))
      ensures j < |gs| ==> s.groupKey(gs'[j]) == s.groupKey(gs[j])
    {
      if j == i && i < |gs| {
        var items := Members(s, xs, k);
        assert (items + [x])[..|items|] == items;
      } else if j == |gs| {
        NoMembers(s, gs, xs, k);
        assert [] + [x] == [x];
      }
    }
    forall y | y in xs + [x] ensures exists j :: 0 <= j < |gs'| && s.groupKey(gs'[j]) == s.key(y) {
      if y in xs {
        var j :| 0 <= j < |gs| && s.groupKey(gs[j]) == s.key(y);
        assert s.groupKey(gs'[j]) == s.key(y);
      } else {
        assert s.groupKey(gs'[i]) == k;
      }
    }
  }

  lemma MembersNone<X, G, K>(s: Grouper<X, G, K>, xs: seq<X>, key: K)
    requires forall i :: 0 <= i < |xs| ==> s.key(xs[i]) != key
    ensures Members(s, xs, key) == []
  {
  }

  lemma {:induction false} NoMembers<X, G, K>(s: Grouper<X, G, K>, gs: seq<G>, xs: seq<X>, key: K)
    requires Represents(s, gs, xs) && Find(s, gs, key) == |gs|
    ensures Members(s, xs, key) == []
  {
    forall i | 0 <= i < |xs| ensures s.key(xs[i]) != key {
      var j :| 0 <= j < |gs| && s.groupKey(gs[j]) == s.key(xs[i]);
    }
    MembersNone(s, xs, key);
  }

  /** Folding more items into a faithful accumulator keeps it faithful to everything folded so far. */
  lemma {:induction false} GroupAllRepresents<X(!new), G(!new), K(!new)>(
      s: Grouper<X, G, K>, gs: seq<G>, ys: seq<X>, xs: seq<X>)
    requires Lawful(s) && Represents(s, gs, ys)
    ensures Represents(s, GroupAll(s, gs, xs), ys + xs)
  {
    if xs == [] {
      assert ys + xs == ys;
    } else {
      var n := |xs| - 1;
      GroupAllRepresents(s, gs, ys, xs[..n]);
      AddRepresents(s, GroupAll(s, gs, xs[..n]), ys + xs[..n], xs[n]);
      assert ys + xs[..n] + [xs[n]] == ys + xs;
    }
  }

  /** Reordering the accumulator does not matter. */
  lemma PermutedRepresents<X, G, K>(s: Grouper<X, G, K>, gs: seq<G>, hs: seq<G>, xs: seq<X>)
    requires Represents(s, gs, xs) && multiset(gs) == multiset(hs)
    ensures Represents(s, hs, xs)
  {
    SameElements(gs, hs);
    SameElements(hs, gs);
    forall i, j | 0 <= i < j < |hs| ensures s.groupKey(hs[i]) != s.groupKey(hs[j]) {
      if s.groupKey(hs[i]) == s.groupKey(hs[j]) {
        assert hs[i] in gs && hs[j] in gs;
        var p :| 0 <= p < |gs| && gs[p] == hs[i];
        var q :| 0 <= q < |gs| && gs[q] == hs[j];
        assert p == q;
        CountTwice(hs, i, j);
        CountOnce(s, gs, p);
        assert false;
      }
    }
    forall x | x in xs ensures exists i :: 0 <= i < |hs| && s.groupKey(hs[i]) == s.key(x) {
      var i :| 0 <= i < |gs| && s.groupKey(gs[i]) == s.key(x);
      assert gs[i] in hs;
    }
  }

  lemma SameElements<G>(gs: seq<G>, hs: seq<G>)
    requires multiset(gs) == multiset(hs)
    ensures forall i :: 0 <= i < |gs| ==> gs[i] in hs
  {
    forall i | 0 <= i < |gs| ensures gs[i] in hs {
      assert gs[i] in multiset(gs);
      assert gs[i] in multiset(hs);
    }
  }

  lemma CountTwice<G>(hs: seq<G>, i: nat, j: nat)
    requires i < j < |hs| && hs[i] == hs[j]
    ensures multiset(hs)[hs[i]] >= 2
  {
    assert hs == hs[..j] + [hs[j]] + hs[j + 1..];
    assert hs[i] in hs[..j] by { assert hs[..j][i] == hs[i]; }
    assert hs[i] in multiset(hs[..j]);
  }

  lemma CountOnce<X, G, K>(s: Grouper<X, G, K>, gs: seq<G>, p: nat)
    requires p < |gs| && forall i, j :: 0 <= i < j < |gs| ==> s.groupKey(gs[i]) != s.groupKey(gs[j])
    ensures multiset(gs)[gs[p]] == 1
  {
    assert gs == gs[..p] + [gs[p]] + gs[p + 1..];
    assert gs[p] !in gs[..p] && gs[p] !in gs[p + 1..];
    assert gs[p] !in multiset(gs[..p]) && gs[p] !in multiset(gs[p + 1..]);
  }

  function GroupKeys<X, G, K>(s: Grouper<X, G, K>, gs: seq<G>): (r: seq<K>)
    ensures |r| == |gs| && forall i :: 0 <= i < |gs| ==> r[i] == s.groupKey(gs[i])
  {
    seq(|gs|, i requires 0 <= i < |gs| => s.groupKey(gs[i]))
  }

  /** Without reordering, the records come in order of first appearance. */
  lemma {:induction false} GroupedInOrder<X(!new), G(!new), K(!new)>(s: Grouper<X, G, K>, xs: seq<X>)
    requires Lawful(s)
    ensures GroupKeys(s, GroupAll(s, [], xs)) == KeysInOrder(s, xs)
  {
    if xs != [] {
      var n := |xs| - 1;
      GroupedInOrder(s, xs[..n]);
      var gs := GroupAll(s, [], xs[..n]);
      var k := s.key(xs[n]);
      var i := Find(s, gs, k);
      if i < |gs| {
        assert GroupKeys(s, gs)[i] == k;
      } else {
        assert forall j :: 0 <= j < |gs| ==> GroupKeys(s, gs)[j] != k;
      }
    }
  }

  /** Of two keys in order, the first appears before the second does. */
  lemma {:induction false} KeysFirstAppear<X, G, K>(s: Grouper<X, G, K>, xs: seq<X>, i: nat, j: nat) returns (p: nat)
    requires i < j < |KeysInOrder(s, xs)|
    ensures p < |xs| && s.key(xs[p]) == KeysInOrder(s, xs)[i]
    ensures forall q :: 0 <= q <= p ==> s.key(xs[q]) != KeysInOrder(s, xs)[j]
  {
    var n := |xs| - 1;
    var earlier := KeysInOrder(s, xs[..n]);
    if j < |earlier| {
      p := KeysFirstAppear(s, xs[..n], i, j);
    } else {
      p := KeyAppears(s, xs[..n], i);
      forall q | 0 <= q <= p ensures s.key(xs[q]) != s.key(xs[n]) {
        KeysHold(s, xs[..n], q);
      }
    }
  }

  lemma {:induction false} KeyAppears<X, G, K>(s: Grouper<X, G, K>, xs: seq<X>, i: nat) returns (p: nat)
    requires i < |KeysInOrder(s, xs)|
    ensures p < |xs| && s.key(xs[p]) == KeysInOrder(s, xs)[i]
  {
    var n := |xs| - 1;
    if i < |KeysInOrder(s, xs[..n])| {
      p := KeyAppears(s, xs[..n], i);
    } else {
      p := n;
    }
  }

  lemma {:induction false} KeysHold<X, G, K>(s: Grouper<X, G, K>, xs: seq<X>, q: nat)
    requires q < |xs|
    ensures s.key(xs[q]) in KeysInOrder(s, xs)
  {
    if q < |xs| - 1 {
      KeysHold(s, xs[..|xs| - 1], q);
    }
  }

  lemma {:induction false} GroupConcat<X, G, K>(s: Grouper<X, G, K>, gs: seq<G>, a: seq<X>, b: seq<X>)
    ensures GroupAll(s, gs, a + b) == GroupAll(s, GroupAll(s, gs, a), b)
  {
    if b == [] {
      assert a + b == a;
    } else {
      var n := |b| - 1;
      GroupConcat(s, gs, a, b[..n]);
      assert (a + b)[..|a + b| - 1] == a + b[..n];
    }
  }

  // ---------- lodash uniqBy ----------

  predicate HasKey<T, K(==)>(xs: seq<T>, key: T -> K, k: K) {
    xs != [] && (key(xs[|xs| - 1]) == k || HasKey(xs[..|xs| - 1], key, k))
  }

  /** Keeps the first element with each key. */
  function UniqBy<T, K(==)>(xs: seq<T>, key: T -> K): seq<T> {
    if xs == [] then []
    else
      var earlier, last := UniqBy(xs[..|xs| - 1], key), xs[|xs| - 1];
      if HasKey(earlier, key, key(last)) then earlier else earlier + [last]
  }

  lemma {:induction false} HasKeyConcat<T, K>(a: seq<T>, b: seq<T>, key: T -> K, k: K)
    ensures HasKey(a + b, key, k) <==> HasKey(a, key, k) || HasKey(b, key, k)
  {
    if b == [] {
      assert a + b == a;
    } else {
      var n := |b| - 1;
      HasKeyConcat(a, b[..n], key, k);
      assert (a + b)[..|a + b| - 1] == a + b[..n];
    }
  }

  lemma HasKeyIndex<T, K>(xs: seq<T>, key: T -> K, k: K)
    ensures HasKey(xs, key, k) <==> exists i :: 0 <= i < |xs| && key(xs[i]) == k
  {
  }

  lemma UniqSnoc<T, K>(xs: seq<T>, key: T -> K, x: T)
    ensures UniqBy(xs + [x], key) == if HasKey(xs, key, key(x)) then UniqBy(xs, key) else UniqBy(xs, key) + [x]
  {
  }

  ghost predicate DistinctKeys<T, K>(xs: seq<T>, key: T -> K) {
    forall i, j :: 0 <= i < j < |xs| ==> key(xs[i]) != key(xs[j])
  }

  lemma {:induction false} UniqDistinct<T, K>(xs: seq<T>, key: T -> K)
    ensures DistinctKeys(UniqBy(xs, key), key)
  {
    if xs != [] {
      var n := |xs| - 1;
      UniqDistinct(xs[..n], key);
      HasKeyIndex(UniqBy(xs[..n], key), key, key(xs[n]));
    }
  }

  lemma {:induction false} UniqFixed<T, K>(xs: seq<T>, key: T -> K)
    requires DistinctKeys(xs, key)
    ensures UniqBy(xs, key) == xs
  {
    if xs != [] {
      var n := |xs| - 1;
      UniqFixed(xs[..n], key);
      HasKeyIndex(xs[..n], key, key(xs[n]));
      assert xs == xs[..n] + [xs[n]];
    }
  }

  /** Deduplicating as one goes is deduplicating at the end. */
  lemma {:induction false} UniqConcat<T, K>(a: seq<T>, b: seq<T>, key: T -> K)
    ensures UniqBy(UniqBy(a, key) + b, key) == UniqBy(a + b, key)
  {
    var u := UniqBy(a, key);
    if b == [] {
      assert a + b == a && u + b == u;
      UniqDistinct(a, key);
      UniqFixed(u, key);
    } else {
      var n, x := |b| - 1, b[|b| - 1];
      UniqConcat(a, b[..n], key);
      assert a + b == a + b[..n] + [x] && u + b == u + b[..n] + [x];
      UniqSnoc(a + b[..n], key, x);
      UniqSnoc(u + b[..n], key, x);
      HasKeyConcat(a, b[..n], key, key(x));
      HasKeyConcat(u, b[..n], key, key(x));
    }
  }

  // ---------- conservation ----------

  /** What a new record starts with and what absorbing an item adds is exactly the item's own part. */
  ghost predicate Conserves<X(!new), G(!new), K>(s: Grouper<X, G, K>, part: G -> multiset<int>,
                                                 itemPart: X -> multiset<int>) {
    && (forall x :: part(s.make(x)) == itemPart(x))
    && (forall g, x :: part(s.absorb(g, x)) == part(g) + itemPart(x))
  }

  lemma {:induction false} GroupingConserves<X(!new), G(!new), K>(s: Grouper<X, G, K>, gs: seq<G>, xs: seq<X>,
                                                    part: G -> multiset<int>, itemPart: X -> multiset<int>)
    requires Conserves(s, part, itemPart)
    ensures Sum(GroupAll(s, gs, xs), part) == Sum(gs, part) + Sum(xs, itemPart)
  {
    if xs != [] {
      var n, x := |xs| - 1, xs[|xs| - 1];
      GroupingConserves(s, gs, xs[..n], part, itemPart);
      var earlier := GroupAll(s, gs, xs[..n]);
      var i := Find(s, earlier, s.key(x));
      if i < |earlier| {
        SumUpdate(earlier, part, i, s.absorb(earlier[i], x), itemPart(x));
      } else {
        assert (earlier + [s.make(x)])[..|earlier|] == earlier;
      }
    }
  }
}
