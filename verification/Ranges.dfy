/** Lists of numbers as ranges (src/lib/dataObjectUtils.ts and tools/check-coverage.js). */
module Ranges {
  import opened Sequences

  datatype Range = Range(start: int, end: int)

  ghost predicate Sorted(xs: seq<int>) {
    forall i, j :: 0 <= i < j < |xs| ==> xs[i] <= xs[j]
  }

  ghost predicate Ascending(xs: seq<int>) {
    forall i, j :: 0 <= i < j < |xs| ==> xs[i] < xs[j]
  }

  ghost predicate NoRepeats(xs: seq<int>) {
    forall i, j :: 0 <= i < j < |xs| ==> xs[i] != xs[j]
  }

  function Insert(x: int, xs: seq<int>): (r: seq<int>)
    requires Sorted(xs)
    ensures Sorted(r)
    ensures forall i :: 0 <= i < |r| ==> r[i] == x || r[i] in xs
  {
    if xs == [] || xs[|xs| - 1] <= x then xs + [x]
    else
      var n := |xs| - 1;
      var rest := Insert(x, xs[..n]);
      assert forall y :: y in xs[..n] ==> y <= xs[n];
      assert forall i :: 0 <= i < |rest| ==> rest[i] <= xs[n];
      rest + [xs[n]]
  }

  lemma {:induction false} InsertAdds(x: int, xs: seq<int>)
    requires Sorted(xs)
    ensures multiset(Insert(x, xs)) == multiset(xs) + multiset{x}
  {
    if xs != [] && xs[|xs| - 1] > x {
      var n := |xs| - 1;
      InsertAdds(x, xs[..n]);
      Snoc(xs);
      assert Insert(x, xs) == Insert(x, xs[..n]) + [xs[n]];
    }
  }

  /** `sort((a, b) => a - b)`; equal numbers are indistinguishable, so the result is the only one. */
  function Sort(xs: seq<int>): (r: seq<int>)
    ensures Sorted(r) && multiset(r) == multiset(xs)
  {
    if xs == [] then []
    else
      assert xs == [xs[0]] + xs[1..];
      InsertAdds(xs[0], Sort(xs[1..]));
      Insert(xs[0], Sort(xs[1..]))
  }

  /** `Array.from(new Set(xs))`. */
  function Distinct(xs: seq<int>): (r: seq<int>)
    ensures NoRepeats(r) && forall x :: x in r <==> x in xs
  {
    if xs == [] then []
    else
      var earlier, last := Distinct(xs[..|xs| - 1]), xs[|xs| - 1];
      assert xs == xs[..|xs| - 1] + [last];
      if last in earlier then earlier else earlier + [last]
  }

  function SortedDistinct(xs: seq<int>): seq<int> {
    Sort(Distinct(xs))
  }

  lemma {:induction false} RepeatsByCount(xs: seq<int>)
    ensures NoRepeats(xs) <==> forall x :: x in multiset(xs) ==> multiset(xs)[x] == 1
  {
    if xs != [] {
      var n := |xs| - 1;
      assert xs == xs[..n] + [xs[n]];
      RepeatsByCount(xs[..n]);
      if !NoRepeats(xs[..n]) {
        var x :| x in multiset(xs[..n]) && multiset(xs[..n])[x] != 1;
        assert multiset(xs)[x] != 1;
      } else if xs[n] in xs[..n] {
        assert xs[n] in multiset(xs[..n]);
        assert multiset(xs)[xs[n]] == 2;
      } else {
        assert multiset(xs[..n])[xs[n]] == 0;
      }
    }
  }

  lemma SameMembers(a: seq<int>, b: seq<int>)
    requires multiset(a) == multiset(b)
    ensures forall x :: x in a <==> x in b
    ensures NoRepeats(a) <==> NoRepeats(b)
  {
    assert forall x :: x in a <==> x in multiset(a);
    assert forall x :: x in b <==> x in multiset(b);
    RepeatsByCount(a);
    RepeatsByCount(b);
  }

  lemma HeadIsMember<T>(xs: seq<T>)
    ensures xs == [] || xs[0] in xs
  {
  }

  /** There is one strictly ascending list of given members. */
  lemma {:induction false} AscendingUnique(a: seq<int>, b: seq<int>)
    requires Ascending(a) && Ascending(b) && forall x :: x in a <==> x in b
    ensures a == b
  {
    if a == [] {
      HeadIsMember(b);
    } else {
      var n := |a| - 1;
      assert a[n] in b && b != [];
      var m := |b| - 1;
      assert b[m] in a;
      assert a[n] == b[m];
      forall x ensures x in a[..n] <==> x in b[..m] {
        assert x in a[..n] ==> x in b && x < a[n];
        assert x in b[..m] ==> x in a && x < b[m];
        assert a == a[..n] + [a[n]] && b == b[..m] + [b[m]];
      }
      AscendingUnique(a[..n], b[..m]);
      assert a == a[..n] + [a[n]] && b == b[..m] + [b[m]];
    }
  }

  lemma SortedDistinctAscends(xs: seq<int>)
    ensures Ascending(SortedDistinct(xs)) && forall x :: x in SortedDistinct(xs) <==> x in xs
  {
    SameMembers(SortedDistinct(xs), Distinct(xs));
  }

  // ---------- ranges and what they stand for ----------

  function Members(r: Range): (s: seq<int>)
    ensures |s| == if r.start <= r.end then r.end - r.start + 1 else 0
    ensures forall i :: 0 <= i < |s| ==> s[i] == r.start + i
  {
    if r.start <= r.end then seq(r.end - r.start + 1, i => r.start + i) else []
  }

  function Expansion(ranges: seq<Range>): seq<int> {
    if ranges == [] then []
    else Expansion(ranges[..|ranges| - 1]) + Members(ranges[|ranges| - 1])
  }

  /** Non-empty ranges in order, with at least one number missing between neighbours: none can be longer. */
  ghost predicate Separated(ranges: seq<Range>) {
    && (forall i :: 0 <= i < |ranges| ==> ranges[i].start <= ranges[i].end)
    && (forall i :: 0 < i < |ranges| ==> ranges[i - 1].end + 2 <= ranges[i].start)
  }

  function Extend(ranges: seq<Range>, x: int): seq<Range> {
    var n := |ranges| - 1;
    if ranges != [] && x == ranges[n].end + 1 then ranges[n := Range(ranges[n].start, x)] else ranges + [Range(x, x)]
  }

  /** Each number extends the last range or starts one. */
  function Compress(xs: seq<int>): (r: seq<Range>)
    ensures xs == [] <==> r == []
    ensures xs != [] ==> r[|r| - 1].end == xs[|xs| - 1]
    ensures forall i :: 0 <= i < |r| ==> r[i].start <= r[i].end
  {
    if xs == [] then [] else Extend(Compress(xs[..|xs| - 1]), xs[|xs| - 1])
  }

  lemma MembersGrow(r: Range, x: int)
    requires r.start <= r.end && x == r.end + 1
    ensures Members(Range(r.start, x)) == Members(r) + [x]
  {
  }

  lemma ExtendSnoc(done: seq<Range>, last: Range, x: int)
    ensures Extend(done + [last], x) ==
            if x == last.end + 1 then done + [Range(last.start, x)] else done + [last] + [Range(x, x)]
  {
  }

  lemma ExtendExpands(done: seq<Range>, last: Range, x: int)
    requires last.start <= last.end
    ensures Expansion(Extend(done + [last], x)) == Expansion(done + [last]) + [x]
  {
    ExtendSnoc(done, last, x);
  }

  /** Nothing is lost, whatever the list. */
  lemma {:induction false} CompressExpands(xs: seq<int>)
    ensures Expansion(Compress(xs)) == xs
  {
    if xs != [] {
      var earlier, x := Compress(xs[..|xs| - 1]), xs[|xs| - 1];
      CompressExpands(xs[..|xs| - 1]);
      Snoc(xs);
      if earlier != [] {
        var n := |earlier| - 1;
        Snoc(earlier);
        ExtendExpands(earlier[..n], earlier[n], x);
      }
    }
  }

  lemma {:induction false} CompressSeparates(xs: seq<int>)
    requires Ascending(xs)
    ensures Separated(Compress(xs))
  {
    if xs != [] {
      CompressSeparates(xs[..|xs| - 1]);
    }
  }

  lemma {:induction false} SeparatedAscends(ranges: seq<Range>)
    requires Separated(ranges)
    ensures Ascending(Expansion(ranges)) && (Expansion(ranges) == [] <==> ranges == [])
    ensures ranges != [] ==> Expansion(ranges)[|Expansion(ranges)| - 1] == ranges[|ranges| - 1].end
  {
    if ranges != [] {
      var n := |ranges| - 1;
      SeparatedAscends(ranges[..n]);
    }
  }

  lemma {:induction false} CompressRun(xs: seq<int>, start: int, end: int)
    requires start <= end && (xs != [] ==> xs[|xs| - 1] + 2 <= start)
    ensures Compress(xs + Members(Range(start, end))) == Compress(xs) + [Range(start, end)]
    decreases end - start
  {
    if start == end {
      assert Members(Range(start, end)) == [start];
    } else {
      var ms := Members(Range(start, end - 1));
      CompressRun(xs, start, end - 1);
      MembersGrow(Range(start, end - 1), end);
      Assoc(xs, ms, [end]);
      CompressNext(xs + ms, end, Compress(xs), Range(start, end - 1));
    }
  }

  lemma CompressNext(xs: seq<int>, x: int, done: seq<Range>, last: Range)
    requires Compress(xs) == done + [last]
    ensures Compress(xs + [x]) ==
            if x == last.end + 1 then done + [Range(last.start, x)] else done + [last] + [Range(x, x)]
  {
  }

  /** Separated ranges are what compressing their numbers gives, so they are the only such ranges. */
  lemma {:induction false} ExpandCompresses(ranges: seq<Range>)
    requires Separated(ranges)
    ensures Compress(Expansion(ranges)) == ranges
  {
    if ranges != [] {
      var earlier, r := ranges[..|ranges| - 1], ranges[|ranges| - 1];
      SeparatedAscends(earlier);
      ExpandCompresses(earlier);
      CompressRun(Expansion(earlier), r.start, r.end);
      Snoc(ranges);
    }
  }

  /** Two lists of separated ranges over the same numbers are the same list. */
  lemma SeparatedUnique(a: seq<Range>, b: seq<Range>)
    requires Separated(a) && Separated(b) && forall x :: x in Expansion(a) <==> x in Expansion(b)
    ensures a == b
  {
    SeparatedAscends(a);
    SeparatedAscends(b);
    AscendingUnique(Expansion(a), Expansion(b));
    ExpandCompresses(a);
    ExpandCompresses(b);
  }

  // ---------- the two implementations ----------

  lemma CompressUpTo(xs: seq<int>, i: nat)
    requires i < |xs|
    ensures Compress(xs[..i + 1]) == Extend(Compress(xs[..i]), xs[i])
  {
    assert xs[..i + 1][..i] == xs[..i];
  }

  method CreateRanges(numbers: seq<int>) returns (ranges: seq<Range>)
    ensures Separated(ranges) && Expansion(ranges) == SortedDistinct(numbers)
    ensures forall x :: x in Expansion(ranges) <==> x in numbers
  {
    var sortedNumbers := SortedDistinct(numbers);
    ranges := [];
    for i := 0 to |sortedNumbers|
      invariant ranges == Compress(sortedNumbers[..i])
    {
      var current := sortedNumbers[i];
      CompressUpTo(sortedNumbers, i);
      if |ranges| == 0 {
        ranges := ranges + [Range(current, current)];
      } else {
        var lastRange := ranges[|ranges| - 1];
        if current == lastRange.end + 1 {
          ranges := ranges[|ranges| - 1 := lastRange.(end := current)];
        } else {
          ranges := ranges + [Range(current, current)];
        }
      }
    }
    TakeAll(sortedNumbers);
    SortedDistinctAscends(numbers);
    CompressSeparates(sortedNumbers);
    CompressExpands(sortedNumbers);
  }

  method SortInPlace(a: array<int>)
    modifies a
    ensures a[..] == Sort(old(a[..]))
  {
    var sorted := Sort(a[..]);
    assert |sorted| == |multiset(sorted)| == |multiset(a[..])| == a.Length;
    forall i | 0 <= i < a.Length { a[i] := sorted[i]; }
  }

  /** Sorts its argument, and keeps repeated lines. */
  method GroupIntoRanges(lines: array<int>) returns (ranges: seq<Range>)
    modifies lines
    ensures lines[..] == Sort(old(lines[..])) && ranges == Compress(lines[..])
  {
    ranges := [];
    if lines.Length == 0 { return; }
    SortInPlace(lines);
    ghost var sorted := lines[..];
    var start, end := lines[0], lines[0];
    CompressUpTo(sorted, 0);
    for i := 1 to lines.Length
      invariant lines[..] == sorted && ranges + [Range(start, end)] == Compress(sorted[..i])
    {
      CompressUpTo(sorted, i);
      ExtendSnoc(ranges, Range(start, end), sorted[i]);
      if lines[i] == end + 1 {
        end := lines[i];
      } else {
        ranges := ranges + [Range(start, end)];
        start, end := lines[i], lines[i];
      }
    }
    ranges := ranges + [Range(start, end)];
    TakeAll(sorted);
  }

  /** The two agree exactly on the lists without repeated numbers. */
  lemma {:induction false} AgreeIffNoRepeats(xs: seq<int>)
    ensures Compress(Sort(xs)) == Compress(SortedDistinct(xs)) <==> NoRepeats(xs)
    ensures NoRepeats(xs) ==> Separated(Compress(Sort(xs)))
  {
    SortedDistinctAscends(xs);
    SameMembers(Sort(xs), xs);
    CompressExpands(Sort(xs));
    CompressExpands(SortedDistinct(xs));
    if NoRepeats(xs) {
      AscendingUnique(Sort(xs), SortedDistinct(xs));
      CompressSeparates(Sort(xs));
    }
  }

  lemma CompressTwice(x: int)
    ensures Compress([x, x]) == [Range(x, x), Range(x, x)]
  {
    assert [x, x][..1] == [x];
    assert Extend([Range(x, x)], x) == [Range(x, x)] + [Range(x, x)];
  }

  /** A repeated number comes out of the one as two ranges and out of the other as one. */
  lemma RepeatsSplit(x: int, xs: seq<int>)
    requires xs == [x, x]
    ensures Compress(Sort(xs)) == [Range(x, x), Range(x, x)] && Compress(SortedDistinct(xs)) == [Range(x, x)]
  {
    var sorted := Sort(xs);
    SameMembers(sorted, xs);
    assert |sorted| == |multiset(sorted)| == |multiset(xs)| == 2 && sorted[0] in sorted && sorted[1] in sorted;
    assert sorted == [x, x];
    CompressTwice(x);
    SortedDistinctAscends(xs);
    AscendingUnique(SortedDistinct(xs), [x]);
  }
}
