/** Expanding array filters (expandFilters in frontend/src/utils.js) does not change what the printed list means. */
module FilterExpansion {
  import opened Prelude
  import opened Sequences
  import opened QueryFilters
  import opened FilterRoundTrip

  function QueryOfItem(item: Item): Query {
    match item
    case One(s) => Scalar(s)
    case Parts(ss) => Items(Ones(ss))
  }

  function ExpandItems(f: Filter, items: seq<Item>): seq<Filter> {
    if items == [] then []
    else ExpandItems(f, items[..|items| - 1]) + [f.(query := QueryOfItem(items[|items| - 1]))]
  }

  function ExpandOne(f: Filter): seq<Filter> {
    if f.query.Items? then ExpandItems(f, f.query.items) else [f]
  }

  function Expand(filters: seq<Filter>): seq<Filter> {
    if filters == [] then [] else Expand(filters[..|filters| - 1]) + ExpandOne(filters[|filters| - 1])
  }

  method ExpandFilters(filters: seq<Filter>) returns (arr: seq<Filter>)
    ensures arr == Expand(filters)
  {
    arr := [];
    for i := 0 to |filters|
      invariant arr == Expand(filters[..i])
    {
      var filter := filters[i];
      assert filters[..i + 1][..i] == filters[..i];
      if filter.query.Items? {
        var items := filter.query.items;
        ghost var before := arr;
        for j := 0 to |items|
          invariant arr == before + ExpandItems(filter, items[..j])
        {
          assert items[..j + 1][..j] == items[..j];
          arr := arr + [filter.(query := QueryOfItem(items[j]))];
        }
        assert items[..|items|] == items;
      } else {
        arr := arr + [filter];
      }
    }
    assert filters[..|filters|] == filters;
  }

  // ---------- what expanding gives ----------

  lemma {:induction false} ExpandConcat(a: seq<Filter>, b: seq<Filter>)
    ensures Expand(a + b) == Expand(a) + Expand(b)
  {
    if b == [] {
      assert a + b == a;
    } else {
      var front, last := b[..|b| - 1], b[|b| - 1];
      ExpandConcat(a, front);
      Snoc(b);
      Assoc(a, front, [last]);
      Assoc(Expand(a), Expand(front), ExpandOne(last));
    }
  }

  lemma {:induction false} ExpandItemsAt(f: Filter, items: seq<Item>)
    ensures |ExpandItems(f, items)| == |items|
    ensures forall k :: 0 <= k < |items| ==>
              ExpandItems(f, items)[k] == Filter(f.topic, f.condition, QueryOfItem(items[k]))
  {
    if items != [] {
      ExpandItemsAt(f, items[..|items| - 1]);
    }
  }

  /**
    Between what the filters before and after it expand to, an array filter of strings becomes one text filter for each
    string, and a text filter stays as it is.
   */
  lemma ExpandedAt(before: seq<Filter>, f: Filter, after: seq<Filter>) returns (own: seq<Filter>)
    ensures Expand(before + [f] + after) == Expand(before) + own + Expand(after)
    ensures f.query.Scalar? ==> own == [f]
    ensures f.query.Items? ==> |own| == |f.query.items|
    ensures f.query.Items? ==> forall k, s :: 0 <= k < |own| && f.query.items[k] == One(s) ==>
              own[k] == Filter(f.topic, f.condition, Scalar(s))
  {
    own := ExpandOne(f);
    assert [f][..0] == [] && Expand([f]) == [] + own;
    ExpandConcat(before, [f]);
    ExpandConcat(before + [f], after);
    if f.query.Items? {
      ExpandItemsAt(f, f.query.items);
    }
  }

  /** No array is left of a list of plain filters. */
  lemma {:induction false} NoArraysLeft(fs: seq<Filter>)
    requires AllPlain(fs)
    ensures forall i :: 0 <= i < |Expand(fs)| ==> Expand(fs)[i].query.Scalar?
  {
    if fs != [] {
      NoArraysLeft(fs[..|fs| - 1]);
      var f := fs[|fs| - 1];
      if f.query.Items? {
        ExpandItemsAt(f, f.query.items);
      }
    }
  }

  // ---------- what it keeps ----------

  lemma {:induction false} ParamsSplit(a: seq<Filter>, b: seq<Filter>)
    ensures Params(a + b) == Params(a) + Params(b)
    decreases a
  {
    if a == [] {
      assert a + b == b;
    } else {
      var first, rest := a[0], a[1..];
      ParamsSplit(rest, b);
      Cons(a);
      Assoc([first], rest, b);
      Assoc(ParamsOf(first), Params(rest), Params(b));
    }
  }

  /** The parameters of a list of filters, read back. */
  function ReadBack(fs: seq<Filter>, days: Days): seq<Filter> {
    ParsedParams(Params(Printed(fs, days)))
  }

  lemma ReadBackSplit(a: seq<Filter>, b: seq<Filter>, days: Days)
    ensures ReadBack(a + b, days) == ReadBack(a, days) + ReadBack(b, days)
  {
    PrintedConcat(a, b, days);
    ParamsSplit(Printed(a, days), Printed(b, days));
    ParamsConcat(Params(Printed(a, days)), Params(Printed(b, days)));
  }

  lemma ReadBackOne(f: Filter, days: Days)
    ensures ReadBack([f], days) == if Kept(f, days).Some? then ParsedParams(ParamsOf(Kept(f, days).value)) else []
  {
    assert [f][1..] == [] && Printed([], days) == [];
    if Kept(f, days).Some? {
      var g := Kept(f, days).value;
      assert Printed([f], days) == [g] && [g][1..] == [];
      assert Params([g]) == ParamsOf(g) + [] == ParamsOf(g);
    }
  }

  lemma {:induction false} ExpandedItems(f: Filter, items: seq<Item>, days: Days)
    requires f.condition != Within && forall i :: 0 <= i < |items| ==> items[i].One?
    ensures ReadBack(ExpandItems(f, items), days) == ReadBack([f.(query := Items(items))], days)
  {
    var whole := f.(query := Items(items));
    ReadBackOne(whole, days);
    if items != [] {
      var n := |items| - 1;
      var front, last := f.(query := Items(items[..n])), f.(query := QueryOfItem(items[n]));
      ExpandedItems(f, items[..n], days);
      ReadBackSplit(ExpandItems(f, items[..n]), [last], days);
      ReadBackOne(front, days);
      ReadBackOne(last, days);
      TextsSnoc(f, items);
    }
  }

  lemma TextsSnoc(f: Filter, items: seq<Item>)
    requires items != [] && items[|items| - 1].One?
    ensures var n := |items| - 1;
            ParsedParams(ParamsOf(f.(query := Items(items)))) ==
            ParsedParams(ParamsOf(f.(query := Items(items[..n])))) +
            ParsedParams(ParamsOf(f.(query := QueryOfItem(items[n]))))
  {
    var n := |items| - 1;
    var whole, front, last := ParamsOf(f.(query := Items(items))), ParamsOf(f.(query := Items(items[..n]))),
        ParamsOf(f.(query := QueryOfItem(items[n])));
    assert whole == front + last;
    ParamsConcat(front, last);
  }

  /** The texts of an array are ranges of dates all of them or none of them. */
  ghost predicate EvenDates(items: seq<Item>, days: Days) {
    (forall i :: 0 <= i < |items| ==> RangeItem(items[i], days)) ||
    forall i :: 0 <= i < |items| ==> !RangeItem(items[i], days)
  }

  predicate RangeItem(item: Item, days: Days) {
    item.One? && ValidDates(FormatDates(item.s, days), days)
  }

  ghost predicate AllEven(fs: seq<Filter>, days: Days) {
    forall i :: 0 <= i < |fs| && fs[i].condition == Within && fs[i].query.Items? ==> EvenDates(fs[i].query.items, days)
  }

  /** Text by text, a range of dates is read back and anything else is dropped. */
  lemma {:induction false} ExpandedDates(f: Filter, items: seq<Item>, days: Days)
    requires f.condition == Within && forall i :: 0 <= i < |items| ==> RangeItem(items[i], days)
    ensures ReadBack(ExpandItems(f, items), days) == ReadBack([f.(query := Items(items))], days)
  {
    var whole := f.(query := Items(items));
    ReadBackOne(whole, days);
    if items != [] {
      var n := |items| - 1;
      var front, last := f.(query := Items(items[..n])), f.(query := QueryOfItem(items[n]));
      ExpandedDates(f, items[..n], days);
      ReadBackSplit(ExpandItems(f, items[..n]), [last], days);
      ReadBackOne(front, days);
      ReadBackOne(last, days);
      KeptDates(f, items, days);
      KeptDates(f, items[..n], days);
      DatesSnoc(f, items, days);
    }
  }

  lemma DatesSnoc(f: Filter, items: seq<Item>, days: Days)
    requires f.condition == Within && items != [] && items[|items| - 1].One?
    ensures var n := |items| - 1;
            ParsedParams(ParamsOf(f.(query := FormatQuery(Items(items), days)))) ==
            ParsedParams(ParamsOf(f.(query := FormatQuery(Items(items[..n]), days)))) +
            ParsedParams(ParamsOf(f.(query := FormatQuery(QueryOfItem(items[n]), days))))
  {
    var n := |items| - 1;
    var whole, front, last := ParamsOf(f.(query := FormatQuery(Items(items), days))),
        ParamsOf(f.(query := FormatQuery(Items(items[..n]), days))),
        ParamsOf(f.(query := FormatQuery(QueryOfItem(items[n]), days)));
    assert whole == front + last;
    ParamsConcat(front, last);
  }

  lemma KeptDates(f: Filter, items: seq<Item>, days: Days)
    requires f.condition == Within
    ensures Kept(f.(query := Items(items)), days).Some? <==> forall i :: 0 <= i < |items| ==> RangeItem(items[i], days)
  {
    var q := FormatQuery(Items(items), days);
    assert forall i :: 0 <= i < |items| ==> q.items[i] == FormatItem(items[i], days);
    if ValidQuery(q, days) {
      forall i | 0 <= i < |items| ensures RangeItem(items[i], days) {
        assert q.items[i].One?;
      }
    }
  }

  lemma {:induction false} ExpandedNoDates(f: Filter, items: seq<Item>, days: Days)
    requires f.condition == Within && forall i :: 0 <= i < |items| ==> items[i].One? && !RangeItem(items[i], days)
    ensures ReadBack(ExpandItems(f, items), days) == []
  {
    if items != [] {
      var n := |items| - 1;
      var last := f.(query := QueryOfItem(items[n]));
      ExpandedNoDates(f, items[..n], days);
      ReadBackSplit(ExpandItems(f, items[..n]), [last], days);
      ReadBackOne(last, days);
    }
  }

  lemma ExpandedOne(f: Filter, days: Days)
    requires Plain(f) && AllEven([f], days)
    ensures ReadBack(ExpandOne(f), days) == ReadBack([f], days)
  {
    if f.query.Items? {
      var items := f.query.items;
      assert f.(query := Items(items)) == f;
      if f.condition != Within {
        ExpandedItems(f, items, days);
      } else {
        assert [f][0] == f && EvenDates(items, days);
        if forall i :: 0 <= i < |items| ==> RangeItem(items[i], days) {
          ExpandedDates(f, items, days);
        } else {
          ExpandedNoDates(f, items, days);
          KeptDates(f, items, days);
          ReadBackOne(f, days);
        }
      }
    }
  }

  lemma {:induction false} ExpandedReadsBack(fs: seq<Filter>, days: Days)
    requires AllPlain(fs) && AllEven(fs, days)
    ensures ReadBack(Expand(fs), days) == ReadBack(fs, days)
  {
    if fs != [] {
      var n := |fs| - 1;
      var f := fs[n];
      ExpandedReadsBack(fs[..n], days);
      ExpandedOne(f, days);
      ReadBackSplit(Expand(fs[..n]), ExpandOne(f), days);
      ReadBackSplit(fs[..n], [f], days);
      Snoc(fs);
    }
  }

  lemma ItemsPlain(f: Filter, items: seq<Item>)
    requires CleanTopic(f.topic) && forall i :: 0 <= i < |items| ==> items[i].One?
    ensures AllPlain(ExpandItems(f, items))
  {
  }

  lemma {:induction false} ExpandedPlain(fs: seq<Filter>)
    requires AllPlain(fs)
    ensures AllPlain(Expand(fs))
  {
    if fs != [] {
      var f := fs[|fs| - 1];
      ExpandedPlain(fs[..|fs| - 1]);
      if f.query.Items? {
        ItemsPlain(f, f.query.items);
      }
    }
  }

  /** The query string of an expanded list parses to the same filters as that of the list itself. */
  lemma ExpansionKeepsMeaning(fs: seq<Filter>, days: Days)
    requires AllPlain(fs) && AllEven(fs, days)
    ensures Parse(Print(Expand(fs), None, days)) == Parse(Print(fs, None, days))
  {
    ExpandedReadsBack(fs, days);
    ExpandedPlain(fs);
    PrintedParses(fs, days);
    PrintedParses(Expand(fs), days);
  }

  lemma {:induction false} ItemIsRead(f: Filter, items: seq<Item>, k: nat, days: Days)
    requires k < |items| && ReadBack([f.(query := QueryOfItem(items[k]))], days) != []
    ensures ReadBack(ExpandItems(f, items), days) != []
    decreases |items|
  {
    ItemReads(f, items, days);
    if k < |items| - 1 {
      ItemIsRead(f, items[..|items| - 1], k, days);
    }
  }

  lemma ItemReads(f: Filter, items: seq<Item>, days: Days)
    requires items != []
    ensures var n := |items| - 1;
            |ReadBack(ExpandItems(f, items), days)| ==
            |ReadBack(ExpandItems(f, items[..n]), days)| + |ReadBack([f.(query := QueryOfItem(items[n]))], days)|
  {
    ReadBackSplit(ExpandItems(f, items[..|items| - 1]), [f.(query := QueryOfItem(items[|items| - 1]))], days);
  }

  lemma RangeFilterIsRead(f: Filter, days: Days)
    requires f.condition == Within && f.query.Scalar? && DayLaws(days) && ValidDates(FormatDates(f.query.s, days), days)
    ensures ReadBack([f], days) != []
  {
    var s := FormatDates(f.query.s, days);
    ReadBackOne(f, days);
    DatesAreTrimmed(s, days);
    var ps := [Param(f.topic, Within, s)];
    assert ParamsOf(f.(query := Scalar(s))) == ps && ps[1..] == [];
  }

  lemma {:induction false} MergeIsNotEmpty(m: seq<(string, Filter)>, fs: seq<Filter>)
    requires m != [] || fs != []
    ensures MergeAll(m, fs) != []
    decreases fs
  {
    if fs != [] {
      MergeIsNotEmpty(MergeOne(m, fs[0]), fs[1..]);
    }
  }

  /** Of an array of dates the expansion keeps the ranges while the array itself is dropped, unless it is even. */
  lemma EvenIsNeeded(f: Filter, days: Days)
    requires Plain(f) && f.condition == Within && f.query.Items? && DayLaws(days)
    ensures Parse(Print(Expand([f]), None, days)) == Parse(Print([f], None, days)) <==> EvenDates(f.query.items, days)
  {
    var items := f.query.items;
    if EvenDates(items, days) {
      assert AllEven([f], days);
      ExpansionKeepsMeaning([f], days);
    } else {
      assert f.(query := Items(items)) == f;
      ItemsPlain(f, items);
      assert [f][..0] == [] && Expand([f]) == [] + ExpandItems(f, items) == ExpandItems(f, items);
      PrintedParses([f], days);
      PrintedParses(Expand([f]), days);
      KeptDates(f, items, days);
      ReadBackOne(f, days);
      var k :| 0 <= k < |items| && RangeItem(items[k], days);
      RangeFilterIsRead(f.(query := Scalar(items[k].s)), days);
      ItemIsRead(f, items, k, days);
      MergeIsNotEmpty([], ReadBack(Expand([f]), days));
    }
  }
}
