/** Both directions of the filter round trip (frontend/src/utils.js). */
module FilterCanonical {
  import opened Prelude
  import opened Sequences
  import opened Text
  import opened UriCodec
  import opened OrderedMap
  import opened QueryFilters
  import opened FilterRoundTrip

  // ---------- merge keys tell canonical filters apart ----------

  lemma KeyPartsOfItems(f: Filter)
    requires CanonicalFilter(f) && f.query.Items?
    ensures Split(KeyOf(f), ':') == [f.topic, Name(f.condition)]
  {
    NamesAreClean(f.condition);
    var name := Name(f.condition);
    assert ':' !in f.topic && ':' !in name;
    SplitAt(f.topic, ':', name);
    SplitFree(name, ':');
    assert KeyOf(f) == f.topic + [':'] + name;
  }

  lemma KeyPartsOfScalar(f: Filter)
    requires CanonicalFilter(f) && f.query.Scalar?
    ensures Split(KeyOf(f), ':') == [f.topic, Name(f.condition)] + Split(f.query.s, ':')
  {
    NamesAreClean(f.condition);
    var name := Name(f.condition);
    var tail := name + [':'] + f.query.s;
    assert ':' !in f.topic && ':' !in name;
    SplitAt(f.topic, ':', tail);
    SplitAt(name, ':', f.query.s);
    KeyText(f.topic, name, f.query.s);
    Assoc([f.topic], [name], Split(f.query.s, ':'));
  }

  lemma KeyText(topic: string, name: string, text: string)
    ensures topic + ":" + name + ":" + text == topic + [':'] + (name + [':'] + text)
  {
  }

  /** A key begins with the topic and the name of the condition. */
  lemma KeyParts(f: Filter)
    requires CanonicalFilter(f)
    ensures var parts := Split(KeyOf(f), ':');
            |parts| >= 2 && parts[0] == f.topic && parts[1] == Name(f.condition)
  {
    if f.query.Scalar? { KeyPartsOfScalar(f); } else { KeyPartsOfItems(f); }
  }

  lemma KeysClash(f: Filter, g: Filter)
    requires CanonicalFilter(f) && CanonicalFilter(g)
    ensures KeyOf(f) == KeyOf(g) <==> Clash(f, g)
  {
    if KeyOf(f) == KeyOf(g) {
      KeyParts(f);
      KeyParts(g);
      var parts := Split(KeyOf(f), ':');
      assert parts[0] == f.topic == g.topic && parts[1] == Name(f.condition) == Name(g.condition);
      NamesDiffer(f.condition, g.condition);
      if f.query.Scalar? {
        var n := |f.topic| + 1 + |Name(f.condition)| + 1;
        assert KeyOf(f)[n..] == f.query.s && KeyOf(g)[n..] == g.query.s;
      }
    }
  }

  // ---------- a canonical list comes back ----------

  lemma {:induction false} MergeConcat(m: seq<(string, Filter)>, a: seq<Filter>, b: seq<Filter>)
    ensures MergeAll(m, a + b) == MergeAll(MergeAll(m, a), b)
    decreases a
  {
    if a == [] {
      assert a + b == b;
    } else {
      assert (a + b)[0] == a[0] && (a + b)[1..] == a[1..] + b;
      MergeConcat(MergeOne(m, a[0]), a[1..], b);
    }
  }

  ghost predicate DistinctOnes(items: seq<Item>) {
    (forall i :: 0 <= i < |items| ==> items[i].One?) &&
    forall i, j :: 0 <= i < j < |items| ==> items[i] != items[j]
  }

  lemma DedupeDistinct(items: seq<Item>)
    requires DistinctOnes(items)
    ensures Dedupe(items) == items
  {
  }

  lemma {:induction false} IndexAtEnd(m: seq<(string, Filter)>, key: string, f: Filter)
    requires !Has(m, key)
    ensures Index(m + [(key, f)], key) == |m|
  {
    var m' := m + [(key, f)];
    assert m'[|m|].0 == key;
    assert forall j :: 0 <= j < |m| ==> m'[j] == m[j];
  }

  /** The one-element filters an array filter is printed as. */
  function Single(f: Filter, item: Item): Filter {
    f.(query := Items([item]))
  }

  function Singles(f: Filter, items: seq<Item>): seq<Filter> {
    if items == [] then [] else [Single(f, items[0])] + Singles(f, items[1..])
  }

  lemma {:induction false} ParsedItems(f: Filter, items: seq<Item>)
    requires CanonicalFilter(f) && ArrayCondition(f.condition)
    requires forall i :: 0 <= i < |items| ==> items[i].One? && CleanValue(items[i].s)
    ensures ParsedParams(ParamsOf(f.(query := Items(items)))) == Singles(f, items)
  {
    if items != [] {
      ParsedItems(f, items[1..]);
      var ps := ParamsOf(f.(query := Items(items)));
      assert ps[1..] == ParamsOf(f.(query := Items(items[1..])));
      assert ps[0] == Param(f.topic, f.condition, items[0].s);
    }
  }

  /** One more value for the array filter at the end of the map. */
  lemma {:induction false} MergeSingle(m: seq<(string, Filter)>, f: Filter, done: seq<Item>, item: Item)
    requires !Has(m, KeyOf(Single(f, One("")))) && DistinctOnes(done + [item])
    ensures MergeOne(m + [(KeyOf(Single(f, One(""))), f.(query := Items(done)))], Single(f, item)) ==
            m + [(KeyOf(Single(f, One(""))), f.(query := Items(done + [item])))]
  {
    IndexAtEnd(m, KeyOf(Single(f, One(""))), f.(query := Items(done)));
    DedupeDistinct(done + [item]);
    assert (done + [item])[|done|] == item;
    assert [item][1..] == [] && [item] + [] == [item];
    assert Flat([item]) == [item];
  }

  lemma DistinctParts(done: seq<Item>, items: seq<Item>)
    requires items != [] && DistinctOnes(done + items)
    ensures done + [items[0]] + items[1..] == done + items && DistinctOnes(done + [items[0]])
  {
    var more := done + [items[0]];
    assert forall i :: 0 <= i < |more| ==> more[i] == (done + items)[i];
  }

  lemma {:induction false} MergeSingles(m: seq<(string, Filter)>, f: Filter, done: seq<Item>, items: seq<Item>)
    requires !Has(m, KeyOf(Single(f, One("")))) && DistinctOnes(done + items)
    ensures MergeAll(m + [(KeyOf(Single(f, One(""))), f.(query := Items(done)))], Singles(f, items)) ==
            m + [(KeyOf(Single(f, One(""))), f.(query := Items(done + items)))]
    decreases items
  {
    if items == [] {
      assert done + items == done;
    } else {
      DistinctParts(done, items);
      MergeSingle(m, f, done, items[0]);
      MergeSingles(m, f, done + [items[0]], items[1..]);
    }
  }

  lemma {:induction false} MergeCanonical(m: seq<(string, Filter)>, f: Filter)
    requires CanonicalFilter(f) && !Has(m, KeyOf(f))
    ensures MergeAll(m, ParsedParams(ParamsOf(f))) == m + [(KeyOf(f), f)]
  {
    if ArrayCondition(f.condition) {
      var items := f.query.items;
      assert f == f.(query := Items(items));
      ParsedItems(f, items);
      assert [items[0]] + items[1..] == items;
      MergeSingles(m, f, [items[0]], items[1..]);
      assert Singles(f, items)[1..] == Singles(f, items[1..]);
    } else {
      var ps := ParamsOf(f);
      assert ps[1..] == [] && ps[0] == Param(f.topic, f.condition, f.query.s);
      assert ParsedParams(ps) == [f];
      assert [f][1..] == [];
    }
  }

  function Entries(fs: seq<Filter>): (r: seq<(string, Filter)>)
    ensures |r| == |fs| && forall i :: 0 <= i < |fs| ==> r[i] == (KeyOf(fs[i]), fs[i])
  {
    seq(|fs|, i requires 0 <= i < |fs| => (KeyOf(fs[i]), fs[i]))
  }

  lemma NewKey(done: seq<Filter>, f: Filter)
    requires Canonical(done + [f])
    ensures CanonicalFilter(f) && !Has(Entries(done), KeyOf(f))
  {
    var all := done + [f];
    assert all[|done|] == f;
    forall i | 0 <= i < |done| ensures Entries(done)[i].0 != KeyOf(f) {
      assert all[i] == done[i];
      KeysClash(done[i], f);
    }
  }

  lemma {:induction false} MergeCanonicalList(done: seq<Filter>, fs: seq<Filter>)
    requires Canonical(done + fs)
    ensures MergeAll(Entries(done), ParsedParams(Params(fs))) == Entries(done + fs)
    decreases fs
  {
    if fs == [] {
      assert done + fs == done;
    } else {
      var f, rest := fs[0], fs[1..];
      assert done + [f] + rest == done + fs;
      assert done + [f] == (done + fs)[..|done| + 1];
      NewKey(done, f);
      MergeCanonical(Entries(done), f);
      assert Entries(done) + [(KeyOf(f), f)] == Entries(done + [f]);
      MergeCanonicalList(done + [f], rest);
      ParamsConcat(ParamsOf(f), Params(rest));
      MergeConcat(Entries(done), ParsedParams(ParamsOf(f)), ParsedParams(Params(rest)));
    }
  }

  // ---------- only canonical lists come back ----------

  predicate CommaFreeItem(item: Item) {
    match item
    case One(s) => ',' !in s
    case Parts(ss) => forall i :: 0 <= i < |ss| ==> ',' !in ss[i]
  }

  ghost predicate CommaFree(f: Filter) {
    match f.query
    case Scalar(s) => ',' !in s
    case Items(items) => forall i :: 0 <= i < |items| ==> CommaFreeItem(items[i])
  }

  ghost predicate AllCommaFree(fs: seq<Filter>) {
    forall i :: 0 <= i < |fs| ==> CommaFree(fs[i])
  }

  lemma {:induction false} ParsedCommaFree(ps: seq<Param>)
    ensures AllCommaFree(ParsedParams(ps))
  {
    if ps != [] {
      ParsedCommaFree(ps[1..]);
      SplitPartsFree(Trim(ps[0].value), ',');
    }
  }

  ghost predicate CommaFreeItems(items: seq<Item>) {
    forall i :: 0 <= i < |items| ==> CommaFreeItem(items[i])
  }

  lemma FlatCommaFree(items: seq<Item>)
    requires CommaFreeItems(items)
    ensures CommaFreeItems(Flat(items))
  {
  }

  lemma DedupeMembers(items: seq<Item>)
    ensures forall x :: x in Dedupe(items) <==> x in items
  {
  }

  lemma DedupeIsDistinct(items: seq<Item>)
    requires forall i :: 0 <= i < |items| ==> items[i].One?
    ensures DistinctOnes(Dedupe(items))
  {
  }

  ghost predicate EntriesCommaFree(m: seq<(string, Filter)>) {
    forall i :: 0 <= i < |m| ==> CommaFree(m[i].1)
  }

  lemma {:induction false} MergeCommaFree(m: seq<(string, Filter)>, fs: seq<Filter>)
    requires EntriesCommaFree(m) && AllCommaFree(fs)
    ensures EntriesCommaFree(MergeAll(m, fs))
    decreases fs
  {
    if fs != [] {
      var f := fs[0];
      if f.query.Items? && Has(m, KeyOf(f)) {
        var all := Spread(Get(m, KeyOf(f)).value.query) + Flat(f.query.items);
        FlatCommaFree(f.query.items);
        DedupeMembers(all);
        assert forall x :: x in all ==> CommaFreeItem(x);
        assert forall i :: 0 <= i < |Dedupe(all)| ==> Dedupe(all)[i] in all;
      }
      MergeCommaFree(MergeOne(m, f), fs[1..]);
    }
  }

  lemma TrimEndSubset(s: string)
    ensures forall c :: c in TrimEnd(s) ==> c in s
  {
  }

  lemma TrimSubset(s: string)
    ensures forall c :: c in Trim(s) ==> c in s
  {
    TrimEndSubset(TrimStart(s));
    TrimStartSubset(s);
  }

  lemma TrimStartSubset(s: string)
    ensures forall c :: c in TrimStart(s) ==> c in s
  {
  }

  /** What is read back from a clean topic and a value without commas is a canonical filter. */
  lemma ParsedIsCanonical(p: Param)
    requires CleanTopic(p.topic) && ',' !in p.value
    ensures ParsedParam(p).Some? ==> CanonicalFilter(ParsedParam(p).value)
  {
    TrimSubset(p.value);
    TrimIdempotent(p.value);
  }

  ghost predicate AllCanonical(fs: seq<Filter>) {
    forall i :: 0 <= i < |fs| ==> CanonicalFilter(fs[i])
  }

  lemma {:induction false} ParsedParamsCanonical(ps: seq<Param>)
    requires forall i :: 0 <= i < |ps| ==> CleanTopic(ps[i].topic) && ',' !in ps[i].value
    ensures AllCanonical(ParsedParams(ps))
  {
    if ps != [] {
      ParsedParamsCanonical(ps[1..]);
      ParsedIsCanonical(ps[0]);
    }
  }

  lemma PlainParams(printed: seq<Filter>)
    requires AllPlain(printed) && AllCommaFree(printed)
    ensures forall p :: p in Params(printed) ==> CleanTopic(p.topic) && ',' !in p.value
  {
  }

  lemma {:induction false} PrintedCommaFree(fs: seq<Filter>, days: Days)
    requires AllPlain(fs) && AllCommaFree(fs) && DayLaws(days)
    ensures AllCommaFree(Printed(fs, days))
  {
    if fs != [] {
      PrintedCommaFree(fs[1..], days);
      KeptCommaFree(fs[0], days);
    }
  }

  lemma {:induction false} KeptCommaFree(f: Filter, days: Days)
    requires Plain(f) && CommaFree(f) && DayLaws(days)
    ensures Kept(f, days).Some? ==> CommaFree(Kept(f, days).value)
  {
    if f.condition == Within && Kept(f, days).Some? {
      match Kept(f, days).value.query
      case Scalar(s) => DatesAreTrimmed(s, days);
      case Items(items) =>
        forall i | 0 <= i < |items| ensures CommaFreeItem(items[i]) {
          DatesAreTrimmed(items[i].s, days);
        }
    }
  }

  /** The dates among the parameters are valid ranges. */
  ghost predicate DatedParams(ps: seq<Param>, days: Days) {
    forall i :: 0 <= i < |ps| && ps[i].condition == Within ==> ValidDates(ps[i].value, days)
  }

  lemma {:induction false} PrintedDated(fs: seq<Filter>, days: Days)
    ensures DatedParams(Params(Printed(fs, days)), days)
  {
    if fs != [] {
      PrintedDated(fs[1..], days);
    }
  }

  lemma {:induction false} ParsedDated(ps: seq<Param>, days: Days)
    requires DatedParams(ps, days) && DayLaws(days)
    ensures AllDated(ParsedParams(ps), days)
  {
    if ps != [] {
      ParsedDated(ps[1..], days);
      if ps[0].condition == Within {
        DatesAreTrimmed(ps[0].value, days);
      }
    }
  }

  ghost predicate EntriesDated(m: seq<(string, Filter)>, days: Days) {
    forall i :: 0 <= i < |m| ==> Dated(m[i].1, days)
  }

  lemma {:induction false} MergeKeepsDated(m: seq<(string, Filter)>, fs: seq<Filter>, days: Days)
    requires Merged(m) && AllCanonical(fs) && EntriesDated(m, days) && AllDated(fs, days)
    ensures EntriesDated(MergeAll(m, fs), days)
    decreases fs
  {
    if fs != [] {
      var k := Index(m, KeyOf(fs[0]));
      if fs[0].query.Items? && k < |m| {
        KeysClash(m[k].1, fs[0]);
      }
      MergeOneKeeps(m, fs[0]);
      MergeKeepsDated(MergeOne(m, fs[0]), fs[1..], days);
    }
  }

  /** The merged map keeps canonical filters under their own, distinct keys. */
  ghost predicate Merged(m: seq<(string, Filter)>) {
    DistinctKeys(m) && forall i :: 0 <= i < |m| ==> m[i].0 == KeyOf(m[i].1) && CanonicalFilter(m[i].1)
  }

  /** Two canonical lists of values make one. */
  lemma {:induction false} MergedItems(f: Filter, items: seq<Item>)
    requires CanonicalFilter(f) && f.query.Items?
    requires forall x :: x in items ==> x.One? && CleanValue(x.s)
    ensures CanonicalFilter(f.(query := Items(Dedupe(f.query.items + items))))
  {
    var all := f.query.items + items;
    DedupeMembers(all);
    DedupeIsDistinct(all);
    var merged := Dedupe(all);
    assert all[0] in merged;
    assert forall i :: 0 <= i < |merged| ==> merged[i] in all;
  }

  lemma {:induction false} MergeOneKeeps(m: seq<(string, Filter)>, f: Filter)
    requires Merged(m) && CanonicalFilter(f)
    ensures Merged(MergeOne(m, f))
  {
    var k := Index(m, KeyOf(f));
    if f.query.Items? && k < |m| {
      KeysClash(m[k].1, f);
      FlatOnes(f.query.items);
      assert forall x :: x in f.query.items ==> x.One? && CleanValue(x.s);
      MergedItems(m[k].1, f.query.items);
    }
  }

  lemma FlatOnes(items: seq<Item>)
    requires forall i :: 0 <= i < |items| ==> items[i].One?
    ensures Flat(items) == items
  {
  }

  lemma {:induction false} MergeKeeps(m: seq<(string, Filter)>, fs: seq<Filter>)
    requires Merged(m) && AllCanonical(fs)
    ensures Merged(MergeAll(m, fs))
    decreases fs
  {
    if fs != [] {
      MergeOneKeeps(m, fs[0]);
      MergeKeeps(MergeOne(m, fs[0]), fs[1..]);
    }
  }

  lemma MergedIsCanonical(m: seq<(string, Filter)>)
    requires Merged(m)
    ensures Canonical(Values(m))
  {
  }

  /** Without commas in its values, whatever a plain list prints is read back as a canonical list. */
  lemma {:induction false} ReadBackIsCanonical(fs: seq<Filter>, days: Days)
    requires AllPlain(fs) && AllCommaFree(fs) && DayLaws(days)
    ensures var r := Parse(Print(fs, None, days)); r.Ok? && Canonical(r.value) && AllDated(r.value, days)
  {
    var ps := Params(Printed(fs, days));
    PrintedParses(fs, days);
    PrintedPlain(fs, days);
    PrintedCommaFree(fs, days);
    PlainParams(Printed(fs, days));
    ParsedParamsCanonical(ps);
    PrintedDated(fs, days);
    ParsedDated(ps, days);
    MergeKeeps([], ParsedParams(ps));
    MergeKeepsDated([], ParsedParams(ps), days);
    MergedIsCanonical(MergeAll([], ParsedParams(ps)));
  }

  // ---------- the theorem ----------

  /** A canonical list with valid dates is printed as it is. */
  lemma {:induction false} CanonicalPrinted(fs: seq<Filter>, days: Days)
    requires Canonical(fs) && AllDated(fs, days) && DayLaws(days)
    ensures Printed(fs, days) == fs
  {
    if fs != [] {
      CanonicalPrinted(fs[1..], days);
      KeptAsIs(fs[0], days);
      Cons(fs);
    }
  }

  lemma KeptAsIs(f: Filter, days: Days)
    requires CanonicalFilter(f) && Dated(f, days) && DayLaws(days)
    ensures Kept(f, days) == Some(f)
  {
    if f.condition == Within {
      DatesAreTrimmed(f.query.s, days);
    }
  }

  lemma {:induction false} CanonicalComesBack(fs: seq<Filter>, days: Days)
    requires AllPlain(fs) && DayLaws(days) && Canonical(fs) && AllDated(fs, days)
    ensures Parse(Print(fs, None, days)) == Ok(fs)
  {
    PrintedParses(fs, days);
    CanonicalPrinted(fs, days);
    CanonicalMerges(fs);
  }

  lemma CanonicalMerges(fs: seq<Filter>)
    requires Canonical(fs)
    ensures Values(MergeAll([], ParsedParams(Params(fs)))) == fs
  {
    assert [] + fs == fs && Entries([]) == [];
    MergeCanonicalList([], fs);
    assert Values(Entries(fs)) == fs;
  }

  lemma {:induction false} ParsedHasNoCommas(fs: seq<Filter>, days: Days)
    requires AllPlain(fs) && Parse(Print(fs, None, days)).Ok?
    ensures AllCommaFree(Parse(Print(fs, None, days)).value)
  {
    PrintedParses(fs, days);
    var parsed := ParsedParams(Params(Printed(fs, days)));
    ParsedCommaFree(Params(Printed(fs, days)));
    MergeCommaFree([], parsed);
  }

  /** A plain filter list survives printing and parsing, in its order, iff it is canonical and its dates are valid. */
  lemma RoundTripIffCanonical(fs: seq<Filter>, days: Days)
    requires AllPlain(fs) && DayLaws(days)
    ensures Parse(Print(fs, None, days)) == Ok(fs) <==> Canonical(fs) && AllDated(fs, days)
  {
    if Canonical(fs) && AllDated(fs, days) {
      CanonicalComesBack(fs, days);
    }
    if Parse(Print(fs, None, days)) == Ok(fs) {
      ParsedHasNoCommas(fs, days);
      ReadBackIsCanonical(fs, days);
    }
  }

  function RegionFilter(region: string): Filter {
    Filter("region", Is, Items([One(region)]))
  }

  predicate Digits(s: string) {
    s != "" && forall i :: 0 <= i < |s| ==> '0' <= s[i] <= '9'
  }

  lemma DigitsEncode(s: string)
    requires s == "" || Digits(s)
    ensures Encode(s) == s
  {
  }

  lemma RegionFragmentIs(region: string)
    requires Digits(region)
    ensures RegionFragment(Some(region)) == [Fragment(RegionFilter(region))]
  {
    DigitsEncode(region);
    RegionParam(region);
    var ps := ParamsOf(RegionFilter(region));
    assert ps == [Param("region", Is, region)];
    assert PrintParams(ps) == ["region.in[]=" + region];
  }

  lemma RegionParam(region: string)
    requires Trim(region) == region && Encode(region) == region
    ensures PrintParam(Param("region", Is, region)) == "region.in[]=" + region
  {
    assert "region" + "." + "in[]" + "=" == "region.in[]=";
  }

  lemma {:induction false} PrintsAsFilter(fs: seq<Filter>, region: string, days: Days)
    requires Digits(region)
    ensures Print(fs + [RegionFilter(region)], None, days) == Print(fs, Some(region), days)
  {
    var all := fs + [RegionFilter(region)];
    RegionFragmentIs(region);
    PrintedConcat(fs, [RegionFilter(region)], days);
    assert Printed([RegionFilter(region)], days) == [RegionFilter(region)] + Printed([], days);
    assert Fragments(Printed(all, days)) + [] == Fragments(Printed(fs, days)) + RegionFragment(Some(region));
  }

  lemma RegionIsPlain(fs: seq<Filter>, region: string)
    requires AllPlain(fs)
    ensures AllPlain(fs + [RegionFilter(region)])
  {
    assert CleanTopic("region");
  }

  /** A numeric region prints as one more "is" filter on the topic region. */
  lemma {:induction false} RegionRoundTrip(fs: seq<Filter>, region: string, days: Days)
    requires AllPlain(fs) && Digits(region) && DayLaws(days)
    ensures Parse(Print(fs, Some(region), days)) == Ok(fs + [RegionFilter(region)]) <==>
            Canonical(fs + [RegionFilter(region)]) && AllDated(fs, days)
  {
    var all := fs + [RegionFilter(region)];
    RegionIsPlain(fs, region);
    PrintsAsFilter(fs, region, days);
    RoundTripIffCanonical(all, days);
    RegionHasNoDates(fs, region, days);
  }

  lemma RegionHasNoDates(fs: seq<Filter>, region: string, days: Days)
    ensures AllDated(fs + [RegionFilter(region)], days) <==> AllDated(fs, days)
  {
    var all := fs + [RegionFilter(region)];
    assert forall i :: 0 <= i < |fs| ==> all[i] == fs[i];
  }
}
