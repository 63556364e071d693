/** What is printed and read letter by letter (frontend/src/utils.js, frontend/src/Constants.js). */
module FilterSpelling {
  import opened Prelude
  import opened Sequences
  import opened Text
  import opened UriCodec
  import opened OrderedMap
  import opened QueryFilters
  import opened FilterRoundTrip
  import opened FilterCanonical

  // ---------- printing ----------

  lemma PrintedOne(f: Filter, days: Days)
    ensures Print([f], None, days) == if Kept(f, days).Some? then Fragment(Kept(f, days).value) else ""
  {
    assert [f][1..] == [] && Printed([], days) == [];
    if Kept(f, days).Some? {
      var printed := [Kept(f, days).value];
      assert printed + [] == printed && Printed([f], days) == printed;
      assert Fragments(printed) + [] == [Fragment(printed[0])];
    } else {
      assert Fragments([]) + [] == [];
    }
  }

  /** The twelve conditions and their codes: one value is printed as topic, code and its trimmed, encoded text. */
  lemma OneValuePrints(topic: string, condition: Condition, value: string, days: Days)
    requires condition != Within
    ensures var code := match condition
                        case Contains => "ctn[]"
                        case NotContains => "nctn[]"
                        case Before => "bef"
                        case After => "aft"
                        case Is => "in[]"
                        case IsNot => "nin[]"
                        case WhereImThe => "in[]"
                        case WhereImNotThe => "nin[]"
                        case IsCollaborator => "collaborator[]"
                        case IsCreator => "creator[]"
                        case IsBoth => "both[]";
            Print([Filter(topic, condition, Items([One(value)]))], None, days) ==
                topic + "." + code + "=" + Encode(Trim(value)) &&
            Print([Filter(topic, condition, Scalar(value))], None, days) ==
                if value == "" then "" else topic + "." + code + "=" + Encode(Trim(value))
  {
    var scalar, items := Filter(topic, condition, Scalar(value)), Filter(topic, condition, Items([One(value)]));
    PrintedOne(scalar, days);
    PrintedOne(items, days);
    assert ParamsOf(items) == ParamsOf(scalar);
  }

  /** An array is printed value by value; a value that is an array itself is joined by commas. */
  lemma ArrayPrints(f: Filter, items: seq<Item>, days: Days)
    requires f.condition != Within && |items| > 1
    ensures Print([f.(query := Items(items))], None, days) ==
            var first := match items[0] case One(s) => s case Parts(ss) => Join(ss, ',');
            Print([f.(query := Items([One(first)]))], None, days) + "&" +
            Print([f.(query := Items(items[1..]))], None, days)
  {
    var first := f.(query := Items([One(ToString(items[0]))]));
    PrintedOne(f.(query := Items(items)), days);
    PrintedOne(first, days);
    PrintedOne(f.(query := Items(items[1..])), days);
    ArrayFragment(f, items);
  }

  lemma ArrayFragment(f: Filter, items: seq<Item>)
    requires |items| > 1
    ensures Fragment(f.(query := Items(items))) ==
            Fragment(f.(query := Items([One(ToString(items[0]))]))) + "&" + Fragment(f.(query := Items(items[1..])))
  {
    var first := ParamsOf(f.(query := Items([One(ToString(items[0]))])));
    var rest := ParamsOf(f.(query := Items(items[1..])));
    ParamsHead(f, items);
    PrintParamsConcat(first, rest);
    JoinConcat(PrintParams(first), PrintParams(rest), '&');
  }

  lemma ParamsHead(f: Filter, items: seq<Item>)
    requires items != []
    ensures ParamsOf(f.(query := Items(items))) ==
            ParamsOf(f.(query := Items([One(ToString(items[0]))]))) + ParamsOf(f.(query := Items(items[1..])))
    ensures ParamsOf(f.(query := Items([One(ToString(items[0]))]))) == [Param(f.topic, f.condition, ToString(items[0]))]
  {
  }

  lemma PrintParamsConcat(a: seq<Param>, b: seq<Param>)
    ensures PrintParams(a + b) == PrintParams(a) + PrintParams(b)
  {
  }

  lemma RangeFragment(topic: string, dates: string)
    requires Trim(dates) == dates
    ensures Fragment(Filter(topic, Within, Scalar(dates))) == topic + ".win=" + Encode(dates)
  {
  }

  /** A range of dates is printed as YYYY/MM/DD-YYYY/MM/DD if both are dates, and dropped otherwise. */
  lemma DatesPrint(topic: string, value: string, days: Days)
    requires DayLaws(days)
    ensures var dates := Split(value, '-');
            Print([Filter(topic, Within, Scalar(value))], None, days) ==
            if |dates| == 2 && days.day(dates[0]).Some? && days.day(dates[1]).Some?
            then topic + ".win=" + Encode(days.day(dates[0]).value + "-" + days.day(dates[1]).value) else ""
  {
    PrintedOne(Filter(topic, Within, Scalar(value)), days);
    DatesFormatted(value, days);
    if ValidDates(FormatDates(value, days), days) {
      DatesAreTrimmed(FormatDates(value, days), days);
      RangeFragment(topic, FormatDates(value, days));
    }
  }

  /** The text is no range of two dates. */
  ghost predicate NoRange(s: string, days: Days) {
    |Split(s, '-')| != 2 || exists i :: 0 <= i < |Split(s, '-')| && days.day(Split(s, '-')[i]).None?
  }

  /** One text in an array that is no range of dates drops the whole filter. */
  lemma DatesAllOrNone(topic: string, items: seq<Item>, i: nat, days: Days)
    requires DayLaws(days) && i < |items| && (items[i].One? ==> NoRange(items[i].s, days))
    ensures Print([Filter(topic, Within, Items(items))], None, days) == ""
  {
    var f := Filter(topic, Within, Items(items));
    PrintedOne(f, days);
    if items[i].One? {
      NoRangeInvalid(items[i].s, days);
    }
    ItemInvalid(f.query, i, days);
  }

  lemma NoRangeInvalid(s: string, days: Days)
    requires DayLaws(days) && NoRange(s, days)
    ensures !ValidDates(FormatDates(s, days), days)
  {
    DatesFormatted(s, days);
  }

  lemma ItemInvalid(q: Query, i: nat, days: Days)
    requires q.Items? && i < |q.items|
    requires q.items[i].One? ==> !ValidDates(FormatDates(q.items[i].s, days), days)
    ensures !ValidQuery(FormatQuery(q, days), days)
  {
    assert FormatQuery(q, days).items[i] == FormatItem(q.items[i], days);
  }

  /** An integer begins at `k`, after white space only: a sign perhaps, then a digit. */
  ghost predicate IntAt(s: string, k: nat) {
    k < |s| && AllSpace(s[..k]) &&
    (Digit(s[k]) || ((s[k] == '+' || s[k] == '-') && k + 1 < |s| && Digit(s[k + 1])))
  }

  lemma {:induction false} TrimmedFrom(s: string, k: nat)
    requires k < |s| && AllSpace(s[..k]) && !IsSpace(s[k])
    ensures TrimStart(s) == s[k..]
  {
    if k > 0 {
      assert s[..k][0] == s[0] && s[1..][..k - 1] == s[..k][1..];
      TrimmedFrom(s[1..], k - 1);
    }
  }

  lemma ParsesIffInt(s: string)
    ensures ParsesAsInt(s) <==> exists k: nat :: IntAt(s, k)
  {
    if k: nat :| IntAt(s, k) {
      TrimmedFrom(s, k);
      assert s[k..][0] == s[k];
    }
    if ParsesAsInt(s) {
      var a := StartIs(s);
      assert s[..|a|] == a && s[|a|..] == TrimStart(s);
      assert IntAt(s, |a|);
    }
  }

  /** What is printed at all is joined by ampersands, the region coming last. */
  lemma PrintConcat(a: seq<Filter>, b: seq<Filter>, region: Option<string>, days: Days)
    requires Printed(a, days) != []
    ensures Print(a + b, region, days) ==
            if Printed(b, days) == [] && (region.None? || !exists k: nat :: IntAt(region.value, k))
            then Print(a, None, days)
            else Print(a, None, days) + "&" + Print(b, region, days)
  {
    PrintedConcat(a, b, days);
    JoinedFragments(Printed(a, days), Printed(b, days), region);
    if region.Some? { ParsesIffInt(region.value); }
  }

  lemma JoinedFragments(a: seq<Filter>, b: seq<Filter>, region: Option<string>)
    requires a != []
    ensures Join(Fragments(a + b) + RegionFragment(region), '&') ==
            if b == [] && RegionFragment(region) == [] then Join(Fragments(a) + [], '&')
            else Join(Fragments(a) + [], '&') + "&" + Join(Fragments(b) + RegionFragment(region), '&')
  {
    var x, y := Fragments(a), Fragments(b) + RegionFragment(region);
    FragmentsConcat(a, b);
    Assoc(x, Fragments(b), RegionFragment(region));
    if b == [] && RegionFragment(region) == [] {
      assert a + b == a;
    } else {
      assert x + [] == x;
      JoinConcat(x, y, '&');
    }
  }

  lemma FragmentsConcat(a: seq<Filter>, b: seq<Filter>)
    ensures Fragments(a + b) == Fragments(a) + Fragments(b)
  {
  }

  /** A region is printed iff it begins with an integer, and then as it is. */
  lemma RegionPrints(region: string, days: Days)
    ensures Print([], Some(region), days) == if exists k: nat :: IntAt(region, k) then "region.in[]=" + region else ""
  {
    ParsesIffInt(region);
  }

  // ---------- reading ----------

  /**
    One part of a query string, spelled out: text that cannot be decoded is an error, an unknown condition or a missing
    topic or value drops the part, and a code that two conditions share stands for the first of them.
   */
  lemma PartReads(topic: string, code: string, value: string)
    requires '=' !in topic + code + value && '.' !in topic + code
    ensures ParseParam(topic + "." + code + "=" + value) ==
            if Decode(code).None? || Decode(value).None? then Err(URIError)
            else if topic == "" || value == "" then Ok(None)
            else
              var item := if ',' in Decode(value).value then Parts(Split(Decode(value).value, ','))
                          else One(Decode(value).value);
              var scalar := match item case One(s) => Scalar(s)
                                       case Parts(ss) => Items(seq(|ss|, i requires 0 <= i < |ss| => One(ss[i])));
              var name := Decode(code).value;
              if name == "ctn[]" then Ok(Some(Filter(topic, Contains, scalar)))
              else if name == "nctn[]" then Ok(Some(Filter(topic, NotContains, scalar)))
              else if name == "bef" then Ok(Some(Filter(topic, Before, scalar)))
              else if name == "aft" then Ok(Some(Filter(topic, After, scalar)))
              else if name == "win" then Ok(Some(Filter(topic, Within, scalar)))
              else if name == "in[]" then Ok(Some(Filter(topic, Is, Items([item]))))
              else if name == "nin[]" then Ok(Some(Filter(topic, IsNot, Items([item]))))
              else if name == "collaborator[]" then Ok(Some(Filter(topic, IsCollaborator, scalar)))
              else if name == "creator[]" then Ok(Some(Filter(topic, IsCreator, scalar)))
              else if name == "both[]" then Ok(Some(Filter(topic, IsBoth, scalar)))
              else Ok(None)
  {
    PartSplits(topic, code, value);
    PiecesRead(topic, code, value, topic + "." + code + "=" + value);
    if Decode(code).Some? {
      CodeFound(Decode(code).value);
    }
  }

  lemma PiecesRead(topic: string, code: string, value: string, part: string)
    requires Split(part, '=') == [topic + "." + code, value] && Split(topic + "." + code, '.') == [topic, code]
    ensures ParseParam(part) ==
            if Decode(code).None? || Decode(value).None? then Err(URIError)
            else
              var condition := FindCondition(Decode(code).value, 0);
              if topic == "" || value == "" || condition.None? then Ok(None)
              else Ok(Some(Filter(topic, condition.value, QueryOf(condition.value, ItemOf(Decode(value).value)))))
  {
  }

  lemma PartSplits(topic: string, code: string, value: string)
    requires '=' !in topic + code + value && '.' !in topic + code
    ensures Split(topic + "." + code + "=" + value, '=') == [topic + "." + code, value]
    ensures Split(topic + "." + code, '.') == [topic, code]
  {
    var left := topic + ['.'] + code;
    assert forall c :: c in left ==> c == '.' || c in topic + code;
    assert '=' !in left && '=' !in value && '.' !in topic && '.' !in code;
    SplitAt(left, '=', value);
    SplitFree(value, '=');
    SplitAt(topic, '.', code);
    SplitFree(code, '.');
    assert topic + "." + code == left;
  }

  lemma CodeFound(name: string)
    ensures FindCondition(name, 0) ==
            if name == "ctn[]" then Some(Contains)
            else if name == "nctn[]" then Some(NotContains)
            else if name == "bef" then Some(Before)
            else if name == "aft" then Some(After)
            else if name == "win" then Some(Within)
            else if name == "in[]" then Some(Is)
            else if name == "nin[]" then Some(IsNot)
            else if name == "collaborator[]" then Some(IsCollaborator)
            else if name == "creator[]" then Some(IsCreator)
            else if name == "both[]" then Some(IsBoth)
            else None
  {
  }

  /** A part without an equals sign is never a filter. */
  lemma BarePart(q: string)
    requires '=' !in q
    ensures ParseParam(q) in {Ok(None), Err(URIError)}
  {
    SplitFree(q, '=');
  }

  /** The whole string is an error iff one of its parts is. */
  lemma {:induction false} ErrorIffPart(parts: seq<string>)
    ensures ParseAll(parts).Err? <==> exists i :: 0 <= i < |parts| && ParseParam(parts[i]).Err?
  {
    if parts != [] {
      ErrorIffPart(parts[1..]);
      if ParseAll(parts[1..]).Err? {
        var i :| 0 <= i < |parts[1..]| && ParseParam(parts[1..][i]).Err?;
        assert parts[i + 1] == parts[1..][i];
      }
      if i :| 0 < i < |parts| && ParseParam(parts[i]).Err? {
        assert parts[1..][i - 1] == parts[i];
      }
    }
  }

  lemma ParseErrorIff(queryString: string)
    ensures Parse(queryString).Err? <==>
            exists i :: 0 <= i < |Split(queryString, '&')| && ParseParam(Split(queryString, '&')[i]).Err?
  {
    var parts := Split(queryString, '&');
    ErrorIffPart(parts);
    assert Parse(queryString).Err? <==> ParseAll(parts).Err?;
  }

  // ---------- commas ----------

  lemma MergeFirst(f: Filter)
    ensures Values(MergeAll([], [f])) == [f]
  {
    assert [f][1..] == [];
    assert MergeOne([], f) == [(KeyOf(f), f)];
  }

  /** A text filter comes back as its text, or as the pieces between its commas. */
  lemma TextReads(topic: string, condition: Condition, value: string, days: Days)
    requires CleanTopic(topic) && condition !in {Within, Is, IsNot, WhereImThe, WhereImNotThe} && Trim(value) != ""
    ensures var text, pieces := Trim(value), Split(Trim(value), ',');
            Parse(Print([Filter(topic, condition, Scalar(value))], None, days)) ==
            Ok([Filter(topic, condition,
                       if ',' in text then Items(seq(|pieces|, i requires 0 <= i < |pieces| => One(pieces[i])))
                       else Scalar(text))])
  {
    var f := Filter(topic, condition, Scalar(value));
    PrintedParses([f], days);
    MergeFirst(ParsedParam(Param(topic, condition, value)).value);
  }

  /** The texts of an array that are printed with something in them. */
  function Texts(items: seq<Item>): (r: seq<string>)
    ensures forall s :: s in r <==> s != "" && exists k :: 0 <= k < |items| && s == Trim(ToString(items[k]))
  {
    if items == [] then []
    else
      var text, rest := Trim(ToString(items[0])), Texts(items[1..]);
      assert forall k :: 0 <= k < |items[1..]| ==> items[1..][k] == items[k + 1];
      if text == "" then rest else [text] + rest
  }

  function Reads(texts: seq<string>): (r: seq<Item>)
    ensures |r| == |texts| && forall i :: 0 <= i < |r| ==> r[i] == ItemOf(texts[i])
  {
    seq(|texts|, i requires 0 <= i < |texts| => ItemOf(texts[i]))
  }

  lemma {:induction false} ArrayParams(f: Filter, items: seq<Item>)
    requires Aliased(f.condition) in {Is, IsNot}
    ensures ParsedParams(ParamsOf(f.(query := Items(items)))) ==
            Singles(f.(condition := Aliased(f.condition)), Reads(Texts(items)))
  {
    if items != [] {
      ArrayParams(f, items[1..]);
      ParamsHead(f, items);
      ReadsCons(items);
    }
  }

  lemma ReadsCons(items: seq<Item>)
    requires items != []
    ensures var text, rest := Trim(ToString(items[0])), Reads(Texts(items[1..]));
            Reads(Texts(items)) == if text == "" then rest else [ItemOf(text)] + rest
  {
  }

  /** The values of one array filter, merged one after the other. */
  function MergedMore(done: seq<Item>, more: seq<Item>): seq<Item>
    decreases more
  {
    if more == [] then done else MergedMore(Dedupe(done + Flat([more[0]])), more[1..])
  }

  lemma {:induction false} SinglesMerge(f: Filter, done: seq<Item>, more: seq<Item>)
    ensures MergeAll([(KeyOf(Single(f, One(""))), f.(query := Items(done)))], Singles(f, more)) ==
            [(KeyOf(Single(f, One(""))), f.(query := Items(MergedMore(done, more))))]
    decreases more
  {
    if more != [] {
      MergeInto(f, done, more[0]);
      SinglesMerge(f, Dedupe(done + Flat([more[0]])), more[1..]);
    }
  }

  lemma MergeInto(f: Filter, done: seq<Item>, item: Item)
    ensures MergeOne([(KeyOf(Single(f, One(""))), f.(query := Items(done)))], Single(f, item)) ==
            [(KeyOf(Single(f, One(""))), f.(query := Items(Dedupe(done + Flat([item])))))]
  {
    assert Index([(KeyOf(Single(f, One(""))), f.(query := Items(done)))], KeyOf(Single(f, item))) == 0;
  }

  lemma {:induction false} MergedMembers(done: seq<Item>, more: seq<Item>, x: Item)
    ensures x in MergedMore(done, more) <==> x in done || exists k :: 0 <= k < |more| && x in Flat([more[k]])
    decreases more
  {
    if more != [] {
      var next := Dedupe(done + Flat([more[0]]));
      DedupeMembers(done + Flat([more[0]]));
      MergedMembers(next, more[1..], x);
      if k :| 0 <= k < |more[1..]| && x in Flat([more[1..][k]]) {
        assert more[k + 1] == more[1..][k];
      }
      if k :| 0 < k < |more| && x in Flat([more[k]]) {
        assert more[1..][k - 1] == more[k];
      }
    }
  }

  lemma {:induction false} DedupeHead(items: seq<Item>)
    requires items != []
    ensures Dedupe(items) != [] && Dedupe(items)[0] == items[0]
  {
    if |items| == 1 {
      assert items[..0] == [];
    } else {
      DedupeHead(items[..|items| - 1]);
    }
  }

  lemma {:induction false} MergedHead(done: seq<Item>, more: seq<Item>)
    requires done != []
    ensures MergedMore(done, more) != [] && MergedMore(done, more)[0] == done[0]
    decreases more
  {
    if more != [] {
      DedupeHead(done + Flat([more[0]]));
      MergedHead(Dedupe(done + Flat([more[0]])), more[1..]);
    }
  }

  lemma FlatPieces(text: string, x: Item)
    ensures x in Flat([ItemOf(text)]) <==> exists p :: p in Split(text, ',') && x == One(p)
  {
    assert [ItemOf(text)][1..] == [];
    if ',' !in text {
      SplitFree(text, ',');
      assert text in [text];
    } else {
      var ss := Split(text, ',');
      assert Flat([ItemOf(text)]) == Ones(ss);
      if p :| p in ss && x == One(p) {
        var i :| 0 <= i < |ss| && ss[i] == p;
        assert Ones(ss)[i] == x;
      }
    }
  }

  /** A piece between the commas of a later text. */
  ghost predicate InLater(texts: seq<string>, x: Item) {
    exists k, p :: 0 < k < |texts| && p in Split(texts[k], ',') && x == One(p)
  }

  lemma {:induction false} ArrayParses(f: Filter, days: Days)
    requires Plain(f) && f.query.Items? && Aliased(f.condition) in {Is, IsNot}
    ensures var texts := Texts(f.query.items);
            Parse(Print([f], None, days)) ==
            if texts == [] then Ok([])
            else Ok([Filter(f.topic, Aliased(f.condition), Items(MergedMore([Reads(texts)[0]], Reads(texts)[1..])))])
  {
    var g, texts := f.(condition := Aliased(f.condition)), Texts(f.query.items);
    assert f.(query := Items(f.query.items)) == f;
    PrintedParses([f], days);
    OnlyPrinted(f, days);
    ArrayParams(f, f.query.items);
    if texts != [] {
      ReadsMerge(g, Reads(texts));
    }
  }

  lemma ReadsMerge(g: Filter, all: seq<Item>)
    requires all != []
    ensures Values(MergeAll([], Singles(g, all))) == [g.(query := Items(MergedMore([all[0]], all[1..])))]
  {
    assert Singles(g, all) == [Single(g, all[0])] + Singles(g, all[1..]);
    FirstSingle(g, all[0], Singles(g, all[1..]));
    SinglesMerge(g, [all[0]], all[1..]);
  }

  lemma OnlyPrinted(f: Filter, days: Days)
    requires f.condition != Within && f.query.Items?
    ensures ParsedParams(Params(Printed([f], days))) == ParsedParams(ParamsOf(f))
  {
    assert [f][1..] == [] && Printed([], days) == [] && Printed([f], days) == [f];
    assert Params([f]) == ParamsOf(f) + Params([]);
    assert ParamsOf(f) + [] == ParamsOf(f);
  }

  lemma FirstSingle(f: Filter, first: Item, others: seq<Filter>)
    ensures MergeAll([], [Single(f, first)] + others) ==
            MergeAll([(KeyOf(Single(f, One(""))), f.(query := Items([first])))], others)
  {
    var all := [Single(f, first)] + others;
    assert all[0] == Single(f, first) && all[1..] == others;
    assert MergeOne([], Single(f, first)) == [(KeyOf(Single(f, first)), Single(f, first))];
  }

  lemma MergedTexts(texts: seq<string>, x: Item)
    requires texts != []
    ensures x in MergedMore([Reads(texts)[0]], Reads(texts)[1..]) <==> x == Reads(texts)[0] || InLater(texts, x)
  {
    var more := Reads(texts)[1..];
    MergedMembers([Reads(texts)[0]], more, x);
    forall k | 0 <= k < |more|
      ensures x in Flat([more[k]]) <==> exists p :: p in Split(texts[k + 1], ',') && x == One(p)
    {
      FlatPieces(texts[k + 1], x);
    }
    if k, p :| 0 < k < |texts| && p in Split(texts[k], ',') && x == One(p) {
      assert x in Flat([more[k - 1]]) by { assert texts[k - 1 + 1] == texts[k]; }
    }
  }

  /**
    An array filter comes back with its first text as it is read, as an array if it holds commas, followed by every
    piece between the commas of the other texts.
   */
  lemma {:induction false} ArrayReads(f: Filter, days: Days) returns (xs: seq<Item>)
    requires Plain(f) && f.query.Items? && f.condition in {Is, IsNot, WhereImThe, WhereImNotThe}
    ensures var texts := Texts(f.query.items);
            if texts == [] then Parse(Print([f], None, days)) == Ok([])
            else
              var condition := if f.condition == Is || f.condition == WhereImThe then Is else IsNot;
              Parse(Print([f], None, days)) == Ok([Filter(f.topic, condition, Items(xs))]) && xs != [] &&
              xs[0] == (if ',' in texts[0] then Parts(Split(texts[0], ',')) else One(texts[0])) &&
              forall x :: x in xs <==> x == xs[0] || InLater(texts, x)
  {
    var texts := Texts(f.query.items);
    ArrayParses(f, days);
    xs := [];
    if texts != [] {
      xs := MergedMore([Reads(texts)[0]], Reads(texts)[1..]);
      MergedHead([Reads(texts)[0]], Reads(texts)[1..]);
      forall x ensures x in xs <==> x == xs[0] || InLater(texts, x) {
        MergedTexts(texts, x);
      }
    }
  }
}
