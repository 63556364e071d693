/**
  The filter round trip (frontend/src/utils.js): parsing a printed filter list gives the list back if and only if the
  list is canonical.
 */
module FilterRoundTrip {
  import opened Prelude
  import opened Sequences
  import opened Text
  import opened UriCodec
  import opened OrderedMap
  import opened QueryFilters

  /** A topic that printing and merging cannot confuse with their own delimiters. */
  predicate CleanTopic(t: string) {
    t != "" && forall c :: c in t ==> c !in "&=.:"
  }

  /** A filter as the filter menu builds it: clean topic, plain strings in arrays. */
  ghost predicate Plain(f: Filter) {
    CleanTopic(f.topic) && (f.query.Items? ==> forall i :: 0 <= i < |f.query.items| ==> f.query.items[i].One?)
  }

  /** A value that survives trimming, splitting at commas and dropping of empty parameters. */
  predicate CleanValue(s: string) {
    s != "" && Trim(s) == s && ',' !in s
  }

  predicate ArrayCondition(c: Condition) {
    c == Is || c == IsNot
  }

  ghost predicate CanonicalFilter(f: Filter) {
    CleanTopic(f.topic) && f.condition !in {WhereImThe, WhereImNotThe} &&
    if ArrayCondition(f.condition) then
      f.query.Items? && f.query.items != [] &&
      (forall i :: 0 <= i < |f.query.items| ==> f.query.items[i].One? && CleanValue(f.query.items[i].s)) &&
      forall i, j :: 0 <= i < j < |f.query.items| ==> f.query.items[i] != f.query.items[j]
    else
      f.query.Scalar? && CleanValue(f.query.s)
  }

  /** Same topic and condition, and for scalar filters the same value too. */
  predicate Clash(f: Filter, g: Filter) {
    f.topic == g.topic && f.condition == g.condition && (ArrayCondition(f.condition) || f.query == g.query)
  }

  ghost predicate Canonical(fs: seq<Filter>) {
    (forall i :: 0 <= i < |fs| ==> CanonicalFilter(fs[i])) &&
    forall i, j :: 0 <= i < j < |fs| ==> !Clash(fs[i], fs[j])
  }

  ghost predicate AllPlain(fs: seq<Filter>) {
    forall i :: 0 <= i < |fs| ==> Plain(fs[i])
  }

  // ---------- dates ----------

  predicate DateChar(c: char) {
    '0' <= c <= '9' || c == '/'
  }

  /** What the library's two date functions promise for YYYY/MM/DD. */
  ghost predicate DayLaws(days: Days) {
    (forall d :: days.day(d).Some? ==> days.isDay(days.day(d).value)) &&
    forall d :: days.isDay(d) ==> d != "" && days.day(d) == Some(d) && forall i :: 0 <= i < |d| ==> DateChar(d[i])
  }

  /** Two dates joined by a hyphen hold nothing that printing, trimming or merging could touch, and stay as they are. */
  lemma {:induction false} DatesAreClean(s: string, days: Days)
    requires DayLaws(days) && ValidDates(s, days)
    ensures FormatDates(s, days) == s && s != "" && forall i :: 0 <= i < |s| ==> DateChar(s[i]) || s[i] == '-'
  {
    var dates := Split(s, '-');
    JoinSplit(s, '-');
    assert dates[1..][0] == dates[1];
    assert s == dates[0] + ['-'] + dates[1];
  }

  lemma CleanIsTrimmed(s: string)
    requires forall i :: 0 <= i < |s| ==> !IsSpace(s[i])
    ensures Trim(s) == s
  {
  }

  lemma DatesAreTrimmed(s: string, days: Days)
    requires DayLaws(days) && ValidDates(s, days)
    ensures Trim(s) == s && ',' !in s && s != "" && FormatDates(s, days) == s
  {
    DatesAreClean(s, days);
    CleanIsTrimmed(s);
  }

  /** A date range is printed with both dates rewritten, or not at all. */
  lemma {:induction false} DatesFormatted(s: string, days: Days)
    requires DayLaws(days)
    ensures var dates, t := Split(s, '-'), FormatDates(s, days);
            if |dates| == 2 && days.day(dates[0]).Some? && days.day(dates[1]).Some?
            then ValidDates(t, days) && t == days.day(dates[0]).value + "-" + days.day(dates[1]).value
            else !ValidDates(t, days)
  {
    var dates := Split(s, '-');
    if |dates| == 1 && days.day(s).Some? {
      var d := days.day(s).value;
      assert '-' !in d;
      SplitFree(d, '-');
    } else if |dates| == 2 && days.day(dates[0]).Some? && days.day(dates[1]).Some? {
      var start, end := days.day(dates[0]).value, days.day(dates[1]).value;
      assert '-' !in start && '-' !in end;
      SplitAt(start, '-', end);
      SplitFree(end, '-');
      assert start + "-" + end == start + ['-'] + end;
    }
  }

  /** An "is within" filter holds one valid range of dates. */
  predicate Dated(f: Filter, days: Days) {
    f.condition == Within ==> f.query.Scalar? && ValidDates(f.query.s, days)
  }

  ghost predicate AllDated(fs: seq<Filter>, days: Days) {
    forall i :: 0 <= i < |fs| ==> Dated(fs[i], days)
  }

  lemma {:induction false} PrintedPlain(fs: seq<Filter>, days: Days)
    requires AllPlain(fs)
    ensures AllPlain(Printed(fs, days))
  {
    if fs != [] {
      PrintedPlain(fs[1..], days);
    }
  }

  lemma {:induction false} PrintedConcat(a: seq<Filter>, b: seq<Filter>, days: Days)
    ensures Printed(a + b, days) == Printed(a, days) + Printed(b, days)
    decreases a
  {
    if a == [] {
      assert a + b == b;
    } else {
      assert (a + b)[0] == a[0] && (a + b)[1..] == a[1..] + b;
      PrintedConcat(a[1..], b, days);
    }
  }

  // ---------- one parameter ----------

  predicate CodeChar(c: char) {
    'a' <= c <= 'z' || c == '[' || c == ']'
  }

  predicate NameChar(c: char) {
    'A' <= c <= 'z' || c == ' ' || c == '\''
  }

  lemma CodesAreClean(c: Condition)
    ensures forall ch :: ch in Code(c) ==> CodeChar(ch)
  {
  }

  lemma NamesAreClean(c: Condition)
    ensures forall ch :: ch in Name(c) ==> NameChar(ch)
  {
  }

  lemma NamesDiffer(c: Condition, d: Condition)
    ensures Name(c) == Name(d) <==> c == d
  {
  }

  /** What parsing makes of a condition: the aliased ones become "is" and "is not". */
  function Aliased(c: Condition): Condition {
    if c == WhereImThe then Is else if c == WhereImNotThe then IsNot else c
  }

  lemma CodesDiffer(c: Condition, d: Condition)
    ensures Code(c) == Code(d) <==> Aliased(c) == Aliased(d)
  {
  }

  lemma {:induction false} FindFrom(code: string, from: nat, k: nat)
    requires from <= k < |CONDITIONS| && Code(CONDITIONS[k]) == code
    requires forall j :: from <= j < k ==> Code(CONDITIONS[j]) != code
    ensures FindCondition(code, from) == Some(CONDITIONS[k])
    decreases k - from
  {
    if from < k { FindFrom(code, from + 1, k); }
  }

  function Position(c: Condition): (k: nat)
    ensures k < |CONDITIONS| && CONDITIONS[k] == c
    ensures forall j :: 0 <= j < k && (c != WhereImThe && c != WhereImNotThe) ==> Aliased(CONDITIONS[j]) != c
  {
    match c
    case Contains => 0
    case NotContains => 1
    case Before => 2
    case After => 3
    case Within => 4
    case Is => 5
    case IsNot => 6
    case WhereImThe => 7
    case WhereImNotThe => 8
    case IsCollaborator => 9
    case IsCreator => 10
    case IsBoth => 11
  }

  lemma FindsAliased(c: Condition)
    ensures FindCondition(Code(c), 0) == Some(Aliased(c))
  {
    var k := Position(Aliased(c));
    CodesDiffer(c, Aliased(c));
    forall j | 0 <= j < k ensures Code(CONDITIONS[j]) != Code(c) {
      CodesDiffer(CONDITIONS[j], c);
    }
    FindFrom(Code(c), 0, k);
  }

  /** What parsing makes of one printed parameter. */
  function ParsedParam(p: Param): Option<Filter> {
    var v := Trim(p.value);
    if v == "" then None
    else Some(Filter(p.topic, Aliased(p.condition), QueryOf(Aliased(p.condition), ItemOf(v))))
  }

  /** The printed parameter falls apart at its own delimiters only. */
  lemma {:induction false} ParamSplits(p: Param)
    requires CleanTopic(p.topic)
    ensures var v := Encode(Trim(p.value));
            Split(PrintParam(p), '=') == [p.topic + "." + Code(p.condition), v] &&
            Split(p.topic + "." + Code(p.condition), '.') == [p.topic, Code(p.condition)]
    ensures '&' !in PrintParam(p)
  {
    var v := Encode(Trim(p.value));
    EncodedIsSafe(Trim(p.value));
    CodesAreClean(p.condition);
    var code := Code(p.condition);
    assert '=' !in v && '&' !in v;
    assert '=' !in code && '&' !in code && '.' !in code;
    assert '=' !in p.topic && '&' !in p.topic && '.' !in p.topic;
    var left := p.topic + ['.'] + code;
    assert '=' !in left && '&' !in left;
    SplitAt(left, '=', v);
    SplitFree(v, '=');
    assert PrintParam(p) == left + ['='] + v;
    SplitAt(p.topic, '.', code);
    SplitFree(code, '.');
    assert p.topic + "." + code == left;
  }

  lemma ParamParses(p: Param)
    requires CleanTopic(p.topic)
    ensures ParseParam(PrintParam(p)) == Ok(ParsedParam(p))
    ensures '&' !in PrintParam(p)
  {
    ParamSplits(p);
    var value, code := Trim(p.value), Code(p.condition);
    EncodedIsSafe(value);
    RoundTrip(value);
    CodesAreClean(p.condition);
    assert '%' !in code;
    PlainDecodes(code);
    FindsAliased(p.condition);
    var pieces := Split(PrintParam(p), '=');
    var names := Split(pieces[0], '.');
    assert |pieces| == 2 && pieces[1] == Encode(value) && |names| == 2 && names[0] == p.topic && names[1] == code;
  }

  // ---------- the whole string ----------

  function Params(printed: seq<Filter>): seq<Param> {
    if printed == [] then [] else ParamsOf(printed[0]) + Params(printed[1..])
  }

  function ParsedParams(ps: seq<Param>): seq<Filter> {
    if ps == [] then []
    else
      var first := ParsedParam(ps[0]);
      if first.Some? then [first.value] + ParsedParams(ps[1..]) else ParsedParams(ps[1..])
  }

  lemma EmptyParses()
    ensures ParseParam("") == Ok(None)
  {
    assert Split("", '=') == [""] && Split("", '.') == [""];
    PlainDecodes("undefined");
  }

  ghost predicate CleanParams(ps: seq<Param>) {
    forall i :: 0 <= i < |ps| ==> CleanTopic(ps[i].topic)
  }

  lemma PrintParamsCons(ps: seq<Param>)
    requires ps != []
    ensures PrintParams(ps) == [PrintParam(ps[0])] + PrintParams(ps[1..])
  {
  }

  lemma ParseAllCons(first: string, tail: seq<string>)
    ensures ParseAll([first] + tail) == ParseAfter(first, tail)
  {
  }

  lemma {:induction false} ParamsParse(ps: seq<Param>, qs: seq<string>)
    requires CleanParams(ps) && ParseAll(qs).Ok?
    ensures ParseAll(PrintParams(ps) + qs) == Ok(ParsedParams(ps) + ParseAll(qs).value)
  {
    if ps == [] {
      assert PrintParams(ps) + qs == qs;
      assert [] + ParseAll(qs).value == ParseAll(qs).value;
    } else {
      var first, rest := PrintParam(ps[0]), PrintParams(ps[1..]);
      ParamsParse(ps[1..], qs);
      PrintParamsCons(ps);
      Assoc([first], rest, qs);
      ParseAllCons(first, rest + qs);
      ParamParses(ps[0]);
      var f := ParsedParam(ps[0]);
      if f.Some? {
        Assoc([f.value], ParsedParams(ps[1..]), ParseAll(qs).value);
      }
    }
  }

  /** ParseAll one parameter at a time. */
  function ParseAfter(first: string, tail: seq<string>): Result<seq<Filter>, ParseError> {
    match (ParseParam(first), ParseAll(tail))
    case (Err(e), _) => Err(e)
    case (Ok(_), Err(e)) => Err(e)
    case (Ok(Some(f)), Ok(fs)) => Ok([f] + fs)
    case (Ok(None), Ok(fs)) => Ok(fs)
  }

  lemma {:induction false} ParamsConcat(a: seq<Param>, b: seq<Param>)
    ensures ParsedParams(a + b) == ParsedParams(a) + ParsedParams(b)
    decreases a
  {
    if a == [] {
      assert a + b == b;
    } else {
      var ab, rest := a + b, ParsedParams(a[1..] + b);
      assert ab[0] == a[0] && ab[1..] == a[1..] + b;
      ParamsConcat(a[1..], b);
      var first := ParsedParam(a[0]);
      if first.Some? {
        assert ParsedParams(ab) == [first.value] + rest;
        Assoc([first.value], ParsedParams(a[1..]), ParsedParams(b));
      }
    }
  }

  /** The parts the printed string splits into: an empty array leaves an empty part behind. */
  function PartsOf(f: Filter): (r: seq<string>)
    ensures r != []
  {
    if ParamsOf(f) == [] then [""] else PrintParams(ParamsOf(f))
  }

  lemma {:induction false} FragmentSplits(f: Filter)
    requires CleanTopic(f.topic)
    ensures Fragment(f) == Join(PartsOf(f), '&')
    ensures forall i :: 0 <= i < |PartsOf(f)| ==> '&' !in PartsOf(f)[i]
  {
    forall i | 0 <= i < |PartsOf(f)| ensures '&' !in PartsOf(f)[i] {
      if ParamsOf(f) != [] {
        ParamParses(ParamsOf(f)[i]);
      }
    }
  }

  function AllParts(printed: seq<Filter>): seq<string> {
    if printed == [] then [] else PartsOf(printed[0]) + AllParts(printed[1..])
  }

  lemma {:induction false} FragmentsJoin(printed: seq<Filter>)
    requires AllPlain(printed)
    ensures Join(Fragments(printed), '&') == Join(AllParts(printed), '&')
    ensures printed == [] <==> AllParts(printed) == []
    ensures forall i :: 0 <= i < |AllParts(printed)| ==> '&' !in AllParts(printed)[i]
  {
    if printed != [] {
      var f, others := printed[0], printed[1..];
      FragmentsJoin(others);
      FragmentSplits(f);
      assert Fragments(printed) == [Fragment(f)] + Fragments(others);
      if others != [] {
        JoinConcat([Fragment(f)], Fragments(others), '&');
        JoinConcat(PartsOf(f), AllParts(others), '&');
      } else {
        assert Fragments(printed) == [Fragment(f)];
        assert PartsOf(f) + AllParts(others) == PartsOf(f);
      }
    }
  }

  lemma {:induction false} PartsParse(printed: seq<Filter>)
    requires AllPlain(printed)
    ensures ParseAll(AllParts(printed)) == Ok(ParsedParams(Params(printed)))
  {
    if printed != [] {
      PartsParse(printed[1..]);
      var ps, rest := ParamsOf(printed[0]), AllParts(printed[1..]);
      ParamsConcat(ps, Params(printed[1..]));
      if ps == [] {
        EmptyParses();
        assert AllParts(printed)[1..] == rest;
        assert Params(printed) == Params(printed[1..]);
      } else {
        ParamsParse(ps, rest);
      }
    }
  }

  /** Parsing a printed list of plain filters merges its parameters, read back one by one. */
  lemma {:induction false} PrintedParses(fs: seq<Filter>, days: Days)
    requires AllPlain(fs)
    ensures Parse(Print(fs, None, days)) == Ok(Values(MergeAll([], ParsedParams(Params(Printed(fs, days))))))
  {
    var printed := Printed(fs, days);
    PrintedPlain(fs, days);
    FragmentsJoin(printed);
    assert Fragments(printed) + [] == Fragments(printed);
    PartsParse(printed);
    if AllParts(printed) == [] {
      EmptyParses();
      assert Split("", '&') == [""] && [""][1..] == [];
      assert ParseAll([""]) == Ok([]);
    } else {
      SplitJoin(AllParts(printed), '&');
    }
  }
}
