/**
  Filters in a query string (frontend/src/utils.js): printing, parsing, and exactly which filter lists survive the trip.
  Filter ids are fresh on every parse and are not part of the model.
 */
module QueryFilters {
  import opened Prelude
  import opened Text
  import opened UriCodec
  import opened OrderedMap

  /** The keys of QUERY_CONDITIONS, in the order of that object. */
  datatype Condition =
    | Contains | NotContains | Before | After | Within | Is | IsNot
    | WhereImThe | WhereImNotThe | IsCollaborator | IsCreator | IsBoth

  /** An element of an array query: a string, or the array a comma-separated value was split into. */
  datatype Item = One(s: string) | Parts(ss: seq<string>)

  datatype Query = Scalar(s: string) | Items(items: seq<Item>)

  datatype Filter = Filter(topic: string, condition: Condition, query: Query)

  datatype ParseError = URIError

  const CONDITIONS := [Contains, NotContains, Before, After, Within, Is, IsNot,
                       WhereImThe, WhereImNotThe, IsCollaborator, IsCreator, IsBoth]

  function Name(c: Condition): string {
    match c
    case Contains => "contains"
    case NotContains => "does not contain"
    case Before => "is on or before"
    case After => "is on or after"
    case Within => "is within"
    case Is => "is"
    case IsNot => "is not"
    case WhereImThe => "where I'm the"
    case WhereImNotThe => "where I'm not the"
    case IsCollaborator => "is collaborator"
    case IsCreator => "is creator"
    case IsBoth => "is both"
  }

  function Code(c: Condition): string {
    match c
    case Contains => "ctn[]"
    case NotContains => "nctn[]"
    case Before => "bef"
    case After => "aft"
    case Within => "win"
    case Is => "in[]"
    case IsNot => "nin[]"
    case WhereImThe => "in[]"
    case WhereImNotThe => "nin[]"
    case IsCollaborator => "collaborator[]"
    case IsCreator => "creator[]"
    case IsBoth => "both[]"
  }

  // ---------- printing ----------

  /** `String(q)`: an array is joined by commas. */
  function ToString(item: Item): string {
    match item
    case One(s) => s
    case Parts(ss) => Join(ss, ',')
  }

  datatype Param = Param(topic: string, condition: Condition, value: string)

  function PrintParam(p: Param): string {
    p.topic + "." + Code(p.condition) + "=" + Encode(Trim(p.value))
  }

  function ParamsOf(f: Filter): seq<Param> {
    match f.query
    case Scalar(s) => [Param(f.topic, f.condition, s)]
    case Items(items) =>
      seq(|items|, i requires 0 <= i < |items| => Param(f.topic, f.condition, ToString(items[i])))
  }

  function PrintParams(ps: seq<Param>): (r: seq<string>)
    ensures |r| == |ps| && forall i :: 0 <= i < |ps| ==> r[i] == PrintParam(ps[i])
  {
    seq(|ps|, i requires 0 <= i < |ps| => PrintParam(ps[i]))
  }

  function Fragment(f: Filter): string {
    Join(PrintParams(ParamsOf(f)), '&')
  }

  /**
    The library's part in "is within" filters: `day` rewrites a date given in either input format as YYYY/MM/DD, `isDay`
    says whether a text is a date in that format.
   */
  datatype Days = Days(day: string -> Option<string>, isDay: string -> bool)

  /** formatDateFilterQueryValue: a date, or two dates joined by a hyphen; anything else stays as it is. */
  function FormatDates(s: string, days: Days): string {
    var dates := Split(s, '-');
    if |dates| == 1 then
      var day := days.day(s);
      if day.Some? then day.value else s
    else if |dates| == 2 then
      var start, end := days.day(dates[0]), days.day(dates[1]);
      if start.Some? && end.Some? then start.value + "-" + end.value else s
    else s
  }

  predicate ValidDates(s: string, days: Days) {
    var dates := Split(s, '-');
    |dates| == 2 && days.isDay(dates[0]) && days.isDay(dates[1])
  }

  function FormatItem(item: Item, days: Days): Item {
    match item
    case One(s) => One(FormatDates(s, days))
    case Parts(_) => item
  }

  /** formatDateFilterForQuery. */
  function FormatQuery(q: Query, days: Days): Query {
    match q
    case Scalar(s) => Scalar(FormatDates(s, days))
    case Items(items) => Items(seq(|items|, i requires 0 <= i < |items| => FormatItem(items[i], days)))
  }

  predicate ValidQuery(q: Query, days: Days) {
    match q
    case Scalar(s) => ValidDates(s, days)
    case Items(items) => forall i :: 0 <= i < |items| ==> items[i].One? && ValidDates(items[i].s, days)
  }

  /** What is left of one filter before printing. */
  function Kept(f: Filter, days: Days): Option<Filter> {
    if f.condition == Within then
      var q := FormatQuery(f.query, days);
      if ValidQuery(q, days) then Some(f.(query := q)) else None
    else if f.query == Scalar("") then None
    else Some(f)
  }

  /** The filters that are printed, with their dates formatted. */
  function Printed(filters: seq<Filter>, days: Days): seq<Filter> {
    if filters == [] then []
    else
      var kept := Kept(filters[0], days);
      if kept.Some? then [kept.value] + Printed(filters[1..], days) else Printed(filters[1..], days)
  }

  function Fragments(printed: seq<Filter>): (r: seq<string>)
    ensures |r| == |printed| && forall i :: 0 <= i < |r| ==> r[i] == Fragment(printed[i])
  {
    seq(|printed|, i requires 0 <= i < |printed| => Fragment(printed[i]))
  }

  /** `parseInt(s, 10)` yields a number: optional white space, an optional sign, then a digit. */
  predicate ParsesAsInt(s: string) {
    var t := TrimStart(s);
    var u := if t != "" && (t[0] == '+' || t[0] == '-') then t[1..] else t;
    u != "" && '0' <= u[0] <= '9'
  }

  function RegionFragment(region: Option<string>): seq<string> {
    if region.Some? && region.value != "" && ParsesAsInt(region.value) then ["region.in[]=" + region.value] else []
  }

  function Print(filters: seq<Filter>, region: Option<string>, days: Days): string {
    Join(Fragments(Printed(filters, days)) + RegionFragment(region), '&')
  }

  method FiltersToQueryString(filters: seq<Filter>, region: Option<string>, days: Days) returns (queryString: string)
    ensures queryString == Print(filters, region, days)
  {
    var queryFragments := [];
    for i := |filters| downto 0
      invariant queryFragments == Fragments(Printed(filters[i..], days))
    {
      assert filters[i..][0] == filters[i] && filters[i..][1..] == filters[i + 1..];
      var kept := Kept(filters[i], days);
      if kept.Some? {
        queryFragments := [Fragment(kept.value)] + queryFragments;
      }
    }
    assert filters[0..] == filters;
    assert queryFragments + [] == queryFragments;
    if region.Some? && region.value != "" && ParsesAsInt(region.value) {
      queryFragments := queryFragments + ["region.in[]=" + region.value];
    }
    queryString := Join(queryFragments, '&');
  }

  // ---------- parsing ----------

  function FindCondition(code: string, from: nat): Option<Condition>
    requires from <= |CONDITIONS|
    decreases |CONDITIONS| - from
  {
    if from == |CONDITIONS| then None
    else if Code(CONDITIONS[from]) == code then Some(CONDITIONS[from])
    else FindCondition(code, from + 1)
  }

  /** decodeQueryParam after decoding: a comma turns the value into an array. */
  function ItemOf(decoded: string): Item {
    if ',' in decoded then Parts(Split(decoded, ',')) else One(decoded)
  }

  function Ones(ss: seq<string>): (r: seq<Item>)
    ensures |r| == |ss| && forall i :: 0 <= i < |ss| ==> r[i] == One(ss[i])
  {
    seq(|ss|, i requires 0 <= i < |ss| => One(ss[i]))
  }

  function QueryOf(condition: Condition, item: Item): Query {
    if condition == Is || condition == IsNot then Items([item])
    else match item
      case One(s) => Scalar(s)
      case Parts(ss) => Items(Ones(ss))
  }

  /** One `key=value` part; an absent piece reaches the decoder as the text "undefined". */
  function ParseParam(q: string): Result<Option<Filter>, ParseError> {
    var pieces := Split(q, '=');
    var names := Split(pieces[0], '.');
    var decoded := Decode(if |pieces| > 1 then pieces[1] else "undefined");
    var code := Decode(if |names| > 1 then names[1] else "undefined");
    if decoded.None? || code.None? then Err(URIError)
    else
      var condition := FindCondition(code.value, 0);
      if names[0] != "" && condition.Some? && |pieces| > 1 && pieces[1] != ""
      then Ok(Some(Filter(names[0], condition.value, QueryOf(condition.value, ItemOf(decoded.value)))))
      else Ok(None)
  }

  function ParseAll(qs: seq<string>): Result<seq<Filter>, ParseError> {
    if qs == [] then Ok([])
    else
      var first := ParseParam(qs[0]);
      if first.Err? then Err(first.error)
      else
        var rest := ParseAll(qs[1..]);
        if rest.Err? then rest
        else if first.value.Some? then Ok([first.value.value] + rest.value) else rest
  }

  // ---------- merging ----------

  function KeyOf(f: Filter): string {
    match f.query
    case Scalar(s) => f.topic + ":" + Name(f.condition) + ":" + s
    case Items(_) => f.topic + ":" + Name(f.condition)
  }

  /** `query.flat()`. */
  function Flat(items: seq<Item>): seq<Item> {
    if items == [] then []
    else (match items[0] case One(_) => [items[0]] case Parts(ss) => Ones(ss)) + Flat(items[1..])
  }

  /** `[...query]`: the elements of an array, or the characters of a string. */
  function Spread(q: Query): seq<Item> {
    match q
    case Items(items) => items
    case Scalar(s) => seq(|s|, i requires 0 <= i < |s| => One([s[i]]))
  }

  /** `[...new Set(items)]`; arrays are compared by identity and therefore all kept. */
  function Dedupe(items: seq<Item>): seq<Item> {
    if items == [] then []
    else
      var last := items[|items| - 1];
      var earlier := Dedupe(items[..|items| - 1]);
      if last.One? && last in earlier then earlier else earlier + [last]
  }

  function MergeOne(m: seq<(string, Filter)>, f: Filter): seq<(string, Filter)> {
    if f.query.Scalar? then Set(m, KeyOf(f), f)
    else
      match Get(m, KeyOf(f))
      case Some(existing) =>
        Set(m, KeyOf(f), existing.(query := Items(Dedupe(Spread(existing.query) + Flat(f.query.items)))))
      case None => Set(m, KeyOf(f), f)
  }

  function MergeAll(m: seq<(string, Filter)>, fs: seq<Filter>): seq<(string, Filter)>
    decreases fs
  {
    if fs == [] then m else MergeAll(MergeOne(m, fs[0]), fs[1..])
  }

  function Parse(queryString: string): Result<seq<Filter>, ParseError> {
    match ParseAll(Split(queryString, '&'))
    case Ok(parsed) => Ok(Values(MergeAll([], parsed)))
    case Err(e) => Err(e)
  }

  method QueryStringToFilters(queryString: string) returns (r: Result<seq<Filter>, ParseError>)
    ensures r == Parse(queryString)
  {
    var queries := Split(queryString, '&');
    var all := ParseAll(queries);
    if all.Err? { return Err(all.error); }
    var parsed := all.value;
    var merged: seq<(string, Filter)> := [];
    for i := 0 to |parsed|
      invariant MergeAll(merged, parsed[i..]) == MergeAll([], parsed)
    {
      assert parsed[i..][0] == parsed[i] && parsed[i..][1..] == parsed[i + 1..];
      var filter := parsed[i];
      if filter.query.Scalar? {
        merged := Set(merged, KeyOf(filter), filter);
      } else {
        var existing := Get(merged, KeyOf(filter));
        if existing.Some? {
          var query := Dedupe(Spread(existing.value.query) + Flat(filter.query.items));
          merged := Set(merged, KeyOf(filter), existing.value.(query := Items(query)));
        } else {
          merged := Set(merged, KeyOf(filter), filter);
        }
      }
    }
    return Ok(Values(merged));
  }
}
