/** Following a paginated collection to its end (fetchPaginatedCfCollection in tools/releaseInventory.js). */
module Pagination {
  import opened Prelude
  import opened OrderedMap

  datatype Next = NoNext | Next(href: string)

  /** A parsed response.  `included` lists its properties; a value that is not an array is None. */
  datatype Page<R> = Page(errors: bool, resources: Option<seq<R>>, included: seq<(string, Option<seq<R>>)>,
                          next: Option<Next>)

  datatype Error =
    | Repeated(path: string)
    | CollectionErrors
    | InvalidResponse
    | InvalidIncluded
    | InvalidNextPage
    | InvalidLink

  /** What one page contributes, and the path of the next page if there is one. */
  datatype Content<R> = Content(resources: seq<R>, included: seq<(string, seq<R>)>, next: Option<string>)

  /** The collaborators: the API itself, and the resolution of a link against the page it came from. */
  datatype Api<!R> = Api(fetchPage: string -> Option<Page<R>>, resolve: (string, string) -> Option<string>)

  function Arrays<R>(included: seq<(string, Option<seq<R>>)>): Option<seq<(string, seq<R>)>> {
    if included == [] then Some([])
    else
      var rest := Arrays(included[1..]);
      if included[0].1.None? || rest.None? then None else Some([(included[0].0, included[0].1.value)] + rest.value)
  }

  /** One turn of the loop on a path that has not been visited. */
  function Read<R>(api: Api<R>, path: string): Result<Content<R>, Error> {
    var page := api.fetchPage(path);
    if page.Some? && page.value.errors then Err(CollectionErrors)
    else if page.None? || page.value.resources.None? || page.value.next.None? then Err(InvalidResponse)
    else
      var included := Arrays(page.value.included);
      if included.None? then Err(InvalidIncluded)
      else
        match page.value.next.value
        case NoNext => Ok(Content(page.value.resources.value, included.value, None))
        case Next(href) =>
          if href == "" then Err(InvalidNextPage)
          else
            var next := api.resolve(href, path);
            if next.None? then Err(InvalidLink)
            else Ok(Content(page.value.resources.value, included.value, if next.value == "" then None else next))
  }

  /** The n-th path of the chain that starts at `start`; None once the chain has ended or a page could not be read. */
  function Walk<R>(api: Api<R>, start: string, n: nat): Option<string> {
    Along(api, if start == "" then None else Some(start), n)
  }

  function Along<R>(api: Api<R>, path: Option<string>, n: nat): Option<string> {
    if n == 0 then path else Follow(api, Along(api, path, n - 1))
  }

  function Follow<R>(api: Api<R>, path: Option<string>): Option<string> {
    if path.None? || Read(api, path.value).Err? then None else Read(api, path.value).value.next
  }

  function Concat<R>(api: Api<R>, paths: seq<string>): seq<R> {
    if paths == [] then []
    else
      var last := Read(api, paths[|paths| - 1]);
      Concat(api, paths[..|paths| - 1]) + if last.Ok? then last.value.resources else []
  }

  /** The values one page includes under a type. */
  function OfType<R>(included: seq<(string, seq<R>)>, kind: string): seq<R> {
    if included == [] then []
    else
      var n := |included| - 1;
      OfType(included[..n], kind) + if included[n].0 == kind then included[n].1 else []
  }

  function ConcatType<R>(api: Api<R>, paths: seq<string>, kind: string): seq<R> {
    if paths == [] then []
    else
      var last := Read(api, paths[|paths| - 1]);
      ConcatType(api, paths[..|paths| - 1], kind) + if last.Ok? then OfType(last.value.included, kind) else []
  }

  function OrEmpty<R>(values: Option<seq<R>>): seq<R> {
    if values.Some? then values.value else []
  }

  /** For every type, `r` holds what `included` held followed by what `added` lists. */
  ghost predicate Extends<R>(r: seq<(string, seq<R>)>, included: seq<(string, seq<R>)>, added: seq<(string, seq<R>)>) {
    forall kind :: OrEmpty(Get(r, kind)) == OrEmpty(Get(included, kind)) + OfType(added, kind)
  }

  lemma ExtendsStep<R>(r: seq<(string, seq<R>)>, included: seq<(string, seq<R>)>, added: seq<(string, seq<R>)>,
                       kind: string, values: seq<R>)
    requires Extends(r, included, added)
    ensures Extends(Set(r, kind, OrEmpty(Get(r, kind)) + values), included, added + [(kind, values)])
  {
    var more := added + [(kind, values)];
    assert more[..|added|] == added;
    forall k ensures OrEmpty(Get(Set(r, kind, OrEmpty(Get(r, kind)) + values), k)) ==
        OrEmpty(Get(included, k)) + OfType(more, k) {
      GetSet(r, kind, OrEmpty(Get(r, kind)) + values, k);
    }
  }

  /** `included[type] = [...(included[type] || []), ...values]` for each entry of a page. */
  method AddIncluded<R>(included: seq<(string, seq<R>)>, added: seq<(string, seq<R>)>)
    returns (r: seq<(string, seq<R>)>)
    ensures Extends(r, included, added)
  {
    r := included;
    for i := 0 to |added|
      invariant Extends(r, included, added[..i])
    {
      ExtendsStep(r, included, added[..i], added[i].0, added[i].1);
      assert added[..i + 1] == added[..i] + [(added[i].0, added[i].1)];
      r := Set(r, added[i].0, OrEmpty(Get(r, added[i].0)) + added[i].1);
    }
    assert added[..|added|] == added;
  }

  /** `pages` is closed under next links: the finite part of the API the walk can reach. */
  ghost predicate Closed<R>(api: Api<R>, pages: set<string>) {
    forall p :: p in pages && Read(api, p).Ok? && Read(api, p).value.next.Some? ==>
        Read(api, p).value.next.value in pages
  }

  ghost predicate DistinctPaths(trail: seq<string>) {
    forall i, j :: 0 <= i < j < |trail| ==> trail[i] != trail[j]
  }

  /** The first `n` paths of the chain, or all of them if it ends before. */
  function Trail<R>(api: Api<R>, start: string, n: nat): seq<string> {
    if n == 0 then []
    else
      var path := Walk(api, start, n - 1);
      if path.Some? then Trail(api, start, n - 1) + [path.value] else Trail(api, start, n - 1)
  }

  /** The chain has at least `n` pages, all different and all readable. */
  ghost predicate ReadFirst<R>(api: Api<R>, start: string, n: nat) {
    var trail := Trail(api, start, n);
    |trail| == n && DistinctPaths(trail) && forall k :: 0 <= k < n ==> Read(api, trail[k]).Ok?
  }

  type Collection<R> = (seq<R>, seq<(string, seq<R>)>)

  /**
    What the loop returns after reading `n` pages: at the end of the chain, the concatenation of what they carry; before
    it, the next page is one of them again or could not be read, and the error says which.
   */
  ghost predicate Outcome<R>(api: Api<R>, start: string, n: nat, r: Result<Collection<R>, Error>) {
    var trail, next := Trail(api, start, n), Walk(api, start, n);
    ReadFirst(api, start, n) &&
    match r
    case Ok((resources, included)) => next.None? && Gathered(api, trail, resources, included)
    case Err(e) =>
      next.Some? && if next.value in trail then e == Repeated(next.value) else Read(api, next.value) == Err(e)
  }

  /** The accumulated collections are those of the pages read. */
  ghost predicate Gathered<R>(api: Api<R>, trail: seq<string>, resources: seq<R>, included: seq<(string, seq<R>)>) {
    resources == Concat(api, trail) && forall kind :: OrEmpty(Get(included, kind)) == ConcatType(api, trail, kind)
  }

  lemma GatherPage<R>(api: Api<R>, trail: seq<string>, resources: seq<R>, included: seq<(string, seq<R>)>,
                      path: string, more: seq<(string, seq<R>)>)
    requires Gathered(api, trail, resources, included) && Read(api, path).Ok?
    requires Extends(more, included, Read(api, path).value.included)
    ensures Gathered(api, trail + [path], resources + Read(api, path).value.resources, more)
  {
  }

  lemma TrailSnoc<R>(api: Api<R>, start: string, n: nat, path: string)
    requires ReadFirst(api, start, n) && Walk(api, start, n) == Some(path)
    requires path !in Trail(api, start, n) && Read(api, path).Ok?
    ensures ReadFirst(api, start, n + 1) && Trail(api, start, n + 1) == Trail(api, start, n) + [path]
    ensures Walk(api, start, n + 1) == Read(api, path).value.next
  {
    var trail := Trail(api, start, n);
    assert Trail(api, start, n + 1) == trail + [path];
    DistinctSnoc(trail, path);
  }

  lemma DistinctSnoc(trail: seq<string>, path: string)
    requires DistinctPaths(trail) && path !in trail
    ensures DistinctPaths(trail + [path])
  {
  }

  // ---------- the result in terms of the responses ----------

  /** The response at `path` is complete and well formed, and its next link leads to `next`, if it has one. */
  ghost predicate Leads<R>(api: Api<R>, path: string, next: Option<string>) {
    match api.fetchPage(path)
    case None => false
    case Some(page) =>
      !page.errors && page.resources.Some? && (forall i :: 0 <= i < |page.included| ==> page.included[i].1.Some?) &&
      match page.next
      case None => false
      case Some(NoNext) => next == None
      case Some(Next(href)) =>
        href != "" && match api.resolve(href, path)
                      case None => false
                      case Some(link) => next == if link == "" then None else Some(link)
  }

  /** The first of these that is wrong with a response is what the loop throws. */
  ghost predicate Fails<R>(api: Api<R>, path: string, e: Error) {
    match api.fetchPage(path)
    case None => e == InvalidResponse
    case Some(page) =>
      if page.errors then e == CollectionErrors
      else if page.resources.None? || page.next.None? then e == InvalidResponse
      else if exists i :: 0 <= i < |page.included| && page.included[i].1.None? then e == InvalidIncluded
      else if page.next.value == Next("") then e == InvalidNextPage
      else page.next.value.Next? && api.resolve(page.next.value.href, path).None? && e == InvalidLink
  }

  lemma {:induction false} ArraysAre<R>(included: seq<(string, Option<seq<R>>)>)
    ensures Arrays(included).Some? <==> forall i :: 0 <= i < |included| ==> included[i].1.Some?
    ensures Arrays(included).Some? ==>
              |Arrays(included).value| == |included| &&
              forall i :: 0 <= i < |included| ==>
                included[i] == (Arrays(included).value[i].0, Some(Arrays(included).value[i].1))
  {
    if included != [] {
      ArraysAre(included[1..]);
      if forall i :: 0 <= i < |included| ==> included[i].1.Some? {
        forall i | 0 <= i < |included[1..]| ensures included[1..][i].1.Some? {
          assert included[1..][i] == included[i + 1];
        }
      }
    }
  }

  lemma ReadIs<R>(api: Api<R>, path: string)
    ensures match Read(api, path)
            case Ok(content) =>
              Leads(api, path, content.next) && content.resources == api.fetchPage(path).value.resources.value &&
              Arrays(api.fetchPage(path).value.included) == Some(content.included)
            case Err(e) => Fails(api, path, e)
  {
    if api.fetchPage(path).Some? {
      ArraysAre(api.fetchPage(path).value.included);
    }
  }

  /** From the start, every page's next link leads to the following page, and the last one's to `next`. */
  ghost predicate Chain<R>(api: Api<R>, start: string, trail: seq<string>, next: Option<string>) {
    if trail == [] then next == if start == "" then None else Some(start)
    else start != "" && trail[0] == start && Leads(api, trail[|trail| - 1], next) &&
         forall k :: 0 < k < |trail| ==> Leads(api, trail[k - 1], Some(trail[k]))
  }

  /** `all` is what the pages hold one after the other. */
  ghost predicate Holds<R>(api: Api<R>, trail: seq<string>, all: seq<R>) {
    if trail == [] then all == []
    else
      var page := api.fetchPage(trail[|trail| - 1]);
      page.Some? && page.value.resources.Some? &&
      var n := |all| - |page.value.resources.value|;
      n >= 0 && all[n..] == page.value.resources.value && Holds(api, trail[..|trail| - 1], all[..n])
  }

  /** The values one response includes under a type. */
  ghost function Under<R>(included: seq<(string, Option<seq<R>>)>, kind: string): seq<R> {
    if included == [] then []
    else
      var earlier, last := Under(included[..|included| - 1], kind), included[|included| - 1];
      if last.0 == kind && last.1.Some? then earlier + last.1.value else earlier
  }

  ghost predicate HoldsType<R>(api: Api<R>, trail: seq<string>, kind: string, all: seq<R>) {
    if trail == [] then all == []
    else
      var page := api.fetchPage(trail[|trail| - 1]);
      page.Some? &&
      var n := |all| - |Under(page.value.included, kind)|;
      n >= 0 && all[n..] == Under(page.value.included, kind) && HoldsType(api, trail[..|trail| - 1], kind, all[..n])
  }

  /**
    The result over the responses: a whole chain of different pages and what they hold, or the first page on the way
    that repeats or fails.
   */
  ghost predicate Answers<R>(api: Api<R>, start: string, trail: seq<string>, r: Result<Collection<R>, Error>) {
    DistinctPaths(trail) &&
    match r
    case Ok((resources, included)) =>
      Chain(api, start, trail, None) && Holds(api, trail, resources) &&
      forall kind :: HoldsType(api, trail, kind, OrEmpty(Get(included, kind)))
    case Err(e) =>
      exists next :: Chain(api, start, trail, Some(next)) &&
                     if next in trail then e == Repeated(next) else Fails(api, next, e)
  }

  lemma {:induction false} UnderIs<R>(included: seq<(string, Option<seq<R>>)>, arrays: seq<(string, seq<R>)>,
                                      kind: string)
    requires |arrays| == |included|
    requires forall i :: 0 <= i < |included| ==> included[i] == (arrays[i].0, Some(arrays[i].1))
    ensures Under(included, kind) == OfType(arrays, kind)
  {
    if included != [] {
      UnderIs(included[..|included| - 1], arrays[..|arrays| - 1], kind);
    }
  }

  lemma ChainSnoc<R>(api: Api<R>, start: string, trail: seq<string>, path: string, next: Option<string>)
    requires Chain(api, start, trail, Some(path)) && Leads(api, path, next)
    ensures Chain(api, start, trail + [path], next)
  {
  }

  lemma HoldsSnoc<R>(api: Api<R>, trail: seq<string>, all: seq<R>, path: string)
    requires Holds(api, trail, all) && Read(api, path).Ok?
    ensures Holds(api, trail + [path], all + Read(api, path).value.resources)
  {
    var xs := Read(api, path).value.resources;
    ReadIs(api, path);
    assert (trail + [path])[..|trail|] == trail && (all + xs)[..|all|] == all && (all + xs)[|all|..] == xs;
  }

  lemma HoldsTypeSnoc<R>(api: Api<R>, trail: seq<string>, kind: string, all: seq<R>, path: string)
    requires HoldsType(api, trail, kind, all) && Read(api, path).Ok?
    ensures HoldsType(api, trail + [path], kind, all + OfType(Read(api, path).value.included, kind))
  {
    var xs := OfType(Read(api, path).value.included, kind);
    ReadIs(api, path);
    ArraysAre(api.fetchPage(path).value.included);
    UnderIs(api.fetchPage(path).value.included, Read(api, path).value.included, kind);
    assert (trail + [path])[..|trail|] == trail && (all + xs)[..|all|] == all && (all + xs)[|all|..] == xs;
  }

  lemma {:induction false} TrailLength<R>(api: Api<R>, start: string, n: nat)
    ensures |Trail(api, start, n)| <= n
  {
    if n > 0 { TrailLength(api, start, n - 1); }
  }

  lemma ReadBefore<R>(api: Api<R>, start: string, n: nat)
    requires n > 0 && ReadFirst(api, start, n)
    ensures ReadFirst(api, start, n - 1) && Walk(api, start, n - 1).Some?
    ensures var path := Walk(api, start, n - 1).value;
            Trail(api, start, n) == Trail(api, start, n - 1) + [path] && Read(api, path).Ok? &&
            Walk(api, start, n) == Read(api, path).value.next
  {
    TrailLength(api, start, n - 1);
    var trail := Trail(api, start, n);
    assert Trail(api, start, n - 1) == trail[..n - 1];
    assert trail[n - 1] == Walk(api, start, n - 1).value;
  }

  lemma {:induction false} TrailChain<R>(api: Api<R>, start: string, n: nat)
    requires ReadFirst(api, start, n)
    ensures Chain(api, start, Trail(api, start, n), Walk(api, start, n))
  {
    if n > 0 {
      ReadBefore(api, start, n);
      TrailChain(api, start, n - 1);
      var path := Walk(api, start, n - 1).value;
      ReadIs(api, path);
      ChainSnoc(api, start, Trail(api, start, n - 1), path, Walk(api, start, n));
    }
  }

  lemma {:induction false} TrailHolds<R>(api: Api<R>, start: string, n: nat, kind: string)
    requires ReadFirst(api, start, n)
    ensures Holds(api, Trail(api, start, n), Concat(api, Trail(api, start, n)))
    ensures HoldsType(api, Trail(api, start, n), kind, ConcatType(api, Trail(api, start, n), kind))
  {
    if n > 0 {
      ReadBefore(api, start, n);
      var trail, path := Trail(api, start, n - 1), Walk(api, start, n - 1).value;
      TrailHolds(api, start, n - 1, kind);
      HoldsSnoc(api, trail, Concat(api, trail), path);
      HoldsTypeSnoc(api, trail, kind, ConcatType(api, trail, kind), path);
      assert (trail + [path])[..|trail|] == trail;
    }
  }

  lemma OutcomeAnswers<R>(api: Api<R>, start: string, n: nat, r: Result<Collection<R>, Error>)
    requires Outcome(api, start, n, r)
    ensures Answers(api, start, Trail(api, start, n), r)
  {
    TrailChain(api, start, n);
    TrailHolds(api, start, n, "");
    forall kind: string
      ensures HoldsType(api, Trail(api, start, n), kind, ConcatType(api, Trail(api, start, n), kind))
    {
      TrailHolds(api, start, n, kind);
    }
    if r.Err? {
      ReadIs(api, Walk(api, start, n).value);
    }
  }

  /** The loop ends within the number of pages, and its result is one of the outcomes. */
  method FetchPaginated<R>(apiPath: string, api: Api<R>, ghost pages: set<string>)
    returns (r: Result<Collection<R>, Error>)
    requires Closed(api, pages) && (apiPath != "" ==> apiPath in pages)
    ensures exists n: nat :: n <= |pages| && Outcome(api, apiPath, n, r)
    ensures exists trail :: |trail| <= |pages| && Answers(api, apiPath, trail, r)
  {
    var resources: seq<R> := [];
    var included: seq<(string, seq<R>)> := [];
    var visited: set<string> := {};
    var nextApiPath := if apiPath == "" then None else Some(apiPath);
    ghost var n := 0;
    while nextApiPath.Some?
      invariant ReadFirst(api, apiPath, n) && Gathered(api, Trail(api, apiPath, n), resources, included)
      invariant forall p :: p in visited <==> p in Trail(api, apiPath, n)
      invariant visited <= pages && |visited| == n
      invariant nextApiPath == Walk(api, apiPath, n) && (nextApiPath.Some? ==> nextApiPath.value in pages)
      decreases pages - visited
    {
      var path := nextApiPath.value;
      Cardinality(visited, pages);
      if path in visited {
        r := Err(Repeated(path));
        assert Outcome(api, apiPath, n, r);
        OutcomeAnswers(api, apiPath, n, r);
        return;
      }
      var page := Read(api, path);
      if page.Err? {
        r := Err(page.error);
        assert Outcome(api, apiPath, n, r);
        OutcomeAnswers(api, apiPath, n, r);
        return;
      }
      var more := AddIncluded(included, page.value.included);
      GatherPage(api, Trail(api, apiPath, n), resources, included, path, more);
      TrailSnoc(api, apiPath, n, path);
      resources := resources + page.value.resources;
      included := more;
      visited := visited + {path};
      n := n + 1;
      nextApiPath := page.value.next;
    }
    Cardinality(visited, pages);
    r := Ok((resources, included));
    assert Outcome(api, apiPath, n, r);
    OutcomeAnswers(api, apiPath, n, r);
  }

  lemma Cardinality(a: set<string>, b: set<string>)
    requires a <= b
    ensures |a| <= |b|
  {
    assert b == a + (b - a);
  }

  // ---------- cycles ----------

  lemma {:induction false} WalkStaysEnded<R>(api: Api<R>, start: string, m: nat, n: nat)
    requires m <= n && Walk(api, start, m).None?
    ensures Walk(api, start, n).None?
  {
    if m < n { WalkStaysEnded(api, start, m, n - 1); }
  }

  lemma {:induction false} AlongFrom<R>(api: Api<R>, path: Option<string>, i: nat, k: nat)
    ensures Along(api, path, i + k) == Along(api, Along(api, path, i), k)
  {
    if k > 0 { AlongFrom(api, path, i, k - 1); }
  }

  lemma WalkRepeats<R>(api: Api<R>, start: string, i: nat, j: nat, k: nat)
    requires i < j && Walk(api, start, i) == Walk(api, start, j)
    ensures Walk(api, start, i + k) == Walk(api, start, j + k)
  {
    var path := if start == "" then None else Some(start);
    AlongFrom(api, path, i, k);
    AlongFrom(api, path, j, k);
  }

  /** A chain that comes back to a page never ends, so following it cannot succeed. */
  lemma {:induction false} CycleNeverEnds<R>(api: Api<R>, start: string, i: nat, j: nat, n: nat)
    requires i < j && Walk(api, start, i) == Walk(api, start, j) && Walk(api, start, j).Some?
    ensures Walk(api, start, n).Some?
    decreases n
  {
    if n <= j {
      if Walk(api, start, n).None? { WalkStaysEnded(api, start, n, j); }
    } else {
      var k := n - j;
      WalkRepeats(api, start, i, j, k);
      CycleNeverEnds(api, start, i, j, i + k);
    }
  }

  /** Over a chain with a cycle, whatever the loop returns is the repetition error. */
  lemma CycleIsReported<R>(api: Api<R>, start: string, i: nat, j: nat, n: nat, r: Result<Collection<R>, Error>)
    requires i < j && Walk(api, start, i) == Walk(api, start, j) && Walk(api, start, j).Some?
    requires Outcome(api, start, n, r)
    ensures r.Err? && r.error.Repeated? && r.error.path in Trail(api, start, n)
  {
    CycleNeverEnds(api, start, i, j, n);
    CycleNeverEnds(api, start, i, j, n + 1);
  }

  /** Where the chain ends, nothing is reported as repeated. */
  lemma EndIsNotRepeated<R>(api: Api<R>, start: string, m: nat, n: nat, r: Result<Collection<R>, Error>)
    requires Walk(api, start, m).None? && Outcome(api, start, n, r)
    ensures !(r.Err? && r.error.Repeated?)
  {
    if Walk(api, start, n).Some? && Walk(api, start, n).value in Trail(api, start, n) {
      var i := TrailHas(api, start, n, Walk(api, start, n).value);
      CycleNeverEnds(api, start, i, n, m);
      assert false;
    }
  }

  lemma {:induction false} TrailHas<R>(api: Api<R>, start: string, n: nat, path: string) returns (i: nat)
    requires path in Trail(api, start, n)
    ensures i < n && Walk(api, start, i) == Some(path)
  {
    i := n - 1;
    if Walk(api, start, n - 1) != Some(path) {
      i := TrailHas(api, start, n - 1, path);
    }
  }

  lemma Pigeonhole(paths: seq<string>, pages: set<string>)
    requires |paths| > |pages| && forall k :: 0 <= k < |paths| ==> paths[k] in pages
    ensures !DistinctPaths(paths)
  {
    if DistinctPaths(paths) {
      DistinctCount(paths);
      Cardinality((set p | p in paths), pages);
    }
  }

  lemma {:induction false} DistinctCount(paths: seq<string>)
    requires DistinctPaths(paths)
    ensures |set p | p in paths| == |paths|
  {
    if paths != [] {
      var n := |paths| - 1;
      DistinctCount(paths[..n]);
      assert (set p | p in paths) == (set p | p in paths[..n]) + {paths[n]};
    }
  }

  lemma {:induction false} WalkInPages<R>(api: Api<R>, start: string, pages: set<string>, n: nat)
    requires Closed(api, pages) && (start != "" ==> start in pages) && Walk(api, start, n).Some?
    ensures Walk(api, start, n).value in pages
  {
    if n > 0 { WalkInPages(api, start, pages, n - 1); }
  }

  /** The other way round: an endless chain of readable pages comes back to a page within the page count. */
  lemma EndlessHasCycle<R>(api: Api<R>, start: string, pages: set<string>)
    requires Closed(api, pages) && (start != "" ==> start in pages)
    requires forall n: nat :: n <= |pages| ==> Walk(api, start, n).Some?
    ensures exists i: nat, j: nat :: i < j <= |pages| && Walk(api, start, i) == Walk(api, start, j)
  {
    var paths := seq(|pages| + 1, k requires 0 <= k <= |pages| => Walk(api, start, k).value);
    forall k | 0 <= k < |paths| ensures paths[k] in pages {
      WalkInPages(api, start, pages, k);
    }
    Pigeonhole(paths, pages);
    var i, j :| 0 <= i < j < |paths| && paths[i] == paths[j];
    assert Walk(api, start, i) == Walk(api, start, j);
  }
}
