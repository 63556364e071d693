/** Reconciling the declared inventory with what was observed (reconcile in tools/releaseInventory.js). */
module Reconcile {
  import opened Prelude
  import opened OrderedMap

  datatype JsValue = Undefined | Null | Text(s: string) | Number(n: int)

  /** A component of either side; the last three fields are locator properties, Undefined where absent. */
  datatype Component = Component(kind: string, name: string, id: string, sha256: JsValue, locatorType: string,
                                 processInstances: JsValue, servicePlan: JsValue, value: JsValue)

  datatype Disposition = Disposition(id: string, status: string, componentClass: string, componentName: string)

  datatype Inputs = Inputs(declared: seq<Component>, observed: seq<Component>, dispositions: seq<Disposition>,
                           environment: string)

  datatype DriftField = Sha256 | ProcessInstances | ServicePlan | LocatorValue

  datatype Drift = Drift(field: DriftField, declared: JsValue, observed: JsValue)

  datatype Outcome = MismatchOutcome | MissingOutcome | UndocumentedOutcome

  datatype Entry =
    | DeclaredEntry(identity: string, id: string, name: string, observedSha256: Option<JsValue>)
    | DriftEntry(identity: string, id: string, name: string, observedSha256: Option<JsValue>, drift: seq<Drift>)
    | ObservedEntry(identity: string, name: string, kind: string)
    | SuppressedEntry(identity: string, entry: Entry, result: Outcome, dispositionId: string)

  datatype Report = Report(matched: seq<Entry>, mismatch: seq<Entry>, missing: seq<Entry>, undocumented: seq<Entry>,
                           suppressed: seq<Entry>)

  // ---------- identities ----------

  const TOKEN := "((env))"

  function SubstituteEnv(value: string, environment: string): string {
    if |value| < 7 then value
    else if value[..7] == TOKEN then environment + SubstituteEnv(value[7..], environment)
    else [value[0]] + SubstituteEnv(value[1..], environment)
  }

  /** The token occurs nowhere. */
  ghost predicate TokenFree(s: string) {
    forall i, j :: 0 <= i <= j <= |s| ==> s[i..j] != "((env))"
  }

  lemma TokenFreeTail(s: string)
    requires s != "" && TokenFree(s)
    ensures TokenFree(s[1..])
  {
    forall i, j | 0 <= i <= j <= |s[1..]| ensures s[1..][i..j] != "((env))" {
      assert s[1..][i..j] == s[i + 1..j + 1];
    }
  }

  lemma NoEarlierToken(a: string, b: string)
    requires a != "" && TokenFree(a)
    ensures (a + "((env))" + b)[..7] != "((env))"
  {
    var s := a + "((env))" + b;
    if |a| >= 7 {
      assert s[..7] == a[0..7];
    } else {
      assert s[..7][|a|] == '(' && (|a| == 1 ==> s[..7][2] == '(');
    }
  }

  /** Every token is replaced: up to the first one nothing changes, and after it the same goes on. */
  lemma {:induction false} FirstTokenReplaced(a: string, b: string, environment: string)
    requires TokenFree(a)
    ensures SubstituteEnv(a + "((env))" + b, environment) == a + environment + SubstituteEnv(b, environment)
  {
    var s := a + "((env))" + b;
    if a == "" {
      assert s[..7] == "((env))" && s[7..] == b;
    } else {
      NoEarlierToken(a, b);
      TokenFreeTail(a);
      FirstTokenReplaced(a[1..], b, environment);
      assert s[1..] == a[1..] + "((env))" + b && s[0] == a[0];
      HeadAndTail(a, environment, SubstituteEnv(b, environment));
    }
  }

  lemma HeadAndTail(a: string, b: string, c: string)
    requires a != ""
    ensures [a[0]] + (a[1..] + b + c) == a + b + c
  {
    assert a == [a[0]] + a[1..];
  }

  /** Text without the token stays. */
  lemma {:induction false} TokenFreeStays(s: string, environment: string)
    requires TokenFree(s)
    ensures SubstituteEnv(s, environment) == s
  {
    if |s| >= 7 {
      assert s[0..7] == s[..7];
      TokenFreeTail(s);
      TokenFreeStays(s[1..], environment);
      assert s == [s[0]] + s[1..];
    }
  }

  function Identity(c: Component, environment: string): string {
    c.kind + ":" + SubstituteEnv(c.name, environment)
  }

  function Ids(components: seq<Component>, environment: string): (r: seq<string>)
    ensures |r| == |components| && forall i :: 0 <= i < |r| ==> r[i] == Identity(components[i], environment)
  {
    seq(|components|, i requires 0 <= i < |components| => Identity(components[i], environment))
  }

  /** A disposition is looked up under the component name as written, with no substitution. */
  function DispositionKey(d: Disposition): string {
    d.componentClass + ":" + d.componentName
  }

  predicate Active(d: Disposition) {
    d.status == "accepted" || d.status == "deferred"
  }

  /** The component an identity stands for: the last one listed under it. */
  function Latest(components: seq<Component>, environment: string, identity: string): Option<Component> {
    if components == [] then None
    else
      var last := components[|components| - 1];
      if Identity(last, environment) == identity then Some(last)
      else Latest(components[..|components| - 1], environment, identity)
  }

  function LatestActive(dispositions: seq<Disposition>, identity: string): Option<Disposition> {
    if dispositions == [] then None
    else
      var last := dispositions[|dispositions| - 1];
      if Active(last) && DispositionKey(last) == identity then Some(last)
      else LatestActive(dispositions[..|dispositions| - 1], identity)
  }

  /** The values in order of first appearance. */
  function Unique(xs: seq<string>): (r: seq<string>)
    ensures forall x :: x in r <==> x in xs
    ensures forall i, j :: 0 <= i < j < |r| ==> r[i] != r[j]
  {
    if xs == [] then []
    else
      var earlier, last := Unique(xs[..|xs| - 1]), xs[|xs| - 1];
      assert xs == xs[..|xs| - 1] + [last];
      if last in earlier then earlier else earlier + [last]
  }

  /** `new Map(components.map((c) => [identity(c), c]))`. */
  function ByIdentity(components: seq<Component>, environment: string): seq<(string, Component)> {
    if components == [] then []
    else
      var last := components[|components| - 1];
      Set(ByIdentity(components[..|components| - 1], environment), Identity(last, environment), last)
  }

  function ActiveDispositions(dispositions: seq<Disposition>): seq<(string, Disposition)> {
    if dispositions == [] then []
    else
      var earlier, last := ActiveDispositions(dispositions[..|dispositions| - 1]), dispositions[|dispositions| - 1];
      if Active(last) then Set(earlier, DispositionKey(last), last) else earlier
  }

  /** The map holds the last component of every identity, in order of first appearance. */
  lemma {:induction false} ByIdentityIs(components: seq<Component>, environment: string)
    ensures var m := ByIdentity(components, environment);
            DistinctKeys(m) && Keys(m) == Unique(Ids(components, environment)) &&
            forall x :: Get(m, x) == Latest(components, environment, x)
  {
    if components != [] {
      var n := |components| - 1;
      var m, key := ByIdentity(components[..n], environment), Identity(components[n], environment);
      ByIdentityIs(components[..n], environment);
      SetKeepsDistinct(m, key, components[n]);
      assert Ids(components, environment)[..n] == Ids(components[..n], environment);
      forall x ensures Get(Set(m, key, components[n]), x) == Latest(components, environment, x) {
        GetSet(m, key, components[n], x);
      }
    }
  }

  lemma {:induction false} ActiveDispositionsAre(dispositions: seq<Disposition>, identity: string)
    ensures Get(ActiveDispositions(dispositions), identity) == LatestActive(dispositions, identity)
  {
    if dispositions != [] {
      var n := |dispositions| - 1;
      ActiveDispositionsAre(dispositions[..n], identity);
      GetSet(ActiveDispositions(dispositions[..n]), DispositionKey(dispositions[n]), dispositions[n], identity);
    }
  }

  // ---------- drift ----------

  predicate RepositoryScoped(c: Component) {
    c.locatorType == "repositoryFile"
  }

  function DriftFields(c: Component): seq<DriftField> {
    if RepositoryScoped(c) then [Sha256]
    else if c.kind == "process" then [ProcessInstances]
    else if c.kind == "service" then [ServicePlan]
    else if c.kind == "platformRuntime" && c.locatorType == "cloudFoundryBuildpack" then [LocatorValue]
    else []
  }

  function Field(c: Component, field: DriftField): JsValue {
    match field
    case Sha256 => c.sha256
    case ProcessInstances => c.processInstances
    case ServicePlan => c.servicePlan
    case LocatorValue => c.value
  }

  function Drifts(c: Component, o: Component, fields: seq<DriftField>): seq<Drift> {
    if fields == [] then []
    else
      var rest := Drifts(c, o, fields[1..]);
      if Field(c, fields[0]) != Field(o, fields[0])
      then [Drift(fields[0], Field(c, fields[0]), Field(o, fields[0]))] + rest else rest
  }

  function FieldDrift(c: Component, o: Component): seq<Drift> {
    Drifts(c, o, DriftFields(c))
  }

  /** What agreeing means: the one field that matters for this kind of component is equal. */
  predicate Agree(c: Component, o: Component) {
    && (RepositoryScoped(c) ==> c.sha256 == o.sha256)
    && (!RepositoryScoped(c) && c.kind == "process" ==> c.processInstances == o.processInstances)
    && (!RepositoryScoped(c) && c.kind == "service" ==> c.servicePlan == o.servicePlan)
    && (c.kind == "platformRuntime" && c.locatorType == "cloudFoundryBuildpack" ==> c.value == o.value)
  }

  lemma DriftIffDisagree(c: Component, o: Component)
    ensures FieldDrift(c, o) == [] <==> Agree(c, o)
    ensures forall k :: 0 <= k < |FieldDrift(c, o)| ==>
              var d := FieldDrift(c, o)[k];
              d.declared == Field(c, d.field) != Field(o, d.field) == d.observed
  {
    var fields := DriftFields(c);
    if fields != [] {
      var f := fields[0];
      assert fields == [f] && fields[1..] == [] && Drifts(c, o, []) == [];
      assert FieldDrift(c, o) == if Field(c, f) != Field(o, f) then [Drift(f, Field(c, f), Field(o, f))] + [] else [];
    }
  }

  // ---------- the five lists ----------

  datatype Place = Matched | Mismatch | Missing | Undocumented | Suppressed(outcome: Outcome)

  datatype Case = Case(declared: Option<Component>, observed: Option<Component>, disposition: Option<Disposition>)

  function CaseOf(inp: Inputs, identity: string): Case {
    Case(Latest(inp.declared, inp.environment, identity), Latest(inp.observed, inp.environment, identity),
         LatestActive(inp.dispositions, identity))
  }

  predicate Known(inp: Inputs, identity: string) {
    identity in Ids(inp.declared, inp.environment) || identity in Ids(inp.observed, inp.environment)
  }

  function PlaceOf(c: Case): Place {
    if c.declared.Some? && c.observed.Some? && Agree(c.declared.value, c.observed.value) then Matched
    else
      var outcome := if c.declared.None? then UndocumentedOutcome
                     else if c.observed.None? then MissingOutcome else MismatchOutcome;
      if c.disposition.Some? then Suppressed(outcome)
      else match outcome
           case MismatchOutcome => Mismatch
           case MissingOutcome => Missing
           case UndocumentedOutcome => Undocumented
  }

  predicate Truthy(v: JsValue) {
    (v.Text? && v.s != "") || (v.Number? && v.n != 0)
  }

  function ObservedSha(o: Option<Component>): Option<JsValue> {
    if o.Some? && Truthy(o.value.sha256) then Some(o.value.sha256) else None
  }

  /** What is reported about an identity that no disposition covers. */
  function PlainEntry(identity: string, c: Case, environment: string): Entry
    requires c.declared.Some? || c.observed.Some?
  {
    match (c.declared, c.observed)
    case (Some(d), None) => DeclaredEntry(identity, d.id, SubstituteEnv(d.name, environment), None)
    case (Some(d), Some(o)) =>
      if Agree(d, o) then DeclaredEntry(identity, d.id, SubstituteEnv(d.name, environment), ObservedSha(c.observed))
      else DriftEntry(identity, d.id, SubstituteEnv(d.name, environment), ObservedSha(c.observed), FieldDrift(d, o))
    case (None, Some(o)) => ObservedEntry(identity, o.name, o.kind)
  }

  /** What is reported about an identity, whichever list it lands on. */
  function EntryOf(identity: string, c: Case, environment: string): Entry
    requires c.declared.Some? || c.observed.Some?
  {
    var plain := PlainEntry(identity, c, environment);
    match PlaceOf(c)
    case Suppressed(outcome) => SuppressedEntry(identity, plain, outcome, c.disposition.value.id)
    case _ => plain
  }

  predicate AllKnown(inp: Inputs, order: seq<string>) {
    forall x :: x in order ==> Known(inp, x)
  }

  lemma LatestKnown(components: seq<Component>, environment: string, identity: string)
    ensures Latest(components, environment, identity).Some? <==> identity in Ids(components, environment)
  {
  }

  lemma KnownCase(inp: Inputs, identity: string)
    ensures Known(inp, identity) <==> CaseOf(inp, identity).declared.Some? || CaseOf(inp, identity).observed.Some?
  {
    LatestKnown(inp.declared, inp.environment, identity);
    LatestKnown(inp.observed, inp.environment, identity);
  }

  predicate OnList(place: Place, list: Place) {
    place == list || (place.Suppressed? && list.Suppressed?)
  }

  /** The entries of the identities that belong on one list, in order. */
  function Listed(inp: Inputs, order: seq<string>, list: Place): seq<Entry>
    requires AllKnown(inp, order)
  {
    if order == [] then []
    else
      var n := |order| - 1;
      assert order[n] in order;
      KnownCase(inp, order[n]);
      var earlier, c := Listed(inp, order[..n], list), CaseOf(inp, order[n]);
      if OnList(PlaceOf(c), list) then earlier + [EntryOf(order[n], c, inp.environment)] else earlier
  }

  lemma ListedNext(inp: Inputs, order: seq<string>, list: Place)
    requires AllKnown(inp, order) && order != []
    ensures var n := |order| - 1;
            var c := CaseOf(inp, order[n]);
            AllKnown(inp, order[..n]) && Known(inp, order[n]) && (c.declared.Some? || c.observed.Some?) &&
            Listed(inp, order, list) ==
            Listed(inp, order[..n], list) + if OnList(PlaceOf(c), list) then [EntryOf(order[n], c, inp.environment)]
                                            else []
  {
    assert order[|order| - 1] in order;
    KnownCase(inp, order[|order| - 1]);
  }

  ghost predicate Reports(inp: Inputs, order: seq<string>, r: Report)
    requires AllKnown(inp, order)
  {
    && r.matched == Listed(inp, order, Matched)
    && r.mismatch == Listed(inp, order, Mismatch)
    && r.missing == Listed(inp, order, Missing)
    && r.undocumented == Listed(inp, order, Undocumented)
    && r.suppressed == Listed(inp, order, Suppressed(MissingOutcome))
  }

  function Put(r: Report, place: Place, entry: Entry): Report {
    match place
    case Matched => r.(matched := r.matched + [entry])
    case Mismatch => r.(mismatch := r.mismatch + [entry])
    case Missing => r.(missing := r.missing + [entry])
    case Undocumented => r.(undocumented := r.undocumented + [entry])
    case Suppressed(_) => r.(suppressed := r.suppressed + [entry])
  }

  lemma ReportNext(inp: Inputs, order: seq<string>, r: Report, x: string, c: Case, r': Report)
    requires AllKnown(inp, order) && Reports(inp, order, r)
    requires c == CaseOf(inp, x) && (c.declared.Some? || c.observed.Some?)
    requires r' == Put(r, PlaceOf(c), EntryOf(x, c, inp.environment))
    ensures AllKnown(inp, order + [x]) && Reports(inp, order + [x], r')
  {
    KnownCase(inp, x);
    assert (order + [x])[..|order|] == order;
  }

  /** What the three maps say about a declared identity. */
  lemma DeclaredCase(inp: Inputs, i: nat)
    requires i < |ByIdentity(inp.declared, inp.environment)|
    ensures var (x, component) := ByIdentity(inp.declared, inp.environment)[i];
            CaseOf(inp, x) == Case(Some(component), Get(ByIdentity(inp.observed, inp.environment), x),
                                   Get(ActiveDispositions(inp.dispositions), x))
  {
    var m := ByIdentity(inp.declared, inp.environment);
    ByIdentityIs(inp.declared, inp.environment);
    ByIdentityIs(inp.observed, inp.environment);
    IndexOfEntry(m, i);
    ActiveDispositionsAre(inp.dispositions, m[i].0);
  }

  lemma ObservedCase(inp: Inputs, i: nat)
    requires i < |ByIdentity(inp.observed, inp.environment)|
    ensures var (x, observation) := ByIdentity(inp.observed, inp.environment)[i];
            CaseOf(inp, x) == Case(Get(ByIdentity(inp.declared, inp.environment), x), Some(observation),
                                   Get(ActiveDispositions(inp.dispositions), x))
  {
    var m := ByIdentity(inp.observed, inp.environment);
    ByIdentityIs(inp.declared, inp.environment);
    ByIdentityIs(inp.observed, inp.environment);
    IndexOfEntry(m, i);
    ActiveDispositionsAre(inp.dispositions, m[i].0);
  }

  ghost predicate Distinct(xs: seq<string>) {
    forall i, j :: 0 <= i < j < |xs| ==> xs[i] != xs[j]
  }

  /** `a` followed by what `b` adds to it. */
  function Joined(a: seq<string>, b: seq<string>): seq<string> {
    if b == [] then a
    else
      var earlier, last := Joined(a, b[..|b| - 1]), b[|b| - 1];
      if last in a then earlier else earlier + [last]
  }

  /** The identities in the order of the report: the declared ones, then those observed only. */
  function Order(inp: Inputs): seq<string> {
    Joined(Unique(Ids(inp.declared, inp.environment)), Unique(Ids(inp.observed, inp.environment)))
  }

  lemma {:induction false} JoinedIs(a: seq<string>, b: seq<string>)
    requires Distinct(a) && Distinct(b)
    ensures Distinct(Joined(a, b)) && forall x :: x in Joined(a, b) <==> x in a || x in b
  {
    if b != [] {
      var n := |b| - 1;
      JoinedIs(a, b[..n]);
      assert b == b[..n] + [b[n]];
    }
  }

  lemma OrderIs(inp: Inputs)
    ensures Distinct(Order(inp)) && forall x :: x in Order(inp) <==> Known(inp, x)
  {
    JoinedIs(Unique(Ids(inp.declared, inp.environment)), Unique(Ids(inp.observed, inp.environment)));
  }

  /** The five lists that the identities make up, in order. */
  ghost predicate IsReport(inp: Inputs, r: Report) {
    AllKnown(inp, Order(inp)) && Reports(inp, Order(inp), r)
  }

  /** The first callback: where a declared component goes. */
  method CompareComponent(identity: string, c: Case, environment: string, r: Report) returns (r': Report)
    requires c.declared.Some?
    ensures r' == Put(r, PlaceOf(c), EntryOf(identity, c, environment))
  {
    var component, observation, disposition := c.declared.value, c.observed, c.disposition;
    var entry := DeclaredEntry(identity, component.id, SubstituteEnv(component.name, environment),
                               ObservedSha(observation));
    if observation.Some? {
      var drift := FieldDrift(component, observation.value);
      DriftIffDisagree(component, observation.value);
      if drift == [] {
        return r.(matched := r.matched + [entry]);
      }
      var mismatchEntry := DriftEntry(identity, entry.id, entry.name, entry.observedSha256, drift);
      if disposition.Some? {
        var hidden := SuppressedEntry(identity, mismatchEntry, MismatchOutcome, disposition.value.id);
        return r.(suppressed := r.suppressed + [hidden]);
      }
      return r.(mismatch := r.mismatch + [mismatchEntry]);
    }
    if disposition.Some? {
      return r.(suppressed := r.suppressed + [SuppressedEntry(identity, entry, MissingOutcome, disposition.value.id)]);
    }
    return r.(missing := r.missing + [entry]);
  }

  /** The second callback: where a component goes that was observed only. */
  method AddObserved(identity: string, c: Case, environment: string, r: Report) returns (r': Report)
    requires c.declared.None? && c.observed.Some?
    ensures r' == Put(r, PlaceOf(c), EntryOf(identity, c, environment))
  {
    var observation := c.observed.value;
    var entry := ObservedEntry(identity, observation.name, observation.kind);
    if c.disposition.Some? {
      return r.(suppressed := r.suppressed +
                [SuppressedEntry(identity, entry, UndocumentedOutcome, c.disposition.value.id)]);
    }
    return r.(undocumented := r.undocumented + [entry]);
  }

  lemma KeysNext<V>(m: seq<(string, V)>, i: nat)
    requires i < |m|
    ensures Keys(m)[..i + 1] == Keys(m)[..i] + [m[i].0]
  {
  }

  /** The first loop: what was declared. */
  method CompareDeclared(inp: Inputs) returns (r: Report)
    ensures var order := Keys(ByIdentity(inp.declared, inp.environment));
            AllKnown(inp, order) && Reports(inp, order, r)
  {
    var dispositioned := ActiveDispositions(inp.dispositions);
    var declared := ByIdentity(inp.declared, inp.environment);
    var observed := ByIdentity(inp.observed, inp.environment);
    r := Report([], [], [], [], []);
    ghost var order := [];
    for i := 0 to |declared|
      invariant order == Keys(declared)[..i] && AllKnown(inp, order) && Reports(inp, order, r)
    {
      var (identity, component) := declared[i];
      DeclaredCase(inp, i);
      var c := Case(Some(component), Get(observed, identity), Get(dispositioned, identity));
      var next := CompareComponent(identity, c, inp.environment, r);
      ReportNext(inp, order, r, identity, c, next);
      KeysNext(declared, i);
      r, order := next, order + [identity];
    }
    assert Keys(declared)[..|declared|] == Keys(declared);
  }

  /** Both loops: the observed identities that were not declared come after the declared ones. */
  method Reconcile(inp: Inputs) returns (r: Report)
    ensures IsReport(inp, r)
  {
    var dispositioned := ActiveDispositions(inp.dispositions);
    var declared := ByIdentity(inp.declared, inp.environment);
    var observed := ByIdentity(inp.observed, inp.environment);
    r := CompareDeclared(inp);
    ghost var order := Keys(declared);
    assert order == Joined(Keys(declared), Keys(observed)[..0]);
    for i := 0 to |observed|
      invariant order == Joined(Keys(declared), Keys(observed)[..i]) && AllKnown(inp, order) && Reports(inp, order, r)
    {
      var (identity, observation) := observed[i];
      JoinedNext(Keys(declared), Keys(observed), i);
      HasIffKey(declared, identity);
      if !Has(declared, identity) {
        ObservedCase(inp, i);
        var c := Case(None, Some(observation), Get(dispositioned, identity));
        var next := AddObserved(identity, c, inp.environment, r);
        ReportNext(inp, order, r, identity, c, next);
        r, order := next, order + [identity];
      }
    }
    assert Keys(observed)[..|observed|] == Keys(observed);
    KeysJoined(inp);
  }

  lemma KeysJoined(inp: Inputs)
    ensures Joined(Keys(ByIdentity(inp.declared, inp.environment)), Keys(ByIdentity(inp.observed, inp.environment))) ==
            Order(inp)
  {
    ByIdentityIs(inp.declared, inp.environment);
    ByIdentityIs(inp.observed, inp.environment);
  }

  lemma JoinedNext(a: seq<string>, b: seq<string>, i: nat)
    requires i < |b|
    ensures Joined(a, b[..i + 1]) == if b[i] in a then Joined(a, b[..i]) else Joined(a, b[..i]) + [b[i]]
  {
    assert b[..i + 1][..i] == b[..i];
  }

  lemma HasIffKey<V>(m: seq<(string, V)>, key: string)
    ensures Has(m, key) <==> key in Keys(m)
    ensures Has(m, key) <==> Get(m, key).Some?
  {
  }

  // ---------- the lists partition the identities ----------

  function Times(entries: seq<Entry>, identity: string): nat {
    if entries == [] then 0
    else Times(entries[..|entries| - 1], identity) + if entries[|entries| - 1].identity == identity then 1 else 0
  }

  /** A list names an identity of its own kind as often as the order does, and no other. */
  lemma {:induction false} ListedTimes(inp: Inputs, order: seq<string>, list: Place, x: string)
    requires AllKnown(inp, order)
    ensures Times(Listed(inp, order, list), x) ==
            if OnList(PlaceOf(CaseOf(inp, x)), list) then multiset(order)[x] else 0
  {
    if order != [] {
      var n := |order| - 1;
      ListedNext(inp, order, list);
      assert order == order[..n] + [order[n]];
      ListedTimes(inp, order[..n], list, x);
      var c := CaseOf(inp, order[n]);
    }
  }

  /** A list keeps the order of the identities. */
  lemma {:induction false} ListedInOrder(inp: Inputs, a: seq<string>, b: seq<string>, list: Place)
    requires AllKnown(inp, a) && AllKnown(inp, b) && AllKnown(inp, a + b)
    ensures Listed(inp, a + b, list) == Listed(inp, a, list) + Listed(inp, b, list)
  {
    if b == [] {
      assert a + b == a;
    } else {
      var n := |b| - 1;
      ListedInOrder(inp, a, b[..n], list);
      assert (a + b)[..|a + b| - 1] == a + b[..n];
      KnownCase(inp, b[n]);
    }
  }

  lemma {:induction false} ListedSizes(inp: Inputs, order: seq<string>)
    requires AllKnown(inp, order)
    ensures |Listed(inp, order, Matched)| + |Listed(inp, order, Mismatch)| + |Listed(inp, order, Missing)| +
            |Listed(inp, order, Undocumented)| + |Listed(inp, order, Suppressed(MissingOutcome))| == |order|
  {
    if order != [] {
      var n := |order| - 1;
      ListedSizes(inp, order[..n]);
      KnownCase(inp, order[n]);
    }
  }

  lemma {:induction false} DistinctTimes(order: seq<string>, x: string)
    requires Distinct(order)
    ensures multiset(order)[x] == if x in order then 1 else 0
  {
    if order != [] {
      var n := |order| - 1;
      assert order == order[..n] + [order[n]];
      DistinctTimes(order[..n], x);
    }
  }

  function TimesInAll(r: Report, x: string): nat {
    Times(r.matched, x) + Times(r.mismatch, x) + Times(r.missing, x) + Times(r.undocumented, x) + Times(r.suppressed, x)
  }

  lemma OnOneList(inp: Inputs, r: Report, x: string)
    requires IsReport(inp, r)
    ensures TimesInAll(r, x) == if Known(inp, x) then 1 else 0
  {
    var order := Order(inp);
    OrderIs(inp);
    ListedTimes(inp, order, Matched, x);
    ListedTimes(inp, order, Mismatch, x);
    ListedTimes(inp, order, Missing, x);
    ListedTimes(inp, order, Undocumented, x);
    ListedTimes(inp, order, Suppressed(MissingOutcome), x);
    DistinctTimes(order, x);
  }

  /** The identities that were declared or observed. */
  function AllIds(inp: Inputs): set<string> {
    (set x | x in Ids(inp.declared, inp.environment)) + (set x | x in Ids(inp.observed, inp.environment))
  }

  /** Every declared or observed identity appears exactly once across the five lists, and nothing else appears. */
  lemma ReportPartitions(inp: Inputs, r: Report)
    requires IsReport(inp, r)
    ensures forall x :: TimesInAll(r, x) == if Known(inp, x) then 1 else 0
    ensures |r.matched| + |r.mismatch| + |r.missing| + |r.undocumented| + |r.suppressed| == |AllIds(inp)|
  {
    forall x ensures TimesInAll(r, x) == if Known(inp, x) then 1 else 0 {
      OnOneList(inp, r, x);
    }
    ListedSizes(inp, Order(inp));
    OrderSize(inp, Order(inp));
  }

  lemma OrderSize(inp: Inputs, order: seq<string>)
    requires order == Order(inp)
    ensures |order| == |AllIds(inp)|
  {
    OrderIs(inp);
    DistinctSize(order);
    assert (set x | x in order) == AllIds(inp);
  }

  lemma {:induction false} DistinctSize(order: seq<string>)
    requires Distinct(order)
    ensures |set x | x in order| == |order|
  {
    if order != [] {
      var n := |order| - 1;
      DistinctSize(order[..n]);
      assert (set x | x in order) == (set x | x in order[..n]) + {order[n]};
    }
  }

  /** Both sides know the identity and agree on its drift field, or an active disposition covers it. */
  predicate Accounted(inp: Inputs, x: string) {
    var c := CaseOf(inp, x);
    c.disposition.Some? || (c.declared.Some? && c.observed.Some? && Agree(c.declared.value, c.observed.value))
  }

  lemma {:induction false} ListedEmptyIff(inp: Inputs, order: seq<string>, list: Place)
    requires AllKnown(inp, order)
    ensures Listed(inp, order, list) == [] <==> forall x :: x in order ==> !OnList(PlaceOf(CaseOf(inp, x)), list)
  {
    if order != [] {
      var n := |order| - 1;
      assert order == order[..n] + [order[n]];
      ListedEmptyIff(inp, order[..n], list);
      KnownCase(inp, order[n]);
    }
  }

  /** Nothing is reported iff the sides agree everywhere except where an active disposition covers the identity. */
  lemma CleanIffAccounted(inp: Inputs, r: Report)
    requires IsReport(inp, r)
    ensures r.mismatch == [] && r.missing == [] && r.undocumented == [] <==>
            forall x :: Known(inp, x) ==> Accounted(inp, x)
  {
    var order := Order(inp);
    OrderIs(inp);
    ListedEmptyIff(inp, order, Mismatch);
    ListedEmptyIff(inp, order, Missing);
    ListedEmptyIff(inp, order, Undocumented);
    forall x | Known(inp, x)
      ensures Accounted(inp, x) <==> PlaceOf(CaseOf(inp, x)) !in {Mismatch, Missing, Undocumented}
    {
      KnownCase(inp, x);
    }
  }

  // ---------- what the entries say ----------

  /** The component is the last one listed under the identity. */
  ghost predicate LastListed(components: seq<Component>, environment: string, x: string, c: Component) {
    exists i :: 0 <= i < |components| && components[i] == c && c.kind + ":" + SubstituteEnv(c.name, environment) == x &&
                NotListed(components[i + 1..], environment, x)
  }

  ghost predicate NotListed(components: seq<Component>, environment: string, x: string) {
    forall c :: c in components ==> c.kind + ":" + SubstituteEnv(c.name, environment) != x
  }

  /** The disposition is the last one for the identity that is accepted or deferred. */
  ghost predicate LastActive(dispositions: seq<Disposition>, x: string, d: Disposition) {
    exists i :: 0 <= i < |dispositions| && dispositions[i] == d && d.componentClass + ":" + d.componentName == x &&
                d.status in {"accepted", "deferred"} && NoneActive(dispositions[i + 1..], x)
  }

  ghost predicate NoneActive(dispositions: seq<Disposition>, x: string) {
    forall d :: d in dispositions && d.status in {"accepted", "deferred"} ==>
      d.componentClass + ":" + d.componentName != x
  }

  lemma {:induction false} LatestIs(components: seq<Component>, environment: string, x: string)
    ensures match Latest(components, environment, x)
            case Some(c) => LastListed(components, environment, x, c)
            case None => NotListed(components, environment, x)
  {
    if components != [] {
      var n := |components| - 1;
      assert components == components[..n] + [components[n]];
      if Identity(components[n], environment) == x {
        assert components[n + 1..] == [];
      } else {
        LatestIs(components[..n], environment, x);
        var latest := Latest(components[..n], environment, x);
        if latest.Some? {
          LastListedSnoc(components[..n], components[n], environment, x, latest.value);
        }
      }
    }
  }

  lemma LastListedSnoc(front: seq<Component>, last: Component, environment: string, x: string, c: Component)
    requires LastListed(front, environment, x, c) && NotListed([last], environment, x)
    ensures LastListed(front + [last], environment, x, c)
  {
    var i :| 0 <= i < |front| && front[i] == c && c.kind + ":" + SubstituteEnv(c.name, environment) == x &&
             NotListed(front[i + 1..], environment, x);
    var all := front + [last];
    assert all[i] == c && all[i + 1..] == front[i + 1..] + [last];
    assert last in [last];
  }

  lemma {:induction false} LatestActiveIs(dispositions: seq<Disposition>, x: string)
    ensures match LatestActive(dispositions, x)
            case Some(d) => LastActive(dispositions, x, d)
            case None => NoneActive(dispositions, x)
  {
    if dispositions != [] {
      var n := |dispositions| - 1;
      assert dispositions == dispositions[..n] + [dispositions[n]];
      if Active(dispositions[n]) && DispositionKey(dispositions[n]) == x {
        assert dispositions[n + 1..] == [];
      } else {
        LatestActiveIs(dispositions[..n], x);
        var latest := LatestActive(dispositions[..n], x);
        if latest.Some? {
          LastActiveSnoc(dispositions[..n], dispositions[n], x, latest.value);
        }
      }
    }
  }

  lemma LastActiveSnoc(front: seq<Disposition>, last: Disposition, x: string, d: Disposition)
    requires LastActive(front, x, d) && NoneActive([last], x)
    ensures LastActive(front + [last], x, d)
  {
    var i :| 0 <= i < |front| && front[i] == d && d.componentClass + ":" + d.componentName == x &&
             d.status in {"accepted", "deferred"} && NoneActive(front[i + 1..], x);
    var all := front + [last];
    assert all[i] == d && all[i + 1..] == front[i + 1..] + [last];
    assert last in [last];
  }

  /** An observed hash is passed on unless it is absent, empty or zero. */
  ghost predicate ShaOf(sha: Option<JsValue>, o: Component) {
    sha == if (o.sha256.Text? && o.sha256.s != "") || (o.sha256.Number? && o.sha256.n != 0) then Some(o.sha256)
           else None
  }

  /** What was declared and not observed. */
  ghost predicate SaysMissing(inp: Inputs, e: Entry) {
    e.DeclaredEntry? && NotListed(inp.observed, inp.environment, e.identity) && e.observedSha256 == None &&
    exists d :: LastListed(inp.declared, inp.environment, e.identity, d) && e.id == d.id &&
                e.name == SubstituteEnv(d.name, inp.environment)
  }

  /** What was declared and observed alike. */
  ghost predicate SaysMatched(inp: Inputs, e: Entry) {
    e.DeclaredEntry? &&
    exists d, o :: LastListed(inp.declared, inp.environment, e.identity, d) && Agree(d, o) &&
                   LastListed(inp.observed, inp.environment, e.identity, o) && e.id == d.id &&
                   e.name == SubstituteEnv(d.name, inp.environment) && ShaOf(e.observedSha256, o)
  }

  /** What was declared and observed differently, with the values that differ. */
  ghost predicate SaysMismatch(inp: Inputs, e: Entry) {
    e.DriftEntry? && e.drift != [] &&
    exists d, o :: LastListed(inp.declared, inp.environment, e.identity, d) && !Agree(d, o) &&
                   LastListed(inp.observed, inp.environment, e.identity, o) && e.id == d.id &&
                   e.name == SubstituteEnv(d.name, inp.environment) && ShaOf(e.observedSha256, o) &&
                   forall k :: 0 <= k < |e.drift| ==>
                     e.drift[k].declared == Field(d, e.drift[k].field) &&
                     e.drift[k].observed == Field(o, e.drift[k].field) && e.drift[k].declared != e.drift[k].observed
  }

  /** What was observed and not declared. */
  ghost predicate SaysUndocumented(inp: Inputs, e: Entry) {
    e.ObservedEntry? && NotListed(inp.declared, inp.environment, e.identity) &&
    exists o :: LastListed(inp.observed, inp.environment, e.identity, o) && e.name == o.name && e.kind == o.kind
  }

  /** What would be on one of the other three lists, with its outcome and the disposition that covers it. */
  ghost predicate SaysSuppressed(inp: Inputs, e: Entry) {
    e.SuppressedEntry? && e.entry.identity == e.identity &&
    (exists d :: LastActive(inp.dispositions, e.identity, d) && e.dispositionId == d.id) &&
    match e.result
    case MismatchOutcome => SaysMismatch(inp, e.entry)
    case MissingOutcome => SaysMissing(inp, e.entry)
    case UndocumentedOutcome => SaysUndocumented(inp, e.entry)
  }

  lemma BothSay(inp: Inputs, x: string)
    requires CaseOf(inp, x).declared.Some? && CaseOf(inp, x).observed.Some?
    ensures var c := CaseOf(inp, x);
            var e := PlainEntry(x, c, inp.environment);
            if Agree(c.declared.value, c.observed.value) then SaysMatched(inp, e) else SaysMismatch(inp, e)
  {
    var c := CaseOf(inp, x);
    LatestIs(inp.declared, inp.environment, x);
    LatestIs(inp.observed, inp.environment, x);
    DriftIffDisagree(c.declared.value, c.observed.value);
  }

  lemma OneSays(inp: Inputs, x: string)
    requires CaseOf(inp, x).declared.Some? != CaseOf(inp, x).observed.Some?
    ensures var e := PlainEntry(x, CaseOf(inp, x), inp.environment);
            if CaseOf(inp, x).declared.Some? then SaysMissing(inp, e) else SaysUndocumented(inp, e)
  {
    LatestIs(inp.declared, inp.environment, x);
    LatestIs(inp.observed, inp.environment, x);
  }

  /** What an entry must say to be on a list. */
  ghost predicate Says(inp: Inputs, list: Place, e: Entry) {
    match list
    case Matched => SaysMatched(inp, e)
    case Mismatch => SaysMismatch(inp, e) && NoneActive(inp.dispositions, e.identity)
    case Missing => SaysMissing(inp, e) && NoneActive(inp.dispositions, e.identity)
    case Undocumented => SaysUndocumented(inp, e) && NoneActive(inp.dispositions, e.identity)
    case Suppressed(_) => SaysSuppressed(inp, e)
  }

  lemma EntrySays(inp: Inputs, x: string)
    requires Known(inp, x)
    ensures var c := CaseOf(inp, x);
            (c.declared.Some? || c.observed.Some?) && Says(inp, PlaceOf(c), EntryOf(x, c, inp.environment))
  {
    KnownCase(inp, x);
    LatestActiveIs(inp.dispositions, x);
    if CaseOf(inp, x).declared.Some? && CaseOf(inp, x).observed.Some? {
      BothSay(inp, x);
    } else {
      OneSays(inp, x);
    }
  }

  lemma {:induction false} ListedSay(inp: Inputs, order: seq<string>, list: Place)
    requires AllKnown(inp, order)
    ensures forall e :: e in Listed(inp, order, list) ==> Says(inp, list, e)
  {
    if order != [] {
      var n := |order| - 1;
      ListedNext(inp, order, list);
      ListedSay(inp, order[..n], list);
      EntrySays(inp, order[n]);
    }
  }

  /**
    Every entry of the report says what the inputs hold of its identity: which component was declared, which was
    observed, the hash, the values that differ, and the disposition that covers it.
   */
  lemma EntriesSay(inp: Inputs, r: Report)
    requires IsReport(inp, r)
    ensures forall e :: e in r.matched ==> SaysMatched(inp, e)
    ensures forall e :: e in r.mismatch ==> SaysMismatch(inp, e) && NoneActive(inp.dispositions, e.identity)
    ensures forall e :: e in r.missing ==> SaysMissing(inp, e) && NoneActive(inp.dispositions, e.identity)
    ensures forall e :: e in r.undocumented ==> SaysUndocumented(inp, e) && NoneActive(inp.dispositions, e.identity)
    ensures forall e :: e in r.suppressed ==> SaysSuppressed(inp, e)
  {
    ListedSay(inp, Order(inp), Matched);
    ListedSay(inp, Order(inp), Mismatch);
    ListedSay(inp, Order(inp), Missing);
    ListedSay(inp, Order(inp), Undocumented);
    ListedSay(inp, Order(inp), Suppressed(MissingOutcome));
  }
}
