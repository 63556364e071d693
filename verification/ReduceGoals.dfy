/**
  Deduplicating goals by name and status and their objectives by title and status (src/goalServices/reduceGoals.ts).
  The two objective reducers are two groupers; the goal reducer is the same for both.
 */
module ReduceGoals {
  import opened Prelude
  import opened Text
  import opened Grouping
  import opened Sums
  import opened Sequences
  import opened Citations

  type Key = (string, string)

  datatype Related = Related(key: string, rest: string)

  /** One activity report objective; its citations are already formatted. */
  datatype Aro = Aro(status: string, createdHere: bool, resources: seq<Related>, topics: seq<Related>,
                     courses: seq<Related>, files: seq<Related>, citations: seq<Citation>)

  datatype Objective = Objective(id: int, title: string, status: string, otherEntityId: Option<int>,
                                 activityReports: seq<int>, aros: seq<Aro>)

  /** What reduceObjectives accumulates; the fields it copies from the first objective are left out. */
  datatype RtrObjective = RtrObjective(title: string, status: string, ids: seq<int>, recipientIds: seq<int>,
                                       activityReports: seq<int>)

  /** What reduceObjectivesForActivityReport accumulates. */
  datatype ReportObjective = ReportObjective(title: string, status: string, ids: seq<int>, createdHere: bool,
                                             resources: seq<Related>, topics: seq<Related>, courses: seq<Related>,
                                             files: seq<Related>, citations: Option<seq<Citation>>)

  // ---------- the reducer for the RTR ----------

  function Recipients(o: Objective): seq<int> {
    if o.otherEntityId.Some? && o.otherEntityId.value != 0 then [o.otherEntityId.value] else []
  }

  const RTR: Grouper<Objective, RtrObjective, Key> := Grouper(
      (o: Objective) => (Trim(o.title), o.status),
      (r: RtrObjective) => (Trim(r.title), r.status),
      (o: Objective) => RtrObjective(o.title, o.status, [o.id], Recipients(o), []),
      (r: RtrObjective, o: Objective) =>
        r.(ids := r.ids + [o.id], recipientIds := r.recipientIds + Recipients(o),
           activityReports := r.activityReports + o.activityReports))

  // ---------- the reducer for an activity report ----------

  /** The report's status for the objective, or the objective's own when the report has none. */
  function ReportStatus(o: Objective): string {
    if o.aros != [] && o.aros[0].status != "" then o.aros[0].status else o.status
  }

  function CreatedHere(o: Objective): bool {
    exists i :: 0 <= i < |o.aros| && o.aros[i].createdHere
  }

  function Resources(o: Objective): seq<Related> { if o.aros == [] then [] else o.aros[0].resources }
  function Topics(o: Objective): seq<Related> { if o.aros == [] then [] else o.aros[0].topics }
  function Courses(o: Objective): seq<Related> { if o.aros == [] then [] else o.aros[0].courses }
  function Files(o: Objective): seq<Related> { if o.aros == [] then [] else o.aros[0].files }

  function CitationsOf(aros: seq<Aro>): seq<Citation> {
    if aros == [] then [] else aros[0].citations + CitationsOf(aros[1..])
  }

  function RelatedKey(r: Related): string {
    r.key
  }

  /** reduceRelationThroughActivityReportObjectives. */
  function Relation(existing: seq<Related>, added: seq<Related>): seq<Related> {
    UniqBy(existing + added, RelatedKey)
  }

  function NullIfEmpty(cs: seq<Citation>): Option<seq<Citation>> {
    if cs == [] then None else Some(cs)
  }

  function OrEmpty(cs: Option<seq<Citation>>): seq<Citation> {
    if cs.Some? then cs.value else []
  }

  const REPORT: Grouper<Objective, ReportObjective, Key> := Grouper(
      (o: Objective) => (Trim(o.title), ReportStatus(o)),
      (r: ReportObjective) => (Trim(r.title), r.status),
      (o: Objective) =>
        ReportObjective(Trim(o.title), ReportStatus(o), [o.id], CreatedHere(o), Relation([], Resources(o)),
                        Relation([], Topics(o)), Relation([], Courses(o)), Files(o),
                        NullIfEmpty(Merge(CitationsOf(o.aros)))),
      (r: ReportObjective, o: Objective) =>
        r.(ids := r.ids + [o.id], createdHere := r.createdHere || CreatedHere(o),
           resources := Relation(r.resources, Resources(o)), topics := Relation(r.topics, Topics(o)),
           courses := Relation(r.courses, Courses(o)), files := Relation(r.files, Files(o)),
           citations := NullIfEmpty(Merge(OrEmpty(r.citations) + CitationsOf(o.aros)))))

  lemma {:induction false} GroupersLawful()
    ensures Lawful(RTR) && Lawful(REPORT)
  {
    forall s: string ensures Trim(Trim(s)) == Trim(s) { TrimIdempotent(s); }
  }

  // ---------- one objective from all of its occurrences ----------

  function Ids(os: seq<Objective>): (r: seq<int>)
    ensures |r| == |os| && forall k :: 0 <= k < |os| ==> r[k] == os[k].id
  {
    if os == [] then [] else Ids(os[..|os| - 1]) + [os[|os| - 1].id]
  }

  function Gather<T>(os: seq<Objective>, part: Objective -> seq<T>): seq<T> {
    if os == [] then [] else Gather(os[..|os| - 1], part) + part(os[|os| - 1])
  }

  function Cited(o: Objective): seq<Citation> {
    CitationsOf(o.aros)
  }

  function Reports(o: Objective): seq<int> {
    o.activityReports
  }

  lemma {:induction false} InGather<T>(os: seq<Objective>, part: Objective -> seq<T>)
    ensures forall x :: x in Gather(os, part) <==> exists k :: 0 <= k < |os| && x in part(os[k])
  {
    if os != [] {
      var n := |os| - 1;
      InGather(os[..n], part);
      forall x ensures x in Gather(os, part) <==> exists k :: 0 <= k < |os| && x in part(os[k]) {
        if x in Gather(os[..n], part) {
          var k :| 0 <= k < n && x in part(os[..n][k]);
          assert x in part(os[k]);
        }
        if k :| 0 <= k < |os| && x in part(os[k]) {
          assert k < n ==> x in part(os[..n][k]);
        }
      }
    }
  }

  /** Resources, topics, courses and files come from an objective's first activity report objective only. */
  lemma FirstOnly(os: seq<Objective>)
    ensures forall x :: x in Gather(os, Resources) <==>
              exists k :: 0 <= k < |os| && os[k].aros != [] && x in os[k].aros[0].resources
    ensures forall x :: x in Gather(os, Topics) <==>
              exists k :: 0 <= k < |os| && os[k].aros != [] && x in os[k].aros[0].topics
    ensures forall x :: x in Gather(os, Courses) <==>
              exists k :: 0 <= k < |os| && os[k].aros != [] && x in os[k].aros[0].courses
    ensures forall x :: x in Gather(os, Files) <==>
              exists k :: 0 <= k < |os| && os[k].aros != [] && x in os[k].aros[0].files
  {
    InGather(os, Resources);
    InGather(os, Topics);
    InGather(os, Courses);
    InGather(os, Files);
  }

  /** Citations come from all of them. */
  lemma AllCited(os: seq<Objective>)
    ensures forall c :: c in Gather(os, Cited) <==>
              exists k, i :: 0 <= k < |os| && 0 <= i < |os[k].aros| && c in os[k].aros[i].citations
  {
    InGather(os, Cited);
    forall k | 0 <= k < |os|
      ensures forall c :: c in Cited(os[k]) <==> exists i :: 0 <= i < |os[k].aros| && c in os[k].aros[i].citations
    {
      InCitations(os[k].aros);
    }
  }

  lemma {:induction false} InCitations(aros: seq<Aro>)
    ensures forall c :: c in CitationsOf(aros) <==> exists i :: 0 <= i < |aros| && c in aros[i].citations
  {
    if aros != [] {
      InCitations(aros[1..]);
      forall c ensures c in CitationsOf(aros) <==> exists i :: 0 <= i < |aros| && c in aros[i].citations {
        if c in CitationsOf(aros[1..]) {
          var i :| 0 <= i < |aros[1..]| && c in aros[1..][i].citations;
          assert aros[1..][i] == aros[i + 1];
        }
        if i :| 0 < i < |aros| && c in aros[i].citations {
          assert aros[1..][i - 1] == aros[i];
        }
      }
    }
  }

  /** A recipient is recorded unless it is missing or zero. */
  lemma RecipientsAre(os: seq<Objective>)
    ensures forall id :: id in Gather(os, Recipients) <==>
              id != 0 && exists k :: 0 <= k < |os| && os[k].otherEntityId == Some(id)
  {
    InGather(os, Recipients);
  }

  lemma GatherOne<T>(os: seq<Objective>, part: Objective -> seq<T>)
    requires |os| == 1
    ensures Gather(os, part) == part(os[0])
  {
  }

  /** On the RTR every occurrence counts, except that the first one's activity reports are dropped. */
  lemma {:induction false} CollapsedRtr(os: seq<Objective>)
    requires os != []
    ensures var r := Collapse(RTR, os);
            r.ids == Ids(os) && r.recipientIds == Gather(os, Recipients) &&
            r.activityReports == Gather(os[1..], Reports)
  {
    var n := |os| - 1;
    if n == 0 {
      assert os[..0] == [];
      GatherOne(os, Recipients);
    } else {
      CollapsedRtr(os[..n]);
      GatherLater(os, Reports);
    }
  }

  lemma GatherLater<T>(os: seq<Objective>, part: Objective -> seq<T>)
    requires |os| > 1
    ensures Gather(os[1..], part) == Gather(os[..|os| - 1][1..], part) + part(os[|os| - 1])
  {
    assert os[1..][..|os| - 2] == os[..|os| - 1][1..];
  }

  lemma CollapsedRelation(os: seq<Objective>, part: Objective -> seq<Related>)
    requires |os| > 1
    ensures Relation(UniqBy(Gather(os[..|os| - 1], part), RelatedKey), part(os[|os| - 1])) ==
            UniqBy(Gather(os, part), RelatedKey)
  {
    UniqConcat(Gather(os[..|os| - 1], part), part(os[|os| - 1]), RelatedKey);
  }

  /** The relations every occurrence contributes, each key once. */
  ghost predicate RelationsOf(r: ReportObjective, os: seq<Objective>) {
    r.resources == UniqBy(Gather(os, Resources), RelatedKey) && r.topics == UniqBy(Gather(os, Topics), RelatedKey) &&
    r.courses == UniqBy(Gather(os, Courses), RelatedKey)
  }

  lemma {:induction false} CollapsedRelations(os: seq<Objective>)
    requires os != []
    ensures RelationsOf(Collapse(REPORT, os), os)
  {
    var n := |os| - 1;
    if n == 0 {
      GatherOne(os, Resources);
      GatherOne(os, Topics);
      GatherOne(os, Courses);
      assert forall rs: seq<Related> :: [] + rs == rs;
    } else {
      CollapsedRelations(os[..n]);
      CollapsedRelation(os, Resources);
      CollapsedRelation(os, Topics);
      CollapsedRelation(os, Courses);
    }
  }

  lemma {:induction false} CollapsedFiles(os: seq<Objective>)
    requires |os| > 1
    ensures Collapse(REPORT, os).files == UniqBy(Gather(os, Files), RelatedKey)
  {
    var n := |os| - 1;
    if n == 1 {
      GatherOne(os[..n], Files);
      assert os[..n][0] == os[0];
    } else {
      CollapsedFiles(os[..n]);
      CollapsedRelation(os, Files);
    }
  }

  /** Merging citations objective by objective equals one merge of all of them; null stands for none. */
  lemma {:induction false} CollapsedCitations(os: seq<Objective>)
    requires os != []
    ensures Collapse(REPORT, os).citations == NullIfEmpty(Merge(Gather(os, Cited)))
  {
    var n := |os| - 1;
    if n == 0 {
      GatherOne(os, Cited);
    } else {
      CollapsedCitations(os[..n]);
      MergeIsHomomorphic(Gather(os[..n], Cited), Cited(os[n]));
    }
  }

  ghost predicate AnyCreatedHere(os: seq<Objective>) {
    exists i :: 0 <= i < |os| && exists a :: a in os[i].aros && a.createdHere
  }

  lemma AnyCreatedHereSnoc(os: seq<Objective>, n: nat)
    requires |os| == n + 1
    ensures AnyCreatedHere(os) <==> AnyCreatedHere(os[..n]) || CreatedHere(os[n])
  {
    forall i | 0 <= i < |os| ensures CreatedHere(os[i]) <==> exists a :: a in os[i].aros && a.createdHere {
      if CreatedHere(os[i]) {
        var k :| 0 <= k < |os[i].aros| && os[i].aros[k].createdHere;
        assert os[i].aros[k] in os[i].aros;
      }
    }
  }

  lemma {:induction false} CollapsedIds(os: seq<Objective>)
    requires os != []
    ensures Collapse(REPORT, os).ids == Ids(os)
  {
    var n := |os| - 1;
    if n == 0 {
      assert os[..0] == [];
    } else {
      CollapsedIds(os[..n]);
    }
  }

  lemma {:induction false} CollapsedCreatedHere(os: seq<Objective>)
    requires os != []
    ensures Collapse(REPORT, os).createdHere <==> AnyCreatedHere(os)
  {
    var n := |os| - 1;
    AnyCreatedHereSnoc(os, n);
    if n > 0 { CollapsedCreatedHere(os[..n]); }
  }

  // ---------- goals ----------

  /** The number of a goal, or the one derived from its id. */
  datatype GoalNumber = Given(text: string) | FromId(id: int)

  datatype Goal = Goal(id: int, name: Option<string>, status: string, goalNumber: string, grantId: int,
                       objectives: seq<Objective>)

  datatype GrantEntry = GrantEntry(grantId: int, goalId: int)

  datatype ReducedGoal<R> = ReducedGoal(name: Option<string>, status: string, goalNumbers: seq<GoalNumber>,
                                        goalIds: seq<int>, grantIds: seq<int>, grants: seq<GrantEntry>,
                                        objectives: seq<R>)

  function NumberOf(g: Goal): GoalNumber {
    if g.goalNumber != "" then Given(g.goalNumber) else FromId(g.id)
  }

  function NameText(name: Option<string>): string {
    Trim(if name.Some? then name.value else "")
  }

  function GoalKey(forReport: bool, name: Option<string>, status: string): Key {
    (NameText(name), if forReport then "" else status)
  }

  /** Folds the new objectives in and sorts; `sort` is whatever order the comparator ends up producing. */
  function ReduceObjectives<R>(og: Grouper<Objective, R, Key>, sort: seq<R> -> seq<R>,
                               current: seq<R>, added: seq<Objective>): seq<R> {
    sort(GroupAll(og, current, added))
  }

  function NewGoal<R>(og: Grouper<Objective, R, Key>, sort: seq<R> -> seq<R>, g: Goal): ReducedGoal<R> {
    ReducedGoal(g.name, g.status, [NumberOf(g)], [g.id], [g.grantId], [GrantEntry(g.grantId, g.id)],
                ReduceObjectives(og, sort, [], g.objectives))
  }

  function MergeGoal<R>(og: Grouper<Objective, R, Key>, sort: seq<R> -> seq<R>, r: ReducedGoal<R>,
                        g: Goal): ReducedGoal<R> {
    r.(goalNumbers := r.goalNumbers + [NumberOf(g)], goalIds := r.goalIds + [g.id],
       grantIds := r.grantIds + [g.grantId],
       grants := r.grants + [GrantEntry(g.grantId, g.id)],
       objectives := ReduceObjectives(og, sort, r.objectives, g.objectives))
  }

  function GoalGrouper<R>(forReport: bool, og: Grouper<Objective, R, Key>, sort: seq<R> -> seq<R>)
    : Grouper<Goal, ReducedGoal<R>, Key>
  {
    Grouper((g: Goal) => GoalKey(forReport, g.name, g.status),
            (r: ReducedGoal<R>) => GoalKey(forReport, r.name, r.status),
            (g: Goal) => NewGoal(og, sort, g),
            (r: ReducedGoal<R>, g: Goal) => MergeGoal(og, sort, r, g))
  }

  /** Same trimmed name, and off reports the same status too. */
  predicate SameGoal(forReport: bool, name: Option<string>, status: string, otherName: Option<string>,
                     otherStatus: string) {
    Trim(if name.Some? then name.value else "") == Trim(if otherName.Some? then otherName.value else "") &&
    (!forReport ==> status == otherStatus)
  }

  /** `previousValues.find(g => where(g, currentValue))`, as an index. */
  method FindGoal<R>(r: seq<ReducedGoal<R>>, forReport: bool, current: Goal) returns (k: nat)
    ensures k <= |r|
    ensures k < |r| ==> SameGoal(forReport, r[k].name, r[k].status, current.name, current.status)
    ensures forall j :: 0 <= j < k ==> !SameGoal(forReport, r[j].name, r[j].status, current.name, current.status)
  {
    k := 0;
    while k < |r| && GoalKey(forReport, r[k].name, r[k].status) != GoalKey(forReport, current.name, current.status)
      invariant 0 <= k <= |r|
      invariant forall j :: 0 <= j < k ==> !SameGoal(forReport, r[j].name, r[j].status, current.name, current.status)
    {
      k := k + 1;
    }
  }

  lemma AddGoal<R>(forReport: bool, og: Grouper<Objective, R, Key>, sort: seq<R> -> seq<R>, r: seq<ReducedGoal<R>>,
                   g: Goal, k: nat)
    requires k <= |r|
    requires k < |r| ==> SameGoal(forReport, r[k].name, r[k].status, g.name, g.status)
    requires forall j :: 0 <= j < k ==> !SameGoal(forReport, r[j].name, r[j].status, g.name, g.status)
    ensures Add(GoalGrouper(forReport, og, sort), r, g) ==
            if k < |r| then r[k := MergeGoal(og, sort, r[k], g)] else r + [NewGoal(og, sort, g)]
  {
  }

  method Reduce<R>(goals: seq<Goal>, forReport: bool, og: Grouper<Objective, R, Key>, sort: seq<R> -> seq<R>)
    returns (r: seq<ReducedGoal<R>>)
    ensures r == GroupAll(GoalGrouper(forReport, og, sort), [], goals)
  {
    r := [];
    for i := 0 to |goals|
      invariant r == GroupAll(GoalGrouper(forReport, og, sort), [], goals[..i])
    {
      var k := FindGoal(r, forReport, goals[i]);
      AddGoal(forReport, og, sort, r, goals[i], k);
      assert goals[..i + 1][..i] == goals[..i];
      if k < |r| {
        r := r[k := MergeGoal(og, sort, r[k], goals[i])];
      } else {
        r := r + [NewGoal(og, sort, goals[i])];
      }
    }
    assert goals[..|goals|] == goals;
  }

  function AllObjectives(gs: seq<Goal>): seq<Objective> {
    if gs == [] then [] else AllObjectives(gs[..|gs| - 1]) + gs[|gs| - 1].objectives
  }

  /** One reduced goal is exactly its goals: name and status of the first, one entry each in four lists, in order. */
  ghost predicate GoalOf<R>(og: Grouper<Objective, R, Key>, r: ReducedGoal<R>, gs: seq<Goal>) {
    gs != [] && r.name == gs[0].name && r.status == gs[0].status &&
    |r.goalIds| == |r.grantIds| == |r.goalNumbers| == |r.grants| == |gs| &&
    (forall k :: 0 <= k < |gs| ==> EntriesOf(r, gs[k], k)) && Represents(og, r.objectives, AllObjectives(gs))
  }

  ghost predicate EntriesOf<R>(r: ReducedGoal<R>, g: Goal, k: nat)
    requires k < |r.goalIds| == |r.grantIds| == |r.goalNumbers| == |r.grants|
  {
    r.goalIds[k] == g.id && r.grantIds[k] == g.grantId && r.grants[k] == GrantEntry(g.grantId, g.id) &&
    r.goalNumbers[k] == if g.goalNumber != "" then Given(g.goalNumber) else FromId(g.id)
  }

  lemma {:induction false} ReducedObjectivesRepresent<R(!new)>(og: Grouper<Objective, R, Key>, sort: seq<R> -> seq<R>,
                                            current: seq<R>, before: seq<Objective>, added: seq<Objective>)
    requires Lawful(og) && Permutes(sort) && Represents(og, current, before)
    ensures Represents(og, ReduceObjectives(og, sort, current, added), before + added)
  {
    GroupAllRepresents(og, current, before, added);
    var gs := GroupAll(og, current, added);
    assert multiset(sort(gs)) == multiset(gs);
    PermutedRepresents(og, gs, sort(gs), before + added);
  }

  lemma MergedGoalOf<R>(og: Grouper<Objective, R, Key>, sort: seq<R> -> seq<R>, r: ReducedGoal<R>, gs: seq<Goal>,
                        g: Goal)
    requires GoalOf(og, r, gs)
    requires Represents(og, ReduceObjectives(og, sort, r.objectives, g.objectives), AllObjectives(gs) + g.objectives)
    ensures GoalOf(og, MergeGoal(og, sort, r, g), gs + [g])
  {
    var merged, all := MergeGoal(og, sort, r, g), gs + [g];
    assert all[..|gs|] == gs && AllObjectives(all) == AllObjectives(gs) + g.objectives;
    forall k | 0 <= k < |all| ensures EntriesOf(merged, all[k], k) {
      if k < |gs| {
        assert EntriesOf(r, gs[k], k);
      }
    }
  }

  lemma {:induction false} CollapsedGoal<R(!new)>(forReport: bool, og: Grouper<Objective, R, Key>,
                                                  sort: seq<R> -> seq<R>, gs: seq<Goal>)
    requires Lawful(og) && Permutes(sort) && gs != []
    ensures GoalOf(og, Collapse(GoalGrouper(forReport, og, sort), gs), gs)
  {
    var front, last := gs[..|gs| - 1], gs[|gs| - 1];
    Snoc(gs);
    if front == [] {
      assert Represents(og, [], []);
      ReducedObjectivesRepresent(og, sort, [], [], last.objectives);
    } else {
      CollapsedGoal(forReport, og, sort, front);
      var r := Collapse(GoalGrouper(forReport, og, sort), front);
      ReducedObjectivesRepresent(og, sort, r.objectives, AllObjectives(front), last.objectives);
      MergedGoalOf(og, sort, r, front, last);
    }
  }

  /** The goals that count as the same. */
  function Matching(goals: seq<Goal>, forReport: bool, name: Option<string>, status: string): seq<Goal> {
    if goals == [] then []
    else
      var earlier, g := Matching(goals[..|goals| - 1], forReport, name, status), goals[|goals| - 1];
      if SameGoal(forReport, name, status, g.name, g.status) then earlier + [g] else earlier
  }

  lemma {:induction false} MatchingIsMembers<R>(forReport: bool, og: Grouper<Objective, R, Key>, sort: seq<R> -> seq<R>,
                                                goals: seq<Goal>, name: Option<string>, status: string)
    ensures Members(GoalGrouper(forReport, og, sort), goals, GoalKey(forReport, name, status)) ==
            Matching(goals, forReport, name, status)
  {
    if goals != [] {
      MatchingIsMembers(forReport, og, sort, goals[..|goals| - 1], name, status);
    }
  }

  lemma {:induction false} InMatching(goals: seq<Goal>, forReport: bool, name: Option<string>, status: string)
    ensures forall g :: g in Matching(goals, forReport, name, status) <==>
              g in goals && SameGoal(forReport, name, status, g.name, g.status)
  {
    if goals != [] {
      InMatching(goals[..|goals| - 1], forReport, name, status);
      Snoc(goals);
    }
  }

  /** No two outputs are the same goal, and every input goal is one of them. */
  ghost predicate Partitions<R>(rs: seq<ReducedGoal<R>>, goals: seq<Goal>, forReport: bool) {
    (forall i, j :: 0 <= i < j < |rs| ==> !SameGoal(forReport, rs[i].name, rs[i].status, rs[j].name, rs[j].status)) &&
    forall g :: g in goals ==>
      exists i :: 0 <= i < |rs| && SameGoal(forReport, rs[i].name, rs[i].status, g.name, g.status)
  }

  /** Some goal is one of the first output's, before any of the second's has come up. */
  ghost predicate Before<R>(a: ReducedGoal<R>, b: ReducedGoal<R>, goals: seq<Goal>, forReport: bool) {
    exists p :: 0 <= p < |goals| && SameGoal(forReport, a.name, a.status, goals[p].name, goals[p].status) &&
      forall q :: 0 <= q <= p ==> !SameGoal(forReport, b.name, b.status, goals[q].name, goals[q].status)
  }

  ghost predicate InOrder<R>(rs: seq<ReducedGoal<R>>, goals: seq<Goal>, forReport: bool) {
    forall i, j :: 0 <= i < j < |rs| ==> Before(rs[i], rs[j], goals, forReport)
  }

  lemma ReduceKeys<R(!new)>(goals: seq<Goal>, forReport: bool, og: Grouper<Objective, R, Key>, sort: seq<R> -> seq<R>)
    ensures var s := GoalGrouper(forReport, og, sort);
            GroupKeys(s, GroupAll(s, [], goals)) == KeysInOrder(s, goals)
  {
    GroupedInOrder(GoalGrouper(forReport, og, sort), goals);
  }

  lemma {:induction false} ReduceRepresents<R(!new)>(goals: seq<Goal>, forReport: bool, og: Grouper<Objective, R, Key>,
                                                     sort: seq<R> -> seq<R>)
    ensures var s := GoalGrouper(forReport, og, sort); Represents(s, GroupAll(s, [], goals), goals)
  {
    var s := GoalGrouper(forReport, og, sort);
    assert Represents(s, [], []);
    GroupAllRepresents(s, [], [], goals);
    assert [] + goals == goals;
  }

  lemma FirstGoal<R>(goals: seq<Goal>, forReport: bool, og: Grouper<Objective, R, Key>, sort: seq<R> -> seq<R>,
                     rs: seq<ReducedGoal<R>>, i: nat, j: nat)
    requires i < j < |rs|
    requires var s := GoalGrouper(forReport, og, sort); GroupKeys(s, rs) == KeysInOrder(s, goals)
    ensures Before(rs[i], rs[j], goals, forReport)
  {
    var s := GoalGrouper(forReport, og, sort);
    assert s.groupKey(rs[i]) == KeysInOrder(s, goals)[i] && s.groupKey(rs[j]) == KeysInOrder(s, goals)[j];
    var p := KeysFirstAppear(s, goals, i, j);
    assert s.key(goals[p]) == s.groupKey(rs[i]);
    forall q | 0 <= q <= p ensures !SameGoal(forReport, rs[j].name, rs[j].status, goals[q].name, goals[q].status) {
      assert s.key(goals[q]) != s.groupKey(rs[j]);
    }
  }

  lemma OrderOfKeys<R>(goals: seq<Goal>, forReport: bool, og: Grouper<Objective, R, Key>, sort: seq<R> -> seq<R>,
                       rs: seq<ReducedGoal<R>>)
    requires var s := GoalGrouper(forReport, og, sort); GroupKeys(s, rs) == KeysInOrder(s, goals)
    ensures InOrder(rs, goals, forReport)
  {
    forall i, j | 0 <= i < j < |rs| ensures Before(rs[i], rs[j], goals, forReport) {
      FirstGoal(goals, forReport, og, sort, rs, i, j);
    }
  }

  lemma ReducedInOrder<R(!new)>(goals: seq<Goal>, forReport: bool, og: Grouper<Objective, R, Key>,
                                sort: seq<R> -> seq<R>)
    ensures InOrder(GroupAll(GoalGrouper(forReport, og, sort), [], goals), goals, forReport)
  {
    ReduceKeys(goals, forReport, og, sort);
    OrderOfKeys(goals, forReport, og, sort, GroupAll(GoalGrouper(forReport, og, sort), [], goals));
  }

  /**
    reduceGoals partitions its input: pairwise different outputs in order of first appearance, each made of exactly the
    goals that are the same as it, so that it lists an id iff such a goal has it.
   */
  lemma {:induction false} ReducePartitions<R(!new)>(goals: seq<Goal>, forReport: bool, og: Grouper<Objective, R, Key>,
                                                     sort: seq<R> -> seq<R>)
    requires Lawful(og) && Permutes(sort)
    ensures var rs := GroupAll(GoalGrouper(forReport, og, sort), [], goals);
            Partitions(rs, goals, forReport) && InOrder(rs, goals, forReport) &&
            forall r :: r in rs ==>
              GoalOf(og, r, Matching(goals, forReport, r.name, r.status)) &&
              forall id :: id in r.goalIds <==>
                exists g :: g in goals && g.id == id && SameGoal(forReport, r.name, r.status, g.name, g.status)
  {
    var rs := GroupAll(GoalGrouper(forReport, og, sort), [], goals);
    ReducedInOrder(goals, forReport, og, sort);
    ReducedPartition(goals, forReport, og, sort);
    forall r | r in rs
      ensures GoalOf(og, r, Matching(goals, forReport, r.name, r.status))
      ensures forall id :: id in r.goalIds <==>
                exists g :: g in goals && g.id == id && SameGoal(forReport, r.name, r.status, g.name, g.status)
    {
      ReducedGoalOf(goals, forReport, og, sort, r);
      IdsListed(og, r, goals, forReport);
    }
  }

  lemma ReducedPartition<R(!new)>(goals: seq<Goal>, forReport: bool, og: Grouper<Objective, R, Key>,
                                  sort: seq<R> -> seq<R>)
    ensures Partitions(GroupAll(GoalGrouper(forReport, og, sort), [], goals), goals, forReport)
  {
    var s := GoalGrouper(forReport, og, sort);
    var rs := GroupAll(s, [], goals);
    ReduceRepresents(goals, forReport, og, sort);
    forall i, j | 0 <= i < j < |rs| ensures !SameGoal(forReport, rs[i].name, rs[i].status, rs[j].name, rs[j].status) {
      assert s.groupKey(rs[i]) != s.groupKey(rs[j]);
    }
    forall g | g in goals
      ensures exists i :: 0 <= i < |rs| && SameGoal(forReport, rs[i].name, rs[i].status, g.name, g.status)
    {
      var i :| 0 <= i < |rs| && s.groupKey(rs[i]) == s.key(g);
    }
  }

  lemma ReducedGoalOf<R(!new)>(goals: seq<Goal>, forReport: bool, og: Grouper<Objective, R, Key>,
                               sort: seq<R> -> seq<R>, r: ReducedGoal<R>)
    requires Lawful(og) && Permutes(sort) && r in GroupAll(GoalGrouper(forReport, og, sort), [], goals)
    ensures GoalOf(og, r, Matching(goals, forReport, r.name, r.status))
  {
    var s := GoalGrouper(forReport, og, sort);
    var rs := GroupAll(s, [], goals);
    ReduceRepresents(goals, forReport, og, sort);
    var i :| 0 <= i < |rs| && rs[i] == r;
    assert s.groupKey(rs[i]) == GoalKey(forReport, r.name, r.status);
    MatchingIsMembers(forReport, og, sort, goals, r.name, r.status);
    CollapsedGoal(forReport, og, sort, Matching(goals, forReport, r.name, r.status));
  }

  lemma IdsListed<R>(og: Grouper<Objective, R, Key>, r: ReducedGoal<R>, goals: seq<Goal>, forReport: bool)
    requires GoalOf(og, r, Matching(goals, forReport, r.name, r.status))
    ensures forall id :: id in r.goalIds <==>
              exists g :: g in goals && g.id == id && SameGoal(forReport, r.name, r.status, g.name, g.status)
  {
    var gs := Matching(goals, forReport, r.name, r.status);
    InMatching(goals, forReport, r.name, r.status);
    forall id | id in r.goalIds ensures exists g :: g in gs && g.id == id {
      var k :| 0 <= k < |gs| && r.goalIds[k] == id;
      assert EntriesOf(r, gs[k], k);
    }
    forall g | g in gs ensures g.id in r.goalIds {
      var k :| 0 <= k < |gs| && gs[k] == g;
      assert EntriesOf(r, gs[k], k);
    }
  }

  /** Every input goal id is listed exactly as often as it came in. */
  lemma {:induction false} GoalIdsConserved<R(!new)>(goals: seq<Goal>, forReport: bool, og: Grouper<Objective, R, Key>,
                                                     sort: seq<R> -> seq<R>)
    ensures Sum(GroupAll(GoalGrouper(forReport, og, sort), [], goals), (r: ReducedGoal<R>) => multiset(r.goalIds)) ==
            Sum(goals, (g: Goal) => multiset{g.id})
  {
    GroupingConserves(GoalGrouper(forReport, og, sort), [], goals,
                      (r: ReducedGoal<R>) => multiset(r.goalIds), (g: Goal) => multiset{g.id});
  }

  function OwnId(o: Objective): multiset<int> {
    multiset{o.id}
  }

  function OwnIds(g: Goal): multiset<int> {
    Sum(g.objectives, OwnId)
  }

  /** The ids listed by the objectives of one reduced goal. */
  function ObjectiveIds<R>(ids: R -> multiset<int>): ReducedGoal<R> -> multiset<int> {
    (r: ReducedGoal<R>) => Sum(r.objectives, ids)
  }

  /** However goals and objectives are merged and sorted, every input objective id is listed as often as it came in. */
  lemma {:induction false} ObjectiveIdsConserved<R(!new)>(
      goals: seq<Goal>, forReport: bool, og: Grouper<Objective, R, Key>, sort: seq<R> -> seq<R>,
      ids: R -> multiset<int>)
    requires Permutes(sort) && Conserves(og, ids, OwnId)
    ensures Sum(GroupAll(GoalGrouper(forReport, og, sort), [], goals), ObjectiveIds(ids)) == Sum(goals, OwnIds)
  {
    var s, part := GoalGrouper(forReport, og, sort), ObjectiveIds(ids);
    forall g ensures part(s.make(g)) == OwnIds(g) {
      ReducedObjectivesConserve(og, sort, [], g.objectives, ids);
    }
    forall r, g ensures part(s.absorb(r, g)) == part(r) + OwnIds(g) {
      ReducedObjectivesConserve(og, sort, r.objectives, g.objectives, ids);
    }
    GroupingConserves(s, [], goals, part, OwnIds);
  }

  lemma ReducedObjectivesConserve<R(!new)>(og: Grouper<Objective, R, Key>, sort: seq<R> -> seq<R>, current: seq<R>,
                                           added: seq<Objective>, ids: R -> multiset<int>)
    requires Permutes(sort) && Conserves(og, ids, OwnId)
    ensures Sum(ReduceObjectives(og, sort, current, added), ids) == Sum(current, ids) + Sum(added, OwnId)
  {
    GroupingConserves(og, current, added, ids, OwnId);
    SumPermuted(sort(GroupAll(og, current, added)), GroupAll(og, current, added), ids);
  }

  /** Both objective reducers list ids this way. */
  lemma ReducersConserveIds()
    ensures Conserves(RTR, (r: RtrObjective) => multiset(r.ids), OwnId)
    ensures Conserves(REPORT, (r: ReportObjective) => multiset(r.ids), OwnId)
  {
  }

  /** The objectives that count as the same on a report: trimmed title, and the report's status where it gives one. */
  function ReportMatching(os: seq<Objective>, title: string, status: string): seq<Objective> {
    if os == [] then []
    else
      var earlier, o := ReportMatching(os[..|os| - 1], title, status), os[|os| - 1];
      if Trim(o.title) == Trim(title) &&
         status == (if o.aros != [] && o.aros[0].status != "" then o.aros[0].status else o.status)
      then earlier + [o] else earlier
  }

  /** The objectives that count as the same on the RTR: trimmed title and their own status. */
  function RtrMatching(os: seq<Objective>, title: string, status: string): seq<Objective> {
    if os == [] then []
    else
      var earlier, o := RtrMatching(os[..|os| - 1], title, status), os[|os| - 1];
      if Trim(o.title) == Trim(title) && status == o.status then earlier + [o] else earlier
  }

  lemma {:induction false} ReportMembers(os: seq<Objective>, title: string, status: string)
    ensures Members(REPORT, os, (Trim(title), status)) == ReportMatching(os, title, status)
  {
    if os != [] { ReportMembers(os[..|os| - 1], title, status); }
  }

  lemma {:induction false} RtrMembers(os: seq<Objective>, title: string, status: string)
    ensures Members(RTR, os, (Trim(title), status)) == RtrMatching(os, title, status)
  {
    if os != [] { RtrMembers(os[..|os| - 1], title, status); }
  }

  /** One report objective is made of its objectives: ids in order, relations by key, citations merged. */
  ghost predicate ReportOf(o: ReportObjective, os: seq<Objective>) {
    os != [] && o.title == Trim(os[0].title) && o.ids == Ids(os) && RelationsOf(o, os) &&
    o.files == (if |os| == 1 then Gather(os, Files) else UniqBy(Gather(os, Files), RelatedKey)) &&
    (o.createdHere <==> AnyCreatedHere(os)) && o.citations == NullIfEmpty(Merge(Gather(os, Cited)))
  }

  ghost predicate RtrOf(o: RtrObjective, os: seq<Objective>) {
    os != [] && o.title == os[0].title && o.ids == Ids(os) && o.recipientIds == Gather(os, Recipients) &&
    o.activityReports == Gather(os[1..], Reports)
  }

  lemma {:induction false} CollapsedReport(os: seq<Objective>)
    requires os != []
    ensures ReportOf(Collapse(REPORT, os), os)
  {
    CollapsedIds(os);
    CollapsedTitle(os);
    CollapsedCreatedHere(os);
    CollapsedRelations(os);
    CollapsedCitations(os);
    if |os| == 1 {
      GatherOne(os, Files);
    } else {
      CollapsedFiles(os);
    }
  }

  lemma {:induction false} CollapsedTitle(os: seq<Objective>)
    requires os != []
    ensures Collapse(REPORT, os).title == Trim(os[0].title) && Collapse(RTR, os).title == os[0].title
  {
    if |os| > 1 { CollapsedTitle(os[..|os| - 1]); }
  }

  /** No two have the same trimmed title and status, each is made of all that have its own, and none is left out. */
  ghost predicate ReportRepresents(objectives: seq<ReportObjective>, all: seq<Objective>) {
    (forall i, j :: 0 <= i < j < |objectives| ==>
       Trim(objectives[i].title) != Trim(objectives[j].title) || objectives[i].status != objectives[j].status) &&
    (forall o :: o in objectives ==> ReportOf(o, ReportMatching(all, o.title, o.status))) &&
    forall x :: x in all ==> exists o :: o in objectives && x in ReportMatching(all, o.title, o.status)
  }

  lemma ReportObjectives(objectives: seq<ReportObjective>, all: seq<Objective>)
    requires Represents(REPORT, objectives, all)
    ensures ReportRepresents(objectives, all)
  {
    forall i, j | 0 <= i < j < |objectives|
      ensures Trim(objectives[i].title) != Trim(objectives[j].title) || objectives[i].status != objectives[j].status
    {
      assert REPORT.groupKey(objectives[i]) != REPORT.groupKey(objectives[j]);
    }
    forall o | o in objectives ensures ReportOf(o, ReportMatching(all, o.title, o.status)) {
      ObjectiveOf(REPORT, objectives, all, o);
      ReportMembers(all, o.title, o.status);
      CollapsedReport(Members(REPORT, all, REPORT.groupKey(o)));
    }
    forall x | x in all ensures exists o :: o in objectives && x in ReportMatching(all, o.title, o.status) {
      var i :| 0 <= i < |objectives| && REPORT.groupKey(objectives[i]) == REPORT.key(x);
      ReportMembers(all, objectives[i].title, objectives[i].status);
      assert objectives[i] in objectives;
    }
  }

  /**
    On a report: the objectives of each reduced goal are distinct by trimmed title and status, and each is made of
    exactly the goals' objectives with its title and status.
   */
  lemma {:induction false} ReportReduced(goals: seq<Goal>, sort: seq<ReportObjective> -> seq<ReportObjective>)
    requires Permutes(sort)
    ensures forall r :: r in GroupAll(GoalGrouper(true, REPORT, sort), [], goals) ==>
              ReportRepresents(r.objectives, AllObjectives(Matching(goals, true, r.name, r.status)))
  {
    GroupersLawful();
    ReducePartitions(goals, true, REPORT, sort);
    forall r | r in GroupAll(GoalGrouper(true, REPORT, sort), [], goals)
      ensures ReportRepresents(r.objectives, AllObjectives(Matching(goals, true, r.name, r.status)))
    {
      ReportObjectives(r.objectives, AllObjectives(Matching(goals, true, r.name, r.status)));
    }
  }

  ghost predicate RtrRepresents(objectives: seq<RtrObjective>, all: seq<Objective>) {
    (forall i, j :: 0 <= i < j < |objectives| ==>
       Trim(objectives[i].title) != Trim(objectives[j].title) || objectives[i].status != objectives[j].status) &&
    (forall o :: o in objectives ==> RtrOf(o, RtrMatching(all, o.title, o.status))) &&
    forall x :: x in all ==> exists o :: o in objectives && x in RtrMatching(all, o.title, o.status)
  }

  lemma RtrObjectives(objectives: seq<RtrObjective>, all: seq<Objective>)
    requires Represents(RTR, objectives, all)
    ensures RtrRepresents(objectives, all)
  {
    forall i, j | 0 <= i < j < |objectives|
      ensures Trim(objectives[i].title) != Trim(objectives[j].title) || objectives[i].status != objectives[j].status
    {
      assert RTR.groupKey(objectives[i]) != RTR.groupKey(objectives[j]);
    }
    forall o | o in objectives ensures RtrOf(o, RtrMatching(all, o.title, o.status)) {
      ObjectiveOf(RTR, objectives, all, o);
      RtrMembers(all, o.title, o.status);
      CollapsedRtr(Members(RTR, all, RTR.groupKey(o)));
      CollapsedTitle(Members(RTR, all, RTR.groupKey(o)));
    }
    forall x | x in all ensures exists o :: o in objectives && x in RtrMatching(all, o.title, o.status) {
      var i :| 0 <= i < |objectives| && RTR.groupKey(objectives[i]) == RTR.key(x);
      RtrMembers(all, objectives[i].title, objectives[i].status);
      assert objectives[i] in objectives;
    }
  }

  /** On the RTR: the same, by the objectives' own status; ids and recipients are listed once each, in input order. */
  lemma {:induction false} RtrReduced(goals: seq<Goal>, sort: seq<RtrObjective> -> seq<RtrObjective>)
    requires Permutes(sort)
    ensures forall r :: r in GroupAll(GoalGrouper(false, RTR, sort), [], goals) ==>
              RtrRepresents(r.objectives, AllObjectives(Matching(goals, false, r.name, r.status)))
  {
    GroupersLawful();
    ReducePartitions(goals, false, RTR, sort);
    forall r | r in GroupAll(GoalGrouper(false, RTR, sort), [], goals)
      ensures RtrRepresents(r.objectives, AllObjectives(Matching(goals, false, r.name, r.status)))
    {
      RtrObjectives(r.objectives, AllObjectives(Matching(goals, false, r.name, r.status)));
    }
  }

  lemma ObjectiveOf<R>(og: Grouper<Objective, R, Key>, rs: seq<R>, os: seq<Objective>, r: R)
    requires Represents(og, rs, os) && r in rs
    ensures Members(og, os, og.groupKey(r)) != [] && r == Collapse(og, Members(og, os, og.groupKey(r)))
  {
  }
}
