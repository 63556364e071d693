/** What the region sync does to group memberships (src/lib/updateGrantsRecipients.js), on the values of the tables. */
module RegionSync {
  import opened Prelude
  import opened OrderedMap
  import opened GrantReplacement

  /** SQL's three truth values. */
  datatype Tri = True | False | Unknown

  /** A nullable column. */
  type Column = Option<string>

  datatype Grant = Grant(status: Column, geographicRegion: Column)

  datatype Group = Group(id: nat, name: string)

  function Truth(b: bool): Tri {
    if b then True else False
  }

  function Or(a: Tri, b: Tri): Tri {
    if a.True? || b.True? then True else if a.False? && b.False? then False else Unknown
  }

  function And(a: Tri, b: Tri): Tri {
    if a.False? || b.False? then False else if a.True? && b.True? then True else Unknown
  }

  function Equals(a: Column, value: string): Tri {
    if a.None? then Unknown else Truth(a.value == value)
  }

  function NotEquals(a: Column, value: string): Tri {
    if a.None? then Unknown else Truth(a.value != value)
  }

  function IsDistinctFrom(a: Column, value: string): Tri {
    Truth(a != Some(value))
  }

  function NotIn(id: int, ids: seq<int>): Tri {
    Truth(id !in ids)
  }

  /** The list for NOT IN may not be empty. */
  function SafeIds(replacing: seq<nat>): seq<int> {
    if replacing != [] then seq(|replacing|, i requires 0 <= i < |replacing| => replacing[i] as int) else [-1]
  }

  /** The WHERE clause of the SELECT, without its NOT EXISTS. */
  function BelongsClause(g: Grant, region: string): Tri {
    And(Equals(g.status, "Active"), Equals(g.geographicRegion, region))
  }

  /** The WHERE clause of the DELETE's subquery. */
  function StaleClause(id: nat, g: Grant, region: string, replacing: seq<nat>): Tri {
    And(Or(NotEquals(g.status, "Active"), IsDistinctFrom(g.geographicRegion, region)), NotIn(id, SafeIds(replacing)))
  }

  predicate Belongs(g: Grant, region: string) {
    g == Grant(Some("Active"), Some(region))
  }

  /** A row that is deleted; a null status alone does not make it stale. */
  predicate Stale(id: nat, g: Grant, region: string, replacing: seq<nat>) {
    id !in replacing && ((g.status.Some? && g.status.value != "Active") || g.geographicRegion != Some(region))
  }

  /** What the two WHERE clauses select. */
  lemma ClausesSelect(id: nat, g: Grant, region: string, replacing: seq<nat>)
    ensures BelongsClause(g, region) == True <==> Belongs(g, region)
    ensures StaleClause(id, g, region, replacing) == True <==> Stale(id, g, region, replacing)
  {
  }

  // ---------- the groups that are synced ----------

  /** `new Map(regionGroups.map((g) => [g.name, g.id]))`. */
  function RegionMap(groups: seq<Group>): seq<(string, nat)> {
    if groups == [] then []
    else
      var last := groups[|groups| - 1];
      Set(RegionMap(groups[..|groups| - 1]), last.name, last.id)
  }

  ghost predicate DistinctIds(groups: seq<Group>) {
    forall i, j :: 0 <= i < j < |groups| ==> groups[i].id != groups[j].id
  }

  /** The last group of its name. */
  ghost predicate LastOfName(groups: seq<Group>, g: Group) {
    exists i :: 0 <= i < |groups| && groups[i] == g && forall j :: i < j < |groups| ==> groups[j].name != g.name
  }

  lemma {:induction false} RegionMapHolds(groups: seq<Group>)
    ensures DistinctKeys(RegionMap(groups))
    ensures forall e :: e in RegionMap(groups) <==> LastOfName(groups, Group(e.1, e.0))
  {
    if groups != [] {
      var n := |groups| - 1;
      var m, last := RegionMap(groups[..n]), groups[n];
      RegionMapHolds(groups[..n]);
      SetKeepsDistinct(m, last.name, last.id);
      forall e: (string, nat) ensures e in RegionMap(groups) <==> LastOfName(groups, Group(e.1, e.0)) {
        SetHolds(m, last.name, last.id, e);
        LastOfNameSnoc(groups[..n], last, Group(e.1, e.0));
        assert groups == groups[..n] + [last];
      }
    }
  }

  lemma SetHolds(m: seq<(string, nat)>, name: string, id: nat, e: (string, nat))
    requires DistinctKeys(m)
    ensures e in Set(m, name, id) <==> if e.0 == name then e.1 == id else e in m
  {
    var i, r := Index(m, name), Set(m, name, id);
    assert r[i] == (name, id);
    if e in m && e.0 != name {
      var k :| 0 <= k < |m| && m[k] == e;
      assert r[k] == e;
    }
  }

  lemma LastOfNameSnoc(groups: seq<Group>, last: Group, g: Group)
    ensures LastOfName(groups + [last], g) <==> if g.name == last.name then g == last else LastOfName(groups, g)
  {
    var all := groups + [last];
    if LastOfName(all, g) {
      var i :| 0 <= i < |all| && all[i] == g && forall j :: i < j < |all| ==> all[j].name != g.name;
      assert i < |groups| ==> all[|groups|].name != g.name;
      if i < |groups| {
        assert forall j :: i < j < |groups| ==> all[j] == groups[j];
      }
    }
    if g == last {
      assert all[|groups|] == g;
    }
    if g.name != last.name && LastOfName(groups, g) {
      var i :| 0 <= i < |groups| && groups[i] == g && forall j :: i < j < |groups| ==> groups[j].name != g.name;
      assert all[i] == g;
    }
  }

  /** The region a group stands for. */
  function RegionOf(regions: seq<(string, nat)>, groupId: nat): Column {
    if regions == [] then None
    else
      var last := regions[|regions| - 1];
      if last.1 == groupId then Some(last.0) else RegionOf(regions[..|regions| - 1], groupId)
  }

  ghost predicate DistinctGroups(regions: seq<(string, nat)>) {
    forall i, j :: 0 <= i < j < |regions| ==> regions[i].1 != regions[j].1
  }

  lemma {:induction false} RegionOfEntry(regions: seq<(string, nat)>, groupId: nat)
    requires DistinctGroups(regions)
    ensures forall name :: RegionOf(regions, groupId) == Some(name) <==> (name, groupId) in regions
  {
    if regions != [] {
      var n := |regions| - 1;
      RegionOfEntry(regions[..n], groupId);
      assert regions == regions[..n] + [regions[n]];
    }
  }

  lemma MapGroupsDistinct(groups: seq<Group>)
    requires DistinctIds(groups)
    ensures DistinctGroups(RegionMap(groups))
  {
    var m := RegionMap(groups);
    RegionMapHolds(groups);
    forall i, j | 0 <= i < j < |m| ensures m[i].1 != m[j].1 {
      assert m[i] in m && m[j] in m;
      assert LastOfName(groups, Group(m[i].1, m[i].0)) && LastOfName(groups, Group(m[j].1, m[j].0));
    }
  }

  // ---------- the outcome ----------

  type Grants = map<nat, Grant>

  predicate StaleRow(grants: Grants, regions: seq<(string, nat)>, replacing: seq<nat>, m: Membership) {
    var region := RegionOf(regions, m.groupId);
    region.Some? && m.grantId in grants && Stale(m.grantId, grants[m.grantId], region.value, replacing)
  }

  predicate MissingPair(before: Table, grants: Grants, regions: seq<(string, nat)>, m: Membership) {
    var region := RegionOf(regions, m.groupId);
    region.Some? && m.grantId in grants && Belongs(grants[m.grantId], region.value) && m !in before.Values
  }

  function Fresh(before: Table, grants: Grants, regions: seq<(string, nat)>, replacing: seq<nat>): Table {
    map id | id in before && !StaleRow(grants, regions, replacing, before[id]) :: before[id]
  }

  /** The stale rows are gone, all other rows are as they were, and each missing pair was inserted once. */
  ghost predicate Synced(before: Table, grants: Grants, regions: seq<(string, nat)>, replacing: seq<nat>, added: Table,
                         after: Table) {
    && added.Keys !! before.Keys
    && after == Fresh(before, grants, regions, replacing) + added
    && NoPairTwice(added)
    && forall m :: m in added.Values <==> MissingPair(before, grants, regions, m)
  }

  lemma InSynced(before: Table, grants: Grants, regions: seq<(string, nat)>, replacing: seq<nat>, added: Table,
                 after: Table, m: Membership)
    requires Synced(before, grants, regions, replacing, added, after)
    ensures m in after.Values <==>
            (m in before.Values && !StaleRow(grants, regions, replacing, m)) || MissingPair(before, grants, regions, m)
  {
  }

  /**
    A synced group ends with every Active grant of its region and, besides, exactly the old members that are not
    stale.  So a member with a known status that is not a replacing grant is Active and in the region.  Other groups
    keep theirs.
   */
  lemma GroupMatchesRegion(before: Table, grants: Grants, regions: seq<(string, nat)>, replacing: seq<nat>,
                           added: Table, after: Table, groupId: nat, x: nat)
    requires Synced(before, grants, regions, replacing, added, after) && x in grants
    ensures match RegionOf(regions, groupId)
            case None => x in Members(after, groupId) <==> x in Members(before, groupId)
            case Some(region) =>
              (x in Members(after, groupId) <==>
                 Belongs(grants[x], region) ||
                     (x in Members(before, groupId) && !Stale(x, grants[x], region, replacing))) &&
              (x in Members(after, groupId) && grants[x].status.Some? && x !in replacing ==> Belongs(grants[x], region))
  {
    InSynced(before, grants, regions, replacing, added, after, Membership(groupId, x));
    MembersAre(before, groupId, x);
    MembersAre(after, groupId, x);
  }

  /** A second sync on the same grants adds and removes nothing. */
  lemma SyncSettles(before: Table, grants: Grants, regions: seq<(string, nat)>, replacing: seq<nat>, added: Table,
                    middle: Table, again: Table, after: Table)
    requires Synced(before, grants, regions, replacing, added, middle)
    requires Synced(middle, grants, regions, replacing, again, after)
    ensures after == middle && again == map[]
  {
    forall m ensures !MissingPair(middle, grants, regions, m) {
      InSynced(before, grants, regions, replacing, added, middle, m);
    }
    forall id | id in middle ensures !StaleRow(grants, regions, replacing, middle[id]) {
      if id in added { assert middle[id] in added.Values; }
    }
    assert Fresh(middle, grants, regions, replacing) == middle;
  }

  /** The sync inserts no pair that is there already. */
  lemma SyncDuplicatesNothing(before: Table, grants: Grants, regions: seq<(string, nat)>, replacing: seq<nat>,
                              added: Table, after: Table)
    requires Synced(before, grants, regions, replacing, added, after) && NoPairTwice(before)
    ensures NoPairTwice(after)
  {
    forall i, j | i in after && j in after && i != j ensures after[i] != after[j] {
      if i in added { assert after[i] in added.Values; }
      if j in added { assert after[j] in added.Values; }
    }
  }

  /** Grants brought in by the replacement loop survive the sync that follows it, whatever their status and region. */
  lemma ReplacementsSurviveSync(start: Table, affected: seq<Row>, rs: seq<Replacement>, created: Table, before: Table,
                                grants: Grants, regions: seq<(string, nat)>, replacing: seq<nat>, added: Table,
                                after: Table)
    requires IsAnswer(start, rs, affected) && Outcome(start, affected, rs, created, before)
    requires Synced(before, grants, regions, replacing, added, after)
    requires forall r :: r in rs ==> r.replacing in replacing
    ensures forall id :: id in created ==> id in after && after[id] == created[id]
  {
    forall id | id in created ensures id in after && after[id] == created[id] {
      assert created[id] in NewPairs(affected, rs);
      assert created[id].grantId in replacing;
    }
  }
}
