/** The GroupGrants table and the two passes that maintain it (src/lib/updateGrantsRecipients.js). */
module GroupGrants {
  import opened Prelude
  import opened Sequences
  import opened OrderedMap
  import opened GrantReplacement
  import opened RegionSync

  /** The replacing grants of one grant without repetition, in the order a Set keeps. */
  method UniqueReplacing(rs: seq<Replacement>, grant: nat) returns (unique: seq<nat>)
    ensures forall i, j :: 0 <= i < j < |unique| ==> unique[i] != unique[j]
    ensures forall x :: x in unique <==> Replacement(grant, x) in rs
  {
    unique := [];
    for i := 0 to |rs|
      invariant forall j, k :: 0 <= j < k < |unique| ==> unique[j] != unique[k]
      invariant forall x :: x in unique <==> Replacement(grant, x) in rs[..i]
    {
      if rs[i].replaced == grant && rs[i].replacing !in unique {
        unique := unique + [rs[i].replacing];
      }
      assert rs[..i + 1] == rs[..i] + [rs[i]];
    }
    assert rs[..|rs|] == rs;
  }

  class GroupGrantTable {
    var rows: Table
    var nextId: nat

    ghost predicate Valid()
      reads this
    {
      forall id :: id in rows ==> id < nextId
    }

    constructor ()
      ensures Valid() && rows == map[]
    {
      rows, nextId := map[], 0;
    }

    method Create(m: Membership) returns (id: nat)
      requires Valid()
      modifies this
      ensures Valid() && id == old(nextId) && nextId == id + 1 && id !in old(rows) && rows == old(rows)[id := m]
    {
      id := nextId;
      rows, nextId := rows[id := m], nextId + 1;
    }

    method Destroy(id: nat)
      requires Valid()
      modifies this`rows
      ensures Valid() && rows == old(rows) - {id}
    {
      rows := rows - {id};
    }

    /** Creates the pairs of one fetched row that have not been created before. */
    method CreateReplacing(groupId: nat, unique: seq<nat>, createdGrants: set<Membership>)
      returns (createdGrants': set<Membership>, ghost extra: Table)
      requires Valid()
      modifies this
      ensures Valid() && nextId >= old(nextId)
      ensures rows == old(rows) + extra && forall id :: id in extra ==> old(nextId) <= id < nextId
      ensures NoPairTwice(extra) && extra.Values !! createdGrants && createdGrants' == createdGrants + extra.Values
      ensures createdGrants' == createdGrants + Pairs(groupId, unique)
    {
      createdGrants', extra := createdGrants, map[];
      for i := 0 to |unique|
        invariant Valid() && nextId >= old(nextId)
        invariant rows == old(rows) + extra && forall id :: id in extra ==> old(nextId) <= id < nextId
        invariant NoPairTwice(extra) && extra.Values !! createdGrants && createdGrants' == createdGrants + extra.Values
        invariant createdGrants' == createdGrants + Pairs(groupId, unique[..i])
      {
        var key := Membership(groupId, unique[i]);
        assert unique[..i + 1] == unique[..i] + [unique[i]];
        assert Pairs(groupId, unique[..i + 1]) == Pairs(groupId, unique[..i]) + {key};
        if key !in createdGrants' {
          var id := Create(key);
          ValuesOfInsert(extra, id, key);
          extra := extra[id := key];
          createdGrants' := createdGrants' + {key};
        }
      }
      assert unique[..|unique|] == unique;
    }

    /** One turn of the loop: the row is destroyed and its pairs are created. */
    method ReplaceRow(rs: seq<Replacement>, g: Row, createdGrants: set<Membership>)
      returns (createdGrants': set<Membership>, ghost unique: seq<nat>, ghost extra: Table)
      requires Valid() && g.id in rows
      modifies this
      ensures Valid() && nextId >= old(nextId)
      ensures forall x :: x in unique <==> Replacement(g.member.grantId, x) in rs
      ensures rows == old(rows) - {g.id} + extra && forall id :: id in extra ==> old(nextId) <= id < nextId
      ensures extra.Keys !! old(rows).Keys
      ensures NoPairTwice(extra) && extra.Values !! createdGrants && createdGrants' == createdGrants + extra.Values
      ensures createdGrants' == createdGrants + Pairs(g.member.groupId, unique)
    {
      var replacing := UniqueReplacing(rs, g.member.grantId);
      Destroy(g.id);
      createdGrants', extra := CreateReplacing(g.member.groupId, replacing, createdGrants);
      unique := replacing;
    }

    /** The replacement loop over the rows the query returned. */
    method ReplaceGrants(rs: seq<Replacement>, affected: seq<Row>) returns (ghost created: Table)
      requires Valid() && IsAnswer(rows, rs, affected)
      modifies this
      ensures Valid() && Outcome(old(rows), affected, rs, created, rows)
    {
      var createdGrants: set<Membership> := {};
      created := map[];
      for i := 0 to |affected|
        invariant Valid() && nextId >= old(nextId)
        invariant Outcome(old(rows), affected[..i], rs, created, rows) && createdGrants == created.Values
      {
        RowIsThere(old(rows), affected, rs, i, created, rows);
        ghost var was, unique, extra := rows, [], map[];
        createdGrants, unique, extra := ReplaceRow(rs, affected[i], createdGrants);
        OutcomeNext(old(rows), affected, rs, i, unique, created, was, extra);
        created := created + extra;
      }
      TakeAll(affected);
    }

    /** SELECT and bulkCreate for one region; the order in which rows get their ids is the database's. */
    method AddMissing(grants: Grants, region: string, groupId: nat) returns (ghost added: Table)
      requires Valid()
      modifies this
      ensures Valid() && nextId >= old(nextId)
      ensures rows == old(rows) + added && forall id :: id in added ==> old(nextId) <= id < nextId
      ensures NoPairTwice(added)
      ensures forall m :: m in added.Values <==> MissingPair(old(rows), grants, [(region, groupId)], m)
    {
      var missing := set x | x in grants && BelongsClause(grants[x], region) == True &&
          Membership(groupId, x) !in rows.Values;
      MissingSet(rows, grants, region, groupId, missing);
      added := map[];
      ghost var done: set<nat> := {};
      while missing != {}
        invariant Valid() && nextId >= old(nextId) && done !! missing
        invariant rows == old(rows) + added && forall id :: id in added ==> old(nextId) <= id < nextId
        invariant NoPairTwice(added)
        invariant forall m :: m in added.Values <==> m.groupId == groupId && m.grantId in done
        invariant forall m :: MissingPair(old(rows), grants, [(region, groupId)], m) <==>
                    m.groupId == groupId && m.grantId in done + missing
        decreases missing
      {
        var x :| x in missing;
        var id := Create(Membership(groupId, x));
        ValuesOfInsert(added, id, Membership(groupId, x));
        added := added[id := Membership(groupId, x)];
        missing, done := missing - {x}, done + {x};
      }
    }

    /** The DELETE for one region. */
    method DeleteStale(grants: Grants, region: string, groupId: nat, replacing: seq<nat>)
      requires Valid()
      modifies this`rows
      ensures Valid() && rows == Fresh(old(rows), grants, [(region, groupId)], replacing)
    {
      forall x | x in grants { ClausesSelect(x, grants[x], region, replacing); }
      forall id | id in rows { RegionOfOne(region, groupId, rows[id].groupId); }
      rows := map id | id in rows &&
                !(rows[id].groupId == groupId && rows[id].grantId in grants &&
                  StaleClause(rows[id].grantId, grants[rows[id].grantId], region, replacing) == True) :: rows[id];
    }

    /** One turn of the loop: what is missing is inserted, what is stale deleted. */
    method SyncRegion(grants: Grants, regions: seq<(string, nat)>, i: nat, replacing: seq<nat>, ghost before: Table,
                      ghost added: Table)
      returns (ghost added': Table)
      requires Valid() && DistinctGroups(regions) && i < |regions|
      requires Synced(before, grants, regions[..i], replacing, added, rows)
      requires forall id :: id in before || id in added ==> id < nextId
      modifies this
      ensures Valid() && Synced(before, grants, regions[..i + 1], replacing, added', rows)
      ensures forall id :: id in before || id in added' ==> id < nextId
    {
      var (region, groupId) := regions[i];
      ghost var was := rows;
      ghost var more := AddMissing(grants, region, groupId);
      DeleteStale(grants, region, groupId, replacing);
      SyncNext(before, grants, regions, replacing, i, added, was, more, rows);
      added' := added + more;
    }

    /** syncGeoRegionGroups. */
    method SyncRegions(grants: Grants, groups: seq<Group>, replacing: seq<nat>) returns (ghost added: Table)
      requires Valid() && DistinctIds(groups)
      modifies this
      ensures Valid() && Synced(old(rows), grants, RegionMap(groups), replacing, added, rows)
    {
      var regions := RegionMap(groups);
      MapGroupsDistinct(groups);
      added := map[];
      SyncedAtStart(rows, grants, replacing);
      for i := 0 to |regions|
        invariant Valid() && forall id :: id in old(rows) || id in added ==> id < nextId
        invariant Synced(old(rows), grants, regions[..i], replacing, added, rows)
      {
        added := SyncRegion(grants, regions, i, replacing, old(rows), added);
      }
      TakeAll(regions);
    }
  }

  lemma SyncedAtStart(rows: Table, grants: Grants, replacing: seq<nat>)
    ensures Synced(rows, grants, [], replacing, map[], rows)
  {
    assert Fresh(rows, grants, [], replacing) == rows;
  }

  lemma NewPairsNext(affected: seq<Row>, rs: seq<Replacement>, i: nat, unique: seq<nat>)
    requires i < |affected| && forall x :: x in unique <==> Replacement(affected[i].member.grantId, x) in rs
    ensures NewPairs(affected[..i + 1], rs) ==
            NewPairs(affected[..i], rs) + set x | x in unique :: Membership(affected[i].member.groupId, x)
  {
  }

  /** One more fetched row. */
  lemma OutcomeNext(before: Table, affected: seq<Row>, rs: seq<Replacement>, i: nat, unique: seq<nat>, created: Table,
                    was: Table, extra: Table)
    requires i < |affected| && affected[i].id in before
    requires forall x :: x in unique <==> Replacement(affected[i].member.grantId, x) in rs
    requires Outcome(before, affected[..i], rs, created, was)
    requires extra.Keys !! before.Keys && extra.Keys !! was.Keys && NoPairTwice(extra)
    requires extra.Values !! created.Values
    requires created.Values + extra.Values == created.Values + Pairs(affected[i].member.groupId, unique)
    ensures Outcome(before, affected[..i + 1], rs, created + extra, was - {affected[i].id} + extra)
    ensures (created + extra).Values == created.Values + extra.Values
  {
    NewPairsNext(affected, rs, i, unique);
    RowsNext(before, affected, i, created, extra);
    assert created.Keys <= was.Keys;
    ValuesOfUnion(created, extra);
    UnionNoPairTwice(created, extra);
  }

  lemma RowsNext(before: Table, affected: seq<Row>, i: nat, created: Table, extra: Table)
    requires i < |affected| && affected[i].id in before && created.Keys !! before.Keys
    ensures Kept(before, affected[..i]) + created - {affected[i].id} + extra ==
            Kept(before, affected[..i + 1]) + (created + extra)
  {
    assert affected[..i + 1] == affected[..i] + [affected[i]];
    assert Kept(before, affected[..i + 1]) == Kept(before, affected[..i]) - {affected[i].id};
  }

  lemma RowIsThere(before: Table, affected: seq<Row>, rs: seq<Replacement>, i: nat, created: Table, rows: Table)
    requires IsAnswer(before, rs, affected) && i < |affected| && Outcome(before, affected[..i], rs, created, rows)
    ensures affected[i].id in rows && affected[i].id in before
  {
  }

  lemma UnionNoPairTwice(a: Table, b: Table)
    requires NoPairTwice(a) && NoPairTwice(b) && a.Values !! b.Values
    ensures NoPairTwice(a + b)
  {
    forall i, j | i in a + b && j in a + b && i != j ensures (a + b)[i] != (a + b)[j] {
      assert i in b ==> b[i] in b.Values;
      assert j in b ==> b[j] in b.Values;
    }
  }

  lemma MissingSet(rows: Table, grants: Grants, region: string, groupId: nat, missing: set<nat>)
    requires missing == set x | x in grants && BelongsClause(grants[x], region) == True &&
             Membership(groupId, x) !in rows.Values
    ensures forall m :: MissingPair(rows, grants, [(region, groupId)], m) <==>
            m.groupId == groupId && m.grantId in missing
  {
    forall m: Membership
      ensures MissingPair(rows, grants, [(region, groupId)], m) <==> m.groupId == groupId && m.grantId in missing
    {
      RegionOfOne(region, groupId, m.groupId);
      if m.grantId in grants { ClausesSelect(m.grantId, grants[m.grantId], region, []); }
      assert m == Membership(m.groupId, m.grantId);
    }
  }

  lemma RegionOfOne(region: string, groupId: nat, g: nat)
    ensures RegionOf([(region, groupId)], g) == if g == groupId then Some(region) else None
  {
  }

  lemma RegionOfNext(regions: seq<(string, nat)>, i: nat, g: nat)
    requires DistinctGroups(regions) && i < |regions|
    ensures RegionOf(regions[..i + 1], g) == if g == regions[i].1 then Some(regions[i].0) else RegionOf(regions[..i], g)
    ensures g == regions[i].1 ==> RegionOf(regions[..i], g).None?
  {
    assert regions[..i + 1][..i] == regions[..i];
    RegionOfEntry(regions[..i], g);
  }

  function Pairs(groupId: nat, grants: seq<nat>): set<Membership> {
    set x | x in grants :: Membership(groupId, x)
  }

  lemma ValuesOfInsert(rows: Table, id: nat, m: Membership)
    requires id !in rows
    ensures rows[id := m].Values == rows.Values + {m}
  {
    ValuesOfUnion(rows, map[id := m]);
    assert rows[id := m] == rows + map[id := m];
  }

  lemma ValuesOfUnion(a: Table, b: Table)
    requires a.Keys !! b.Keys
    ensures (a + b).Values == a.Values + b.Values
  {
  }

  /** One more region: the other groups' rows are not touched by it, nor were its own touched before. */
  lemma SyncNext(before: Table, grants: Grants, regions: seq<(string, nat)>, replacing: seq<nat>, i: nat, added: Table,
                 was: Table, more: Table, after: Table)
    requires DistinctGroups(regions) && i < |regions|
    requires Synced(before, grants, regions[..i], replacing, added, was)
    requires more.Keys !! before.Keys && more.Keys !! was.Keys && more.Keys !! added.Keys && NoPairTwice(more)
    requires forall m :: m in more.Values <==> MissingPair(was, grants, [regions[i]], m)
    requires after == Fresh(was + more, grants, [regions[i]], replacing)
    ensures Synced(before, grants, regions[..i + 1], replacing, added + more, after)
  {
    NextAdded(before, grants, regions, replacing, i, added, was, more);
    ValuesOfUnion(added, more);
    UnionNoPairTwice(added, more);
    forall id | id in was + more
      ensures StaleRow(grants, [regions[i]], replacing, (was + more)[id]) <==>
              id !in more && id !in added && StaleRow(grants, regions[..i + 1], replacing, before[id])
    {
      NextStale(before, grants, regions, replacing, i, added, was, more, id);
    }
    forall id | id in before && StaleRow(grants, regions[..i], replacing, before[id])
      ensures StaleRow(grants, regions[..i + 1], replacing, before[id])
    {
      RegionOfNext(regions, i, before[id].groupId);
    }
    FreshNext(before, grants, regions[..i], regions[..i + 1], [regions[i]], replacing, added, more);
  }

  /** Deleting pass by pass leaves what deleting at once leaves. */
  lemma FreshNext(before: Table, grants: Grants, done: seq<(string, nat)>, next: seq<(string, nat)>,
                  one: seq<(string, nat)>, replacing: seq<nat>, added: Table, more: Table)
    requires added.Keys !! before.Keys && more.Keys !! before.Keys && more.Keys !! added.Keys
    requires var was := Fresh(before, grants, done, replacing) + added;
             forall id :: id in was + more ==>
               (StaleRow(grants, one, replacing, (was + more)[id]) <==>
                id !in more && id !in added && StaleRow(grants, next, replacing, before[id]))
    requires forall id :: id in before && StaleRow(grants, done, replacing, before[id]) ==>
               StaleRow(grants, next, replacing, before[id])
    ensures Fresh(Fresh(before, grants, done, replacing) + added + more, grants, one, replacing) ==
            Fresh(before, grants, next, replacing) + (added + more)
  {
  }

  /** In a region's own pass, a row is stale iff it was there at the start and is stale for the regions so far. */
  lemma NextStale(before: Table, grants: Grants, regions: seq<(string, nat)>, replacing: seq<nat>, i: nat, added: Table,
                  was: Table, more: Table, id: nat)
    requires DistinctGroups(regions) && i < |regions| && id in was + more && more.Keys !! was.Keys
    requires Synced(before, grants, regions[..i], replacing, added, was)
    requires forall m :: m in more.Values <==> MissingPair(was, grants, [regions[i]], m)
    ensures id in more || id in added || id in before
    ensures StaleRow(grants, [regions[i]], replacing, (was + more)[id]) <==>
            id !in more && id !in added && StaleRow(grants, regions[..i + 1], replacing, before[id])
  {
    var m := (was + more)[id];
    RegionOfOne(regions[i].0, regions[i].1, m.groupId);
    RegionOfNext(regions, i, m.groupId);
    if id in more {
      assert m in more.Values;
    } else if id in added {
      assert m in added.Values;
    }
  }

  lemma NextAdded(before: Table, grants: Grants, regions: seq<(string, nat)>, replacing: seq<nat>, i: nat, added: Table,
                  was: Table, more: Table)
    requires DistinctGroups(regions) && i < |regions|
    requires Synced(before, grants, regions[..i], replacing, added, was)
    requires forall m :: m in more.Values <==> MissingPair(was, grants, [regions[i]], m)
    ensures added.Values !! more.Values
    ensures forall m :: m in added.Values + more.Values <==> MissingPair(before, grants, regions[..i + 1], m)
  {
    forall m: Membership
      ensures m in added.Values + more.Values <==> MissingPair(before, grants, regions[..i + 1], m)
      ensures !(m in added.Values && m in more.Values)
    {
      RegionOfOne(regions[i].0, regions[i].1, m.groupId);
      RegionOfNext(regions, i, m.groupId);
      InSynced(before, grants, regions[..i], replacing, added, was, m);
    }
  }
}
