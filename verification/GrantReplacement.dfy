/** What replacing grants does to group memberships (src/lib/updateGrantsRecipients.js), on the values of the table. */
module GrantReplacement {

  datatype Membership = Membership(groupId: nat, grantId: nat)

  /** GroupGrants by id. */
  type Table = map<nat, Membership>

  datatype Row = Row(id: nat, member: Membership)

  datatype Replacement = Replacement(replaced: nat, replacing: nat)

  ghost predicate IsReplaced(rs: seq<Replacement>, grant: nat) {
    exists r :: r in rs && r.replaced == grant
  }

  /** `affected` lists the rows whose grant is replaced, in whatever order the query returns them. */
  ghost predicate IsAnswer(rows: Table, rs: seq<Replacement>, affected: seq<Row>) {
    && (forall i, j :: 0 <= i < j < |affected| ==> affected[i].id != affected[j].id)
    && (forall a :: a in affected ==> a.id in rows && rows[a.id] == a.member && IsReplaced(rs, a.member.grantId))
    && (forall id :: id in rows && IsReplaced(rs, rows[id].grantId) ==> Row(id, rows[id]) in affected)
  }

  function Kept(rows: Table, affected: seq<Row>): Table {
    map id | id in rows && (forall a :: a in affected ==> a.id != id) :: rows[id]
  }

  /** One pair for every fetched row and every replacement of its grant. */
  function NewPairs(affected: seq<Row>, rs: seq<Replacement>): set<Membership> {
    set a, r | a in affected && r in rs && r.replaced == a.member.grantId :: Membership(a.member.groupId, r.replacing)
  }

  ghost predicate NoPairTwice(rows: Table) {
    forall i, j :: i in rows && j in rows && i != j ==> rows[i] != rows[j]
  }

  /** The fetched rows are gone, all other rows are as they were, and each new pair was inserted once. */
  ghost predicate Outcome(before: Table, affected: seq<Row>, rs: seq<Replacement>, created: Table, after: Table) {
    && created.Keys !! before.Keys
    && after == Kept(before, affected) + created
    && NoPairTwice(created) && created.Values == NewPairs(affected, rs)
  }

  function Members(rows: Table, groupId: nat): set<nat> {
    set id | id in rows && rows[id].groupId == groupId :: rows[id].grantId
  }

  predicate Successor(rs: seq<Replacement>, members: set<nat>, grant: nat) {
    exists r :: r in rs && r.replaced in members && r.replacing == grant
  }

  lemma InAfter(before: Table, affected: seq<Row>, rs: seq<Replacement>, created: Table, after: Table, m: Membership)
    requires IsAnswer(before, rs, affected) && Outcome(before, affected, rs, created, after)
    ensures m in after.Values <==>
            (m in before.Values && !IsReplaced(rs, m.grantId)) || Successor(rs, Members(before, m.groupId), m.grantId)
  {
    if m in after.Values {
      var id :| id in after && after[id] == m;
      if id in created {
        assert m in created.Values;
        NewPairSource(before, affected, rs, m);
      } else {
        assert id in Kept(before, affected) && before[id] == m;
        assert IsReplaced(rs, m.grantId) ==> Row(id, m) in affected;
      }
    }
    if m in before.Values && !IsReplaced(rs, m.grantId) {
      var id :| id in before && before[id] == m;
      assert id in Kept(before, affected);
      assert after[id] == m;
    }
    if Successor(rs, Members(before, m.groupId), m.grantId) {
      NewPairSource(before, affected, rs, m);
      var id :| id in created && created[id] == m;
      assert after[id] == m;
    }
  }

  lemma NewPairSource(before: Table, affected: seq<Row>, rs: seq<Replacement>, m: Membership)
    requires IsAnswer(before, rs, affected)
    ensures m in NewPairs(affected, rs) <==> Successor(rs, Members(before, m.groupId), m.grantId)
  {
  }

  lemma MembersAre(rows: Table, groupId: nat, grant: nat)
    ensures grant in Members(rows, groupId) <==> Membership(groupId, grant) in rows.Values
  {
  }

  /**
    Group by group: every replaced member gives way to all its replacements.  A replacement that is itself replaced is
    there as well, so chains are followed one link at a time.
   */
  lemma MembersReplaced(before: Table, affected: seq<Row>, rs: seq<Replacement>, created: Table, after: Table,
                        groupId: nat)
    requires IsAnswer(before, rs, affected) && Outcome(before, affected, rs, created, after)
    ensures forall x :: x in Members(after, groupId) <==>
              (x in Members(before, groupId) && !IsReplaced(rs, x)) || Successor(rs, Members(before, groupId), x)
    ensures forall a, r :: a in affected && r in rs && r.replaced == a.member.grantId ==>
              a.id !in after && r.replacing in Members(after, a.member.groupId)
    ensures forall id :: id in before && !IsReplaced(rs, before[id].grantId) ==> id in after && after[id] == before[id]
  {
    forall x
      ensures x in Members(after, groupId) <==>
              (x in Members(before, groupId) && !IsReplaced(rs, x)) || Successor(rs, Members(before, groupId), x)
    {
      InAfter(before, affected, rs, created, after, Membership(groupId, x));
      MembersAre(after, groupId, x);
      MembersAre(before, groupId, x);
    }
    forall a, r | a in affected && r in rs && r.replaced == a.member.grantId
      ensures a.id !in after && r.replacing in Members(after, a.member.groupId)
    {
      var m := Membership(a.member.groupId, r.replacing);
      assert m in created.Values;
      var id :| id in created && created[id] == m;
      assert after[id] == m;
    }
  }

  /**
    The table has no unique constraint.  Starting without duplicates, the loop duplicates a pair exactly when a
    replacement that is not itself replaced was a member of the group already.
   */
  lemma NoPairTwiceIff(before: Table, affected: seq<Row>, rs: seq<Replacement>, created: Table, after: Table)
    requires IsAnswer(before, rs, affected) && Outcome(before, affected, rs, created, after) && NoPairTwice(before)
    ensures NoPairTwice(after) <==>
            forall id :: id in before && !IsReplaced(rs, before[id].grantId) ==>
              !Successor(rs, Members(before, before[id].groupId), before[id].grantId)
  {
    forall id | id in before { NewPairSource(before, affected, rs, before[id]); }
    if NoPairTwice(after) {
      forall id | id in before && !IsReplaced(rs, before[id].grantId)
        ensures !Successor(rs, Members(before, before[id].groupId), before[id].grantId)
      {
        assert id in after && after[id] == before[id];
        assert forall k :: k in created ==> k in after && k != id && after[k] == created[k];
      }
    } else {
      var i, j :| i in after && j in after && i != j && after[i] == after[j];
      if i in created {
        assert j !in created;
        assert before[j] in created.Values;
      } else {
        assert j in created;
        assert before[i] in created.Values;
      }
    }
  }

  /** A second run has nothing to do iff no replacement brought in a grant that is itself replaced. */
  lemma SecondRunIdleIff(before: Table, affected: seq<Row>, rs: seq<Replacement>, created: Table, after: Table)
    requires IsAnswer(before, rs, affected) && Outcome(before, affected, rs, created, after)
    ensures IsAnswer(after, rs, []) <==>
            forall a, r :: a in affected && r in rs && r.replaced == a.member.grantId ==> !IsReplaced(rs, r.replacing)
  {
    if IsAnswer(after, rs, []) {
      forall a, r | a in affected && r in rs && r.replaced == a.member.grantId ensures !IsReplaced(rs, r.replacing) {
        var m := Membership(a.member.groupId, r.replacing);
        assert m in created.Values;
        var id :| id in created && created[id] == m;
        assert after[id] == m;
      }
    } else {
      var id :| id in after && IsReplaced(rs, after[id].grantId);
      if id in created {
        assert after[id] in created.Values;
      }
    }
  }

  /** A group that has both the replaced and the replacing grant ends with the latter twice. */
  lemma ReplacementDuplicates(g: nat, r: nat, s: nat)
    requires r != s
    ensures var before := map[0 := Membership(g, r), 1 := Membership(g, s)];
            var rs, affected := [Replacement(r, s)], [Row(0, Membership(g, r))];
            var created, after := map[2 := Membership(g, s)], map[1 := Membership(g, s), 2 := Membership(g, s)];
            IsAnswer(before, rs, affected) && Outcome(before, affected, rs, created, after) &&
            NoPairTwice(before) && !NoPairTwice(after)
  {
    var before := map[0 := Membership(g, r), 1 := Membership(g, s)];
    var rs, affected := [Replacement(r, s)], [Row(0, Membership(g, r))];
    var created, after := map[2 := Membership(g, s)], map[1 := Membership(g, s), 2 := Membership(g, s)];
    assert rs[0] == Replacement(r, s) && affected[0] == Row(0, Membership(g, r));
    assert Kept(before, affected) == map[1 := Membership(g, s)];
    assert created[2] == Membership(g, s) && created.Values == {Membership(g, s)};
    assert after[1] == after[2];
  }

  /** A chain r to s to u leaves the group with s, which the next run would replace. */
  lemma ReplacementChains(g: nat, r: nat, s: nat, u: nat)
    requires r != s
    ensures var before, rs := map[0 := Membership(g, r)], [Replacement(r, s), Replacement(s, u)];
            var affected, created := [Row(0, Membership(g, r))], map[1 := Membership(g, s)];
            IsAnswer(before, rs, affected) && Outcome(before, affected, rs, created, created) &&
                !IsAnswer(created, rs, [])
  {
    var before, rs := map[0 := Membership(g, r)], [Replacement(r, s), Replacement(s, u)];
    var affected, created := [Row(0, Membership(g, r))], map[1 := Membership(g, s)];
    assert rs[0] == Replacement(r, s) && rs[1] == Replacement(s, u) && affected[0] == Row(0, Membership(g, r));
    assert Kept(before, affected) == map[];
    assert affected[0] in affected && rs[0] in rs;
    assert Membership(g, s) in NewPairs(affected, rs);
    assert NewPairs(affected, rs) == {Membership(g, s)};
    assert created[1] == Membership(g, s) && created.Values == {Membership(g, s)};
    assert rs[1] in rs && IsReplaced(rs, s);
  }
}
