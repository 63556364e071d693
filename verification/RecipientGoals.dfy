/**
  removeRemovedRecipientsGoals (src/goalServices/goals.js): taking the goals of removed recipients off a report.
  Goals and objectives are deleted softly; a table here holds the rows that are not deleted.
 */
module RecipientGoals {
  import opened Prelude

  datatype Goal = Goal(grantId: int, onApprovedAR: bool, createdVia: string)

  datatype Objective = Objective(goalId: Option<int>, onApprovedAR: bool)

  /** A row of ActivityReportGoals or ActivityReportObjectives. */
  datatype Link = Link(reportId: int, target: int)

  datatype Tables = Tables(goals: map<int, Goal>, objectives: map<int, Objective>,
                           reportGoals: map<int, Link>, reportObjectives: map<int, Link>)

  /** A join row of the report leads to the target. */
  predicate OnReport(links: map<int, Link>, reportId: int, target: int) {
    exists k :: k in links && links[k] == Link(reportId, target)
  }

  /** A join row of another report does. */
  predicate OnOtherReport(links: map<int, Link>, reportId: int, target: int) {
    exists k :: k in links && links[k].target == target && links[k].reportId != reportId
  }

  function Unlinked(links: map<int, Link>, reportId: int, targets: set<int>): map<int, Link> {
    map k | k in links && !(links[k].reportId == reportId && links[k].target in targets) :: links[k]
  }

  /** The goals of removed grants that are on the report. */
  function GoalsOff(t: Tables, removed: set<int>, reportId: int): set<int> {
    set g | g in t.goals && t.goals[g].grantId in removed && OnReport(t.reportGoals, reportId, g)
  }

  function GoalsDestroyed(t: Tables, removed: set<int>, reportId: int): set<int> {
    set g | g in GoalsOff(t, removed, reportId) && !OnOtherReport(t.reportGoals, reportId, g) &&
            !t.goals[g].onApprovedAR && t.goals[g].createdVia == "activityReport"
  }

  /** The objectives of those goals that are on the report. */
  function ObjectivesOff(t: Tables, removed: set<int>, reportId: int): set<int> {
    set o | o in t.objectives && t.objectives[o].goalId.Some? &&
            t.objectives[o].goalId.value in GoalsOff(t, removed, reportId) && OnReport(t.reportObjectives, reportId, o)
  }

  function ObjectivesDestroyed(t: Tables, removed: set<int>, reportId: int): set<int> {
    set o | o in ObjectivesOff(t, removed, reportId) && !OnOtherReport(t.reportObjectives, reportId, o) &&
            !t.objectives[o].onApprovedAR
  }

  function Removed(t: Tables, removed: set<int>, reportId: int): Tables {
    Tables(t.goals - GoalsDestroyed(t, removed, reportId), t.objectives - ObjectivesDestroyed(t, removed, reportId),
           Unlinked(t.reportGoals, reportId, GoalsOff(t, removed, reportId)),
           Unlinked(t.reportObjectives, reportId, ObjectivesOff(t, removed, reportId)))
  }

  class ReportTables {
    var goals: map<int, Goal>
    var objectives: map<int, Objective>
    var reportGoals: map<int, Link>
    var reportObjectives: map<int, Link>

    ghost function State(): Tables
      reads this
    {
      Tables(goals, objectives, reportGoals, reportObjectives)
    }

    /** Model.destroy on a join table for one report and a list of parents. */
    method DestroyGoalLinks(reportId: int, goalIds: set<int>)
      modifies this`reportGoals
      ensures reportGoals == Unlinked(old(reportGoals), reportId, goalIds)
    {
      if goalIds != {} {
        reportGoals := map k | k in reportGoals &&
                               !(reportGoals[k].reportId == reportId && reportGoals[k].target in goalIds)
                         :: reportGoals[k];
      } else {
        UnlinkedNothing(reportGoals, reportId);
      }
    }

    method DestroyObjectiveLinks(reportId: int, objectiveIds: set<int>)
      modifies this`reportObjectives
      ensures reportObjectives == Unlinked(old(reportObjectives), reportId, objectiveIds)
    {
      if objectiveIds != {} {
        reportObjectives := map k | k in reportObjectives &&
                                    !(reportObjectives[k].reportId == reportId &&
                                      reportObjectives[k].target in objectiveIds)
                              :: reportObjectives[k];
      } else {
        UnlinkedNothing(reportObjectives, reportId);
      }
    }

    /** Of the candidates, destroys the objectives that are on no approved report. */
    method DestroyObjectives(candidates: set<int>)
      modifies this`objectives
      ensures objectives == old(objectives) - set o | o in candidates && o in old(objectives) &&
              !old(objectives)[o].onApprovedAR
    {
      if candidates != {} {
        var definitely := set o | o in candidates && o in objectives && !objectives[o].onApprovedAR;
        objectives := objectives - definitely;
      }
    }

    /** The objectives of the goals: off the report, and destroyed where nothing else needs them. */
    method RemoveObjectives(goalIds: set<int>, reportId: int, ghost t: Tables, ghost removed: set<int>)
      requires objectives == t.objectives && reportObjectives == t.reportObjectives
      requires goalIds == GoalsOff(t, removed, reportId)
      modifies this`objectives, this`reportObjectives
      ensures objectives == t.objectives - ObjectivesDestroyed(t, removed, reportId)
      ensures reportObjectives == Unlinked(t.reportObjectives, reportId, ObjectivesOff(t, removed, reportId))
    {
      var objectiveIds := set o | o in objectives && objectives[o].goalId.Some? &&
          objectives[o].goalId.value in goalIds &&
                                  OnReport(reportObjectives, reportId, o);
      var objectivesToDelete := set o | o in objectiveIds && !OnOtherReport(reportObjectives, reportId, o);
      assert objectiveIds == ObjectivesOff(t, removed, reportId);
      DestroyObjectiveLinks(reportId, objectiveIds);
      DestroyObjectives(objectivesToDelete);
      DestroyedObjectives(t, removed, reportId, objectivesToDelete);
    }

    /** Step by step: each query sees what the statements before it left behind. */
    method RemoveRemovedRecipientsGoals(removedRecipientIds: Option<seq<int>>, reportId: int)
      returns (count: Option<nat>)
      modifies this
      ensures var removed := if removedRecipientIds.None? then {} else set r | r in removedRecipientIds.value;
              State() == Removed(old(State()), removed, reportId) &&
              count == if removed == {} then None else Some(|GoalsDestroyed(old(State()), removed, reportId)|)
    {
      if removedRecipientIds.None? || |removedRecipientIds.value| == 0 {
        NothingRemoved(State(), reportId);
        return None;
      }
      var grants := set r | r in removedRecipientIds.value;
      assert removedRecipientIds.value[0] in grants;
      ghost var t := State();
      var goalIds := set g | g in goals && goals[g].grantId in grants && OnReport(reportGoals, reportId, g);
      var goalsToDelete := set g | g in goalIds && !OnOtherReport(reportGoals, reportId, g);
      assert goalIds == GoalsOff(t, grants, reportId);
      DestroyGoalLinks(reportId, goalIds);
      RemoveObjectives(goalIds, reportId, t, grants);
      var destroyed := set g | g in goals && g in goalsToDelete && !goals[g].onApprovedAR &&
          goals[g].createdVia == "activityReport";
      assert destroyed == GoalsDestroyed(t, grants, reportId);
      goals := goals - destroyed;
      count := Some(|destroyed|);
    }
  }

  lemma DestroyedObjectives(t: Tables, removed: set<int>, reportId: int, unused: set<int>)
    requires unused == set o | o in ObjectivesOff(t, removed, reportId) &&
             !OnOtherReport(t.reportObjectives, reportId, o)
    ensures (set o | o in unused && o in t.objectives && !t.objectives[o].onApprovedAR) ==
            ObjectivesDestroyed(t, removed, reportId)
  {
  }

  lemma UnlinkedNothing(links: map<int, Link>, reportId: int)
    ensures Unlinked(links, reportId, {}) == links
  {
  }

  lemma NothingRemoved(t: Tables, reportId: int)
    ensures Removed(t, {}, reportId) == t
  {
  }

  // ---------- referential integrity ----------

  ghost predicate LinksIntact(links: map<int, Link>, targets: set<int>) {
    forall k :: k in links ==> links[k].target in targets
  }

  /** Every join row points to an existing goal or objective. */
  ghost predicate Intact(t: Tables) {
    LinksIntact(t.reportGoals, t.goals.Keys) && LinksIntact(t.reportObjectives, t.objectives.Keys)
  }

  lemma RemovalKeepsIntegrity(t: Tables, removed: set<int>, reportId: int)
    requires Intact(t)
    ensures Intact(Removed(t, removed, reportId))
  {
  }

  /**
    What the removal does to the join rows: other reports keep all of theirs, and this report keeps exactly those that
    do not lead to a goal of a removed grant or to an objective of such a goal on the report.
   */
  lemma LinksAfterRemoval(t: Tables, removed: set<int>, reportId: int)
    requires Intact(t)
    ensures var u := Removed(t, removed, reportId);
            (forall k :: k in t.reportGoals && t.reportGoals[k].reportId != reportId ==>
               k in u.reportGoals && u.reportGoals[k] == t.reportGoals[k]) &&
            (forall k :: k in t.reportObjectives && t.reportObjectives[k].reportId != reportId ==>
               k in u.reportObjectives && u.reportObjectives[k] == t.reportObjectives[k]) &&
            (forall k :: k in t.reportGoals && t.reportGoals[k].reportId == reportId ==>
               (k in u.reportGoals <==> t.goals[t.reportGoals[k].target].grantId !in removed)) &&
            (forall k :: k in t.reportObjectives && t.reportObjectives[k].reportId == reportId ==>
               (k in u.reportObjectives <==>
                var goal := t.objectives[t.reportObjectives[k].target].goalId;
                !(goal.Some? && goal.value in t.goals && t.goals[goal.value].grantId in removed &&
                  exists j :: j in t.reportGoals && t.reportGoals[j] == Link(reportId, goal.value))))
  {
  }

  /**
    Exactly the goals of removed grants that only this report uses are destroyed, if the report created them and none is
    on an approved report; and exactly the objectives of such goals on the report that only this report uses and no
    approved report has.  Everything else stays as it was.
   */
  lemma DestroyedIffUnused(t: Tables, removed: set<int>, reportId: int)
    ensures var u := Removed(t, removed, reportId);
            (forall g :: g in t.goals ==>
               (g !in u.goals <==>
                t.goals[g].grantId in removed && !t.goals[g].onApprovedAR &&
                t.goals[g].createdVia == "activityReport" &&
                (exists k :: k in t.reportGoals && t.reportGoals[k] == Link(reportId, g)) &&
                forall k :: k in t.reportGoals && t.reportGoals[k].target == g ==>
                  t.reportGoals[k].reportId == reportId)) &&
            (forall o :: o in t.objectives ==>
               (o !in u.objectives <==>
                var goal := t.objectives[o].goalId;
                goal.Some? && goal.value in t.goals && t.goals[goal.value].grantId in removed &&
                !t.objectives[o].onApprovedAR &&
                (exists k :: k in t.reportGoals && t.reportGoals[k] == Link(reportId, goal.value)) &&
                (exists k :: k in t.reportObjectives && t.reportObjectives[k] == Link(reportId, o)) &&
                forall k :: k in t.reportObjectives && t.reportObjectives[k].target == o ==>
                  t.reportObjectives[k].reportId == reportId)) &&
            (forall g :: g in u.goals ==> g in t.goals && u.goals[g] == t.goals[g]) &&
            (forall o :: o in u.objectives ==> o in t.objectives && u.objectives[o] == t.objectives[o])
  {
  }

  /** Every objective's goal exists. */
  ghost predicate ObjectivesHaveGoals(t: Tables) {
    forall o :: o in t.objectives && t.objectives[o].goalId.Some? ==> t.objectives[o].goalId.value in t.goals
  }

  /**
    Objectives do not always keep their goal: the removal orphans one exactly when a destroyed goal has an objective
    that is not on this report, is also on another one, or is on an approved report.
   */
  lemma ObjectivesKeepGoalsIff(t: Tables, removed: set<int>, reportId: int)
    requires ObjectivesHaveGoals(t)
    ensures ObjectivesHaveGoals(Removed(t, removed, reportId)) <==>
            forall o :: o in t.objectives && t.objectives[o].goalId.Some? &&
                        t.objectives[o].goalId.value in GoalsDestroyed(t, removed, reportId) ==>
              !t.objectives[o].onApprovedAR &&
              (exists k :: k in t.reportObjectives && t.reportObjectives[k] == Link(reportId, o)) &&
              forall k :: k in t.reportObjectives && t.reportObjectives[k].target == o ==>
                t.reportObjectives[k].reportId == reportId
  {
    var u := Removed(t, removed, reportId);
    if ObjectivesHaveGoals(u) {
      forall o | o in t.objectives && t.objectives[o].goalId.Some? &&
                 t.objectives[o].goalId.value in GoalsDestroyed(t, removed, reportId)
        ensures o in ObjectivesDestroyed(t, removed, reportId)
      {
        assert o !in u.objectives;
      }
    }
  }

  /** Removing the same recipients again changes nothing. */
  lemma RemovalIdempotent(t: Tables, removed: set<int>, reportId: int)
    requires Intact(t)
    ensures Removed(Removed(t, removed, reportId), removed, reportId) == Removed(t, removed, reportId)
  {
    var u := Removed(t, removed, reportId);
    LinksAfterRemoval(t, removed, reportId);
    assert GoalsOff(u, removed, reportId) == {};
    assert ObjectivesOff(u, removed, reportId) == {};
    assert GoalsDestroyed(u, removed, reportId) == {} && ObjectivesDestroyed(u, removed, reportId) == {};
    assert Unlinked(u.reportGoals, reportId, {}) == u.reportGoals;
    assert Unlinked(u.reportObjectives, reportId, {}) == u.reportObjectives;
    assert u.goals - {} == u.goals && u.objectives - {} == u.objectives;
  }

  /** A goal that the report created goes, and an objective of it that is on no report stays behind without a goal. */
  lemma ObjectiveLeftBehind()
    ensures var t := Tables(map[1 := Goal(5, false, "activityReport")], map[2 := Objective(Some(1), false)],
                            map[3 := Link(9, 1)], map[]);
            Intact(t) && ObjectivesHaveGoals(t) && !ObjectivesHaveGoals(Removed(t, {5}, 9))
  {
    var t := Tables(map[1 := Goal(5, false, "activityReport")], map[2 := Objective(Some(1), false)],
                    map[3 := Link(9, 1)], map[]);
    assert t.reportGoals[3] == Link(9, 1);
    assert 1 in GoalsDestroyed(t, {5}, 9);
    assert 2 in Removed(t, {5}, 9).objectives;
  }
}
