/**
  Closing several goals at once from the admin page (src/goalServices/goals.js, validateGoalStatusChange.ts,
  changeGoalStatus.ts) and the hooks of the status change row (src/models/hooks/goalStatusChange.js).
 */
module BulkClose {
  import opened Prelude

  const DRAFT := "Draft"
  const NOT_STARTED := "Not Started"
  const IN_PROGRESS := "In Progress"
  const SUSPENDED := "Suspended"
  const CLOSED := "Closed"
  const COMPLETE := "Complete"

  datatype Objective = Objective(goalId: Option<int>, status: Option<string>, onApprovedAR: Option<bool>,
                                 closeSuspendReason: string, closeSuspendContext: string)

  /** A row of ActivityReportGoals or ActivityReportObjectives. */
  datatype Link = Link(reportId: int, target: int)

  datatype StatusChange = StatusChange(goalId: int, oldStatus: string, newStatus: string)

  /** `goals` holds each goal's status, `reports` each activity report's calculated status. */
  datatype Tables = Tables(goals: map<int, string>, objectives: map<int, Objective>, reports: map<int, string>,
                           reportGoals: map<int, Link>, reportObjectives: map<int, Link>, changes: seq<StatusChange>)

  datatype Reason = ActiveReport | IncompleteObjectives

  datatype Outcome = Blocked(reasons: seq<Reason>) | NotAllowed | NotFound | OpenObjectives | Closed

  // ---------- the validation ----------

  predicate ActiveStatus(status: string) {
    status in {"draft", "submitted", "needs_action"}
  }

  predicate OnActiveReport(t: Tables, goalIds: seq<int>) {
    exists k :: k in t.reportGoals && t.reportGoals[k].target in goalIds && t.reportGoals[k].reportId in t.reports &&
                ActiveStatus(t.reports[t.reportGoals[k].reportId])
  }

  /** `status <> 'Complete' OR status IS NULL`. */
  predicate Incomplete(o: Objective) {
    o.status != Some(COMPLETE)
  }

  predicate OfGoals(o: Objective, goalIds: seq<int>) {
    o.goalId.Some? && o.goalId.value in goalIds
  }

  predicate HasIncomplete(t: Tables, goalIds: seq<int>, treatApprovedAsComplete: bool) {
    exists o :: o in t.objectives && OfGoals(t.objectives[o], goalIds) && Incomplete(t.objectives[o]) &&
                (treatApprovedAsComplete ==> t.objectives[o].onApprovedAR != Some(true))
  }

  /** getGoalStatusChangeBlockingReasons with includeIncompleteObjectives at its default. */
  function BlockingReasons(t: Tables, goalIds: seq<int>, newStatus: string,
                           treatApprovedAsComplete: bool): seq<Reason> {
    if newStatus != CLOSED then []
    else
      (if OnActiveReport(t, goalIds) then [ActiveReport] else []) +
      (if HasIncomplete(t, goalIds, treatApprovedAsComplete) then [IncompleteObjectives] else [])
  }

  /** Closing is blocked by an unfinished report and by an incomplete objective, in this order; nothing else is. */
  lemma BlockingReasonsAre(t: Tables, goalIds: seq<int>, newStatus: string, treatApprovedAsComplete: bool)
    ensures var reasons := BlockingReasons(t, goalIds, newStatus, treatApprovedAsComplete);
            (ActiveReport in reasons <==>
               newStatus == "Closed" &&
               exists k :: k in t.reportGoals && t.reportGoals[k].target in goalIds &&
                 t.reportGoals[k].reportId in t.reports &&
                 t.reports[t.reportGoals[k].reportId] in {"draft", "submitted", "needs_action"}) &&
            (IncompleteObjectives in reasons <==>
               newStatus == "Closed" &&
               exists o :: o in t.objectives && t.objectives[o].goalId.Some? &&
                 t.objectives[o].goalId.value in goalIds && t.objectives[o].status != Some("Complete") &&
                 !(treatApprovedAsComplete && t.objectives[o].onApprovedAR == Some(true))) &&
            (reasons == [] || reasons == [ActiveReport] || reasons == [IncompleteObjectives] ||
             reasons == [ActiveReport, IncompleteObjectives])
  {
    var reasons := BlockingReasons(t, goalIds, newStatus, treatApprovedAsComplete);
    if newStatus == CLOSED {
      assert reasons == (if OnActiveReport(t, goalIds) then [ActiveReport] else []) +
                        (if HasIncomplete(t, goalIds, treatApprovedAsComplete) then [IncompleteObjectives] else []);
    }
  }

  // ---------- the transition matrix ----------

  function AllowedTransitions(oldStatus: string): seq<string> {
    if oldStatus == DRAFT then [CLOSED]
    else if oldStatus == NOT_STARTED then [CLOSED, SUSPENDED]
    else if oldStatus == IN_PROGRESS then [CLOSED, SUSPENDED]
    else if oldStatus == SUSPENDED then [IN_PROGRESS, CLOSED]
    else []
  }

  /** verifyAllowedGoalStatusTransition. */
  predicate Allowed(oldStatus: string, newStatus: string, previousStatus: seq<string>) {
    var allowed := AllowedTransitions(oldStatus);
    newStatus in if oldStatus == SUSPENDED then allowed + previousStatus else allowed
  }

  /** A goal may be closed from every status but Closed, suspended only while open, reopened only out of suspension. */
  lemma AllowedMatrix(oldStatus: string, newStatus: string, previousStatus: seq<string>)
    ensures Allowed(oldStatus, newStatus, previousStatus) <==>
            (newStatus == "Closed" && oldStatus in {"Draft", "Not Started", "In Progress", "Suspended"}) ||
            (newStatus == "Suspended" && oldStatus in {"Not Started", "In Progress"}) ||
            (oldStatus == "Suspended" && (newStatus == "In Progress" || newStatus in previousStatus))
  {
  }

  // ---------- the writes ----------

  function Completed(o: Objective, reason: string, context: string): Objective {
    o.(status := Some(COMPLETE), closeSuspendReason := reason, closeSuspendContext := context)
  }

  /** Step 1: every objective that has been on an approved report is completed. */
  function CompleteApproved(t: Tables, goalIds: seq<int>, reason: string, context: string): Tables {
    t.(objectives := map o | o in t.objectives ::
         if OfGoals(t.objectives[o], goalIds) && t.objectives[o].onApprovedAR == Some(true)
         then Completed(t.objectives[o], reason, context) else t.objectives[o])
  }

  /** The beforeCreate hook: an open objective that is on no report, or on an approved one, stops the closing. */
  predicate HookBlocks(t: Tables, goalId: int) {
    exists o :: o in t.objectives && t.objectives[o].goalId == Some(goalId) &&
                t.objectives[o].status.Some? && t.objectives[o].status.value != COMPLETE &&
                ((forall k :: k in t.reportObjectives ==> t.reportObjectives[k].target != o) ||
                 (exists k :: k in t.reportObjectives && t.reportObjectives[k].target == o &&
                              t.reportObjectives[k].reportId in t.reports &&
                              t.reports[t.reportObjectives[k].reportId] == "approved"))
  }

  /** The hook lets a goal close iff each open objective of it is on some report and on no approved one. */
  lemma HookPassesIff(t: Tables, goalId: int)
    ensures !HookBlocks(t, goalId) <==>
            forall o :: o in t.objectives && t.objectives[o].goalId == Some(goalId) &&
                        t.objectives[o].status != None && t.objectives[o].status != Some("Complete") ==>
              (exists k :: k in t.reportObjectives && t.reportObjectives[k].target == o) &&
              forall k :: k in t.reportObjectives && t.reportObjectives[k].target == o &&
                          t.reportObjectives[k].reportId in t.reports ==>
                t.reports[t.reportObjectives[k].reportId] != "approved"
  {
  }

  class GoalTables {
    var goals: map<int, string>
    var objectives: map<int, Objective>
    var reports: map<int, string>
    var reportGoals: map<int, Link>
    var reportObjectives: map<int, Link>
    var changes: seq<StatusChange>

    function State(): Tables
      reads this
    {
      Tables(goals, objectives, reports, reportGoals, reportObjectives, changes)
    }

    /** validateGoalStatusChange, returning the reasons it would throw. */
    method ValidateGoalStatusChange(goalIds: seq<int>, newStatus: string, treatApprovedAsComplete: bool)
      returns (reasons: seq<Reason>)
      ensures reasons == BlockingReasons(State(), goalIds, newStatus, treatApprovedAsComplete)
    {
      reasons := [];
      if newStatus != CLOSED { return; }
      if exists k :: k in reportGoals && reportGoals[k].target in goalIds && reportGoals[k].reportId in reports &&
                     ActiveStatus(reports[reportGoals[k].reportId]) {
        reasons := reasons + [ActiveReport];
      }
      if exists o :: o in objectives && OfGoals(objectives[o], goalIds) && Incomplete(objectives[o]) &&
                     (treatApprovedAsComplete ==> objectives[o].onApprovedAR != Some(true)) {
        reasons := reasons + [IncompleteObjectives];
      }
    }

    /** changeGoalStatus without its own validation: a change row is written only when the status changes. */
    method ChangeGoalStatus(goalId: int, userExists: bool, newStatus: string) returns (error: Option<Outcome>)
      modifies this`goals, this`changes
      ensures goalId !in old(goals) || !userExists ==> error == Some(NotFound) && State() == old(State())
      ensures goalId in old(goals) && userExists && old(goals)[goalId] == newStatus ==>
                error == None && State() == old(State())
      ensures goalId in old(goals) && userExists && old(goals)[goalId] != newStatus ==>
                if newStatus == CLOSED && HookBlocks(old(State()), goalId)
                then error == Some(OpenObjectives) && State() == old(State())
                else error == None && goals == old(goals)[goalId := newStatus] &&
                     changes == old(changes) + [StatusChange(goalId, old(goals)[goalId], newStatus)]
    {
      if goalId !in goals || !userExists { return Some(NotFound); }
      var oldStatus := goals[goalId];
      if oldStatus != newStatus {
        if newStatus == CLOSED && HookBlocks(State(), goalId) { return Some(OpenObjectives); }
        changes := changes + [StatusChange(goalId, oldStatus, newStatus)];
        goals := goals[goalId := newStatus];
      }
      return None;
    }

    /** Every goal is attempted; a missing goal or user is what the caller sees. */
    method CloseEach(goalIds: seq<int>, userExists: bool) returns (outcome: Outcome)
      requires forall g :: g in goalIds ==> !HookBlocks(State(), g)
      modifies this`goals, this`changes
      ensures goals == ClosedGoals(old(goals), goalIds, userExists)
      ensures changes == old(changes) + ClosingChanges(old(goals), goalIds, userExists)
      ensures outcome ==
              if (userExists || goalIds == []) && AllPresent(old(goals), goalIds) then Outcome.Closed else NotFound
    {
      outcome := Outcome.Closed;
      assert goals == ClosedGoals(goals, [], userExists) && changes + [] == changes;
      for i := 0 to |goalIds|
        invariant ClosedSoFar(old(State()), goalIds[..i], userExists, goals, changes)
        invariant outcome ==
                  if (userExists || i == 0) && AllPresent(old(goals), goalIds[..i]) then Outcome.Closed else NotFound
      {
        assert goalIds[..i + 1] == goalIds[..i] + [goalIds[i]];
        HookFrame(old(State()), State(), goalIds[i]);
        ClosedOneMore(old(goals), goalIds[..i], goalIds[i], userExists);
        ClosedNext(old(State()), goalIds[..i], goalIds[i], userExists, goals, changes);
        var error := ChangeGoalStatus(goalIds[i], userExists, CLOSED);
        if error.Some? { outcome := error.value; }
      }
      assert goalIds[..|goalIds|] == goalIds;
    }

    /** updateGoalStatusById for closing: the transition, the default validation, then the goals. */
    method UpdateGoalStatusById(goalIds: seq<int>, userExists: bool, oldStatus: string) returns (outcome: Outcome)
      modifies this`goals, this`changes
      ensures !Allowed(oldStatus, CLOSED, [CLOSED]) ==> outcome == NotAllowed && State() == old(State())
      ensures Allowed(oldStatus, CLOSED, [CLOSED]) && BlockingReasons(old(State()), goalIds, CLOSED, false) != [] ==>
                outcome == Blocked(BlockingReasons(old(State()), goalIds, CLOSED, false)) && State() == old(State())
      ensures Allowed(oldStatus, CLOSED, [CLOSED]) && BlockingReasons(old(State()), goalIds, CLOSED, false) == [] ==>
                goals == ClosedGoals(old(goals), goalIds, userExists) &&
                changes == old(changes) + ClosingChanges(old(goals), goalIds, userExists) &&
                outcome ==
                if (userExists || goalIds == []) && AllPresent(old(goals), goalIds) then Outcome.Closed else NotFound
    {
      if !Allowed(oldStatus, CLOSED, [CLOSED]) { return NotAllowed; }
      var reasons := ValidateGoalStatusChange(goalIds, CLOSED, false);
      if |reasons| > 0 { return Blocked(reasons); }
      StrictClearsHook(State(), goalIds);
      outcome := CloseEach(goalIds, userExists);
    }

    /** closeMultiRecipientGoalsFromAdmin.  `status` is the status the selected goals are said to have. */
    method CloseMultiRecipientGoalsFromAdmin(goalIds: seq<int>, status: string, reason: string, context: string,
                                             userExists: bool)
      returns (outcome: Outcome)
      modifies this
      ensures outcome == CloseOutcome(old(State()), goalIds, status, userExists)
      ensures outcome.Blocked? ==> State() == old(State())
      ensures !outcome.Blocked? ==>
                objectives == CompleteApproved(old(State()), goalIds, reason, context).objectives &&
                (outcome == NotAllowed ==> goals == old(goals) && changes == old(changes)) &&
                (outcome != NotAllowed ==>
                   goals == ClosedGoals(old(goals), goalIds, userExists) &&
                   changes == old(changes) + ClosingChanges(old(goals), goalIds, userExists))
      ensures reports == old(reports) && reportGoals == old(reportGoals) && reportObjectives == old(reportObjectives)
    {
      var reasons := ValidateGoalStatusChange(goalIds, CLOSED, true);
      if |reasons| > 0 { return Blocked(reasons); }
      RelaxedThenStrict(State(), goalIds, reason, context);
      objectives := map o | o in objectives ::
        if OfGoals(objectives[o], goalIds) && objectives[o].onApprovedAR == Some(true)
        then Completed(objectives[o], reason, context) else objectives[o];
      assert State() == CompleteApproved(old(State()), goalIds, reason, context);
      outcome := UpdateGoalStatusById(goalIds, userExists, status);
    }
  }

  function ClosedGoals(goals: map<int, string>, goalIds: seq<int>, userExists: bool): map<int, string> {
    map g | g in goals :: if userExists && g in goalIds then CLOSED else goals[g]
  }

  /** One change row for each goal that was not closed yet, in the order of the ids. */
  function ClosingChanges(goals: map<int, string>, goalIds: seq<int>, userExists: bool): seq<StatusChange> {
    if goalIds == [] then []
    else
      var earlier, g := goalIds[..|goalIds| - 1], goalIds[|goalIds| - 1];
      if userExists && g in goals && g !in earlier && goals[g] != CLOSED
      then ClosingChanges(goals, earlier, userExists) + [StatusChange(g, goals[g], CLOSED)]
      else ClosingChanges(goals, earlier, userExists)
  }

  /** The tables after the first goals have been attempted. */
  ghost predicate ClosedSoFar(t: Tables, goalIds: seq<int>, userExists: bool, goals: map<int, string>,
                              changes: seq<StatusChange>) {
    goals == ClosedGoals(t.goals, goalIds, userExists) &&
        changes == t.changes + ClosingChanges(t.goals, goalIds, userExists)
  }

  lemma ClosedNext(t: Tables, goalIds: seq<int>, g: int, userExists: bool, goals: map<int, string>,
                   changes: seq<StatusChange>)
    requires ClosedSoFar(t, goalIds, userExists, goals, changes)
    ensures if userExists && g in goals && goals[g] != CLOSED
            then ClosedSoFar(t, goalIds + [g], userExists, goals[g := CLOSED],
                             changes + [StatusChange(g, goals[g], CLOSED)])
            else ClosedSoFar(t, goalIds + [g], userExists, goals, changes)
  {
    var ids := goalIds + [g];
    assert ids[..|goalIds|] == goalIds;
    ClosedOneMore(t.goals, goalIds, g, userExists);
    if userExists && g in goals && goals[g] != CLOSED {
      assert g !in goalIds && t.goals[g] == goals[g];
      assert t.changes + (ClosingChanges(t.goals, goalIds, userExists) + [StatusChange(g, goals[g], CLOSED)]) ==
             changes + [StatusChange(g, goals[g], CLOSED)];
    } else if userExists && g in goals {
      assert goals[g := CLOSED] == goals;
    }
  }

  lemma ClosedOneMore(goals: map<int, string>, goalIds: seq<int>, g: int, userExists: bool)
    ensures ClosedGoals(goals, goalIds + [g], userExists) ==
            var before := ClosedGoals(goals, goalIds, userExists);
            if userExists && g in goals then before[g := CLOSED] else before
    ensures AllPresent(goals, goalIds + [g]) <==> AllPresent(goals, goalIds) && g in goals
  {
    var ids := goalIds + [g];
    assert ids[|goalIds|] == g && forall i :: 0 <= i < |goalIds| ==> ids[i] == goalIds[i];
  }

  predicate AllPresent(goals: map<int, string>, goalIds: seq<int>) {
    forall i :: 0 <= i < |goalIds| ==> goalIds[i] in goals
  }

  lemma HookFrame(t: Tables, u: Tables, goalId: int)
    requires t.objectives == u.objectives && t.reports == u.reports && t.reportObjectives == u.reportObjectives
    ensures HookBlocks(t, goalId) == HookBlocks(u, goalId)
  {
  }

  /** What a bulk close answers, from the tables and the arguments alone. */
  ghost function CloseOutcome(t: Tables, goalIds: seq<int>, status: string, userExists: bool): Outcome {
    var reasons := BlockingReasons(t, goalIds, CLOSED, true);
    if reasons != [] then Blocked(reasons)
    else if !Allowed(status, CLOSED, [CLOSED]) then NotAllowed
    else if (userExists || goalIds == []) && AllPresent(t.goals, goalIds) then Outcome.Closed
    else NotFound
  }

  // ---------- consistency of the two validations and the hook ----------

  /** Once the relaxed validation has accepted, completing the approved objectives makes the strict one accept too. */
  lemma RelaxedThenStrict(t: Tables, goalIds: seq<int>, reason: string, context: string)
    requires BlockingReasons(t, goalIds, CLOSED, true) == []
    ensures BlockingReasons(CompleteApproved(t, goalIds, reason, context), goalIds, CLOSED, false) == []
  {
  }

  /** What the strict validation accepts, the hook of the status change row never stops. */
  lemma StrictClearsHook(t: Tables, goalIds: seq<int>)
    requires BlockingReasons(t, goalIds, CLOSED, false) == []
    ensures forall g :: g in goalIds ==> !HookBlocks(t, g)
  {
  }

  /** A bulk close that reports success leaves every goal closed, all their objectives complete and no active report. */
  lemma ClosedMeansDone(t: Tables, goalIds: seq<int>, status: string, reason: string, context: string, userExists: bool)
    requires CloseOutcome(t, goalIds, status, userExists) == Outcome.Closed
    ensures var u := CompleteApproved(t, goalIds, reason, context).(goals := ClosedGoals(t.goals, goalIds, userExists));
            (forall g :: g in goalIds ==> g in u.goals && u.goals[g] == "Closed") &&
            (forall o :: o in u.objectives && OfGoals(u.objectives[o], goalIds) ==>
             u.objectives[o].status == Some("Complete")) &&
            (forall o :: o in t.objectives && OfGoals(t.objectives[o], goalIds) &&
                         t.objectives[o].onApprovedAR == Some(true) ==>
               o in u.objectives && u.objectives[o].closeSuspendReason == reason &&
               u.objectives[o].closeSuspendContext == context && u.objectives[o].goalId == t.objectives[o].goalId) &&
            (forall o :: o in t.objectives && t.objectives[o].onApprovedAR != Some(true) ==>
               o in u.objectives && u.objectives[o] == t.objectives[o]) &&
            (forall k :: k in t.reportGoals && t.reportGoals[k].target in goalIds &&
                         t.reportGoals[k].reportId in t.reports ==>
               t.reports[t.reportGoals[k].reportId] !in {"draft", "submitted", "needs_action"}) &&
            (forall g :: g in t.goals && g !in goalIds ==> g in u.goals && u.goals[g] == t.goals[g]) &&
            (forall o :: o in t.objectives && !OfGoals(t.objectives[o], goalIds) ==>
               o in u.objectives && u.objectives[o] == t.objectives[o])
  {
  }

  /** The approved objectives of the goals are complete, with this reason and context. */
  ghost predicate NothingToComplete(t: Tables, goalIds: seq<int>, reason: string, context: string) {
    forall o :: o in t.objectives && OfGoals(t.objectives[o], goalIds) && t.objectives[o].onApprovedAR == Some(true) ==>
      t.objectives[o].status == Some(COMPLETE) && t.objectives[o].closeSuspendReason == reason &&
      t.objectives[o].closeSuspendContext == context
  }

  /**
    A refused transition is found only after step 1: the goals stay as they are, but nothing at all is written exactly
    when no approved objective of theirs needed completing.
   */
  lemma RefusalWritesNothingIff(t: Tables, goalIds: seq<int>, reason: string, context: string)
    ensures CompleteApproved(t, goalIds, reason, context) == t <==> NothingToComplete(t, goalIds, reason, context)
  {
    var u := CompleteApproved(t, goalIds, reason, context);
    if u == t {
      forall o | o in t.objectives && OfGoals(t.objectives[o], goalIds) && t.objectives[o].onApprovedAR == Some(true)
        ensures Completed(t.objectives[o], reason, context) == t.objectives[o]
      {
        assert u.objectives[o] == t.objectives[o];
      }
    }
    if NothingToComplete(t, goalIds, reason, context) {
      forall o | o in t.objectives ensures u.objectives[o] == t.objectives[o] {
        var x := t.objectives[o];
        assert x == Objective(x.goalId, x.status, x.onApprovedAR, x.closeSuspendReason, x.closeSuspendContext);
      }
      assert u.objectives == t.objectives;
    }
  }

  /** Closing a goal that is closed already is refused, and yet completes its open approved objective. */
  lemma RefusalWrites(reason: string, context: string)
    ensures var open := Objective(Some(1), Some(IN_PROGRESS), Some(true), "", "");
            var t := Tables(map[1 := CLOSED], map[2 := open], map[], map[], map[], []);
            CloseOutcome(t, [1], CLOSED, true) == NotAllowed &&
            CompleteApproved(t, [1], reason, context).objectives ==
                map[2 := Completed(open, reason, context)] != t.objectives
  {
    var open := Objective(Some(1), Some(IN_PROGRESS), Some(true), "", "");
    var t := Tables(map[1 := CLOSED], map[2 := open], map[], map[], map[], []);
    assert t.objectives[2] == open && Completed(open, reason, context).status == Some(COMPLETE) != open.status;
  }
}
