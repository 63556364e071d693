/**
  What a rollback achieves, over every run of statements (src/lib/programmaticTransaction.ts): it inverts the run on all
  non-filtered columns, it composes with other rollbacks, and exactly when log and rows still hold the filtered columns'
  values it restores everything.
 */
module AuditRollback {
  import opened Prelude
  import opened Sequences
  import opened AuditLog
  import opened AuditUndo
  import opened AuditOrder

  /** rollbackToSnapshot, given the answers of the log queries and the clock of its own statements. */
  function Rollback(schema: Schema, db: Db, answers: seq<seq<Entry>>, clock: nat -> Stamp): Result<Db, DbError>
    requires WellFormedSchema(schema) && AllFit(schema, Fetch(answers)) && TablesOf(schema, db)
  {
    Replay(schema, db, Fetch(answers), clock, 0)
  }

  /** What undoing its own history makes of one row. */
  function RestoredRow(db: Db, base: map<string, nat>, key: Key): Option<Row> {
    if key.table in db.logs && key.table in base then UndoBack(History(db, base, key), Lookup(db, key)) else None
  }

  ghost predicate RollbackSetting(schema: Schema, db0: Db, steps: seq<Step>) {
    Valid(schema, db0) && WellFormedSchema(schema) && IdFirst(schema) && KeepsIds(steps)
  }

  /** The rollback never fails and leaves each row as undoing its own history does, whatever the queries' order. */
  lemma {:induction false} RollbackUndoesHistories(schema: Schema, db0: Db, steps: seq<Step>, snap: seq<MaxId>,
                                answers: seq<seq<Entry>>, clock: nat -> Stamp)
    requires RollbackSetting(schema, db0, steps) && IsSnapshot(snap, db0.lastValue)
    requires var db := Run(schema, db0, steps);
             SqlAnswers(db, snap, answers) && PerRowOrdered(schema, db, db0.lastValue)
    ensures AllFit(schema, Fetch(answers))
    ensures var r := Rollback(schema, Run(schema, db0, steps), answers, clock);
            r.Ok? && Valid(schema, r.value) &&
            forall key :: Lookup(r.value, key) == RestoredRow(Run(schema, db0, steps), db0.lastValue, key)
  {
    var db := Run(schema, db0, steps);
    RunValid(schema, db0, steps);
    FetchHistory(schema, db, db0.lastValue, snap, answers);
    var changes := Fetch(answers);
    forall key: Key
      ensures Performable(ForKey(changes, key), Lookup(db, key))
      ensures UndoSeq(ForKey(changes, key), Lookup(db, key)) == RestoredRow(db, db0.lastValue, key)
    {
      if key.table in schema.columns {
        RunInvariant(schema, db0, steps, key);
        ListedUndoes(History(db, db0.lastValue, key), ForKey(changes, key), Lookup(db, key));
      } else {
        ForKeyElsewhere(changes, key);
      }
    }
    ReplayRows(schema, db, changes, clock, 0);
  }

  /**
    For every start and every run, the rollback succeeds and gives back the start on all non-filtered columns; it gives
    back all of it iff the log or the row itself still holds the filtered columns' values from the start.
   */
  lemma {:induction false} RollbackInvertsAnyRun(schema: Schema, db0: Db, steps: seq<Step>, snap: seq<MaxId>,
                                                 answers: seq<seq<Entry>>, clock: nat -> Stamp)
    requires RollbackSetting(schema, db0, steps) && IsSnapshot(snap, db0.lastValue)
    requires var db := Run(schema, db0, steps);
             SqlAnswers(db, snap, answers) && PerRowOrdered(schema, db, db0.lastValue)
    ensures AllFit(schema, Fetch(answers))
    ensures var r := Rollback(schema, Run(schema, db0, steps), answers, clock);
            r.Ok? && SameOffFilters(schema, r.value, db0) &&
            (r.value.rows == db0.rows <==> FilteredColumnsHeld(schema, db0, steps))
  {
    RollbackUndoesHistories(schema, db0, steps, snap, answers, clock);
    var r := Rollback(schema, Run(schema, db0, steps), answers, clock).value;
    RestoredOffFilters(schema, db0, steps, r);
    SameRows(r, db0);
    assert ExactAfter(schema, db0, steps) <==> forall key :: Lookup(r, key) == Lookup(db0, key);
    ExactIffHeld(schema, db0, steps);
  }

  ghost predicate SameOffFilters(schema: Schema, a: Db, b: Db) {
    forall key: Key :: AgreeOff(Filtered(schema, key.table), Lookup(a, key), Lookup(b, key))
  }

  lemma RestoredOffFilters(schema: Schema, db0: Db, steps: seq<Step>, r: Db)
    requires Valid(schema, db0) && KeepsIds(steps)
    requires forall key :: Lookup(r, key) == RestoredRow(Run(schema, db0, steps), db0.lastValue, key)
    ensures SameOffFilters(schema, r, db0)
  {
    forall key: Key ensures AgreeOff(Filtered(schema, key.table), Lookup(r, key), Lookup(db0, key)) {
      if key.table in schema.columns {
        RunInvariant(schema, db0, steps, key);
      }
    }
  }

  lemma SameRows(a: Db, b: Db)
    ensures a.rows == b.rows <==> forall key :: Lookup(a, key) == Lookup(b, key)
  {
    if forall key :: Lookup(a, key) == Lookup(b, key) {
      forall key ensures key in a.rows <==> key in b.rows {
        assert Lookup(a, key) == Lookup(b, key);
      }
      forall key | key in a.rows ensures a.rows[key] == b.rows[key] {
        assert Lookup(a, key) == Lookup(b, key);
      }
    }
  }

  // ---------- when the rollback is exact ----------

  /** Undoing its own history gives back every row of the start. */
  ghost predicate ExactAfter(schema: Schema, db0: Db, steps: seq<Step>)
    requires Valid(schema, db0)
  {
    forall key :: RestoredRow(Run(schema, db0, steps), db0.lastValue, key) == Lookup(db0, key)
  }

  function ColumnOf(row: Option<Row>, c: Column): Option<Value> {
    if row.Some? && c in row.value then Some(row.value[c]) else None
  }

  /** The oldest value of a column the history holds: its first logged image, or else the value the row has now. */
  function FirstSeen(history: seq<Entry>, c: Column, row: Option<Row>): Option<Value> {
    if history == [] then ColumnOf(row, c)
    else
      match history[0].change
      case Inserted(_) => None
      case Deleted(oldRow) => ColumnOf(Some(oldRow), c)
      case Updated(pre, _) => if c in pre then Some(pre[c]) else FirstSeen(history[1..], c, row)
  }

  lemma {:induction false} FirstSeenSnoc(history: seq<Entry>, e: Entry, c: Column, row: Option<Row>)
    requires CanUndo(e.change, row)
    ensures FirstSeen(history + [e], c, row) == FirstSeen(history, c, UndoRow(e.change, row))
  {
    var all := history + [e];
    if history == [] {
      assert all[1..] == [];
    } else {
      assert all[0] == history[0] && all[1..] == history[1..] + [e];
      FirstSeenSnoc(history[1..], e, c, row);
    }
  }

  /** Undoing a history gives every column the oldest value it holds. */
  lemma {:induction false} UndoneColumn(history: seq<Entry>, c: Column, row: Option<Row>)
    requires Undoable(history, row)
    ensures ColumnOf(UndoBack(history, row), c) == FirstSeen(history, c, row)
  {
    if history != [] {
      var n := |history| - 1;
      UndoneColumn(history[..n], c, UndoRow(history[n].change, row));
      FirstSeenSnoc(history[..n], history[n], c, row);
      assert history == history[..n] + [history[n]];
    }
  }

  ghost predicate HeldAt(schema: Schema, db0: Db, db: Db, key: Key, c: Column)
    requires key in db0.rows && c in db0.rows[key] && key.table in db.logs && key.table in db0.lastValue
  {
    FirstSeen(History(db, db0.lastValue, key), c, Lookup(db, key)) == Some(db0.rows[key][c])
  }

  /** Of each filtered column, the oldest value the log since the snapshot or else the row holds is the start's. */
  ghost predicate FilteredColumnsHeld(schema: Schema, db0: Db, steps: seq<Step>)
    requires Valid(schema, db0)
  {
    forall key: Key, c :: key in db0.rows && c in db0.rows[key] && c in Filtered(schema, key.table) ==>
      HeldAt(schema, db0, Run(schema, db0, steps), key, c)
  }

  lemma {:induction false} RowExactIffHeld(schema: Schema, db0: Db, steps: seq<Step>, key: Key)
    requires Valid(schema, db0) && KeepsIds(steps) && key.table in schema.columns
    ensures RestoredRow(Run(schema, db0, steps), db0.lastValue, key) == Lookup(db0, key) <==>
            forall c :: key in db0.rows && c in db0.rows[key] && c in Filtered(schema, key.table) ==>
              HeldAt(schema, db0, Run(schema, db0, steps), key, c)
  {
    var db := Run(schema, db0, steps);
    var history := History(db, db0.lastValue, key);
    RunInvariant(schema, db0, steps, key);
    forall c ensures ColumnOf(UndoBack(history, Lookup(db, key)), c) == FirstSeen(history, c, Lookup(db, key)) {
      UndoneColumn(history, c, Lookup(db, key));
    }
    SameRowIff(Filtered(schema, key.table), RestoredRow(db, db0.lastValue, key), Lookup(db0, key));
  }

  /** Rows that agree off the filters are the same iff they agree on the filtered columns too. */
  lemma SameRowIff(filtered: set<Column>, a: Option<Row>, b: Option<Row>)
    requires AgreeOff(filtered, a, b)
    ensures a == b <==> forall c :: b.Some? && c in b.value && c in filtered ==> ColumnOf(a, c) == ColumnOf(b, c)
  {
    if a.Some? && forall c :: c in b.value && c in filtered ==> ColumnOf(a, c) == ColumnOf(b, c) {
      forall c | c in a.value ensures a.value[c] == b.value[c] {
        assert c in b.value;
      }
      assert a.value == b.value;
    }
  }

  lemma {:induction false} ExactIffHeld(schema: Schema, db0: Db, steps: seq<Step>)
    requires Valid(schema, db0) && KeepsIds(steps)
    ensures ExactAfter(schema, db0, steps) <==> FilteredColumnsHeld(schema, db0, steps)
  {
    var db := Run(schema, db0, steps);
    forall key: Key
      ensures RestoredRow(db, db0.lastValue, key) == Lookup(db0, key) <==>
              forall c :: key in db0.rows && c in db0.rows[key] && c in Filtered(schema, key.table) ==>
                HeldAt(schema, db0, db, key, c)
    {
      if key.table in schema.columns {
        RowExactIffHeld(schema, db0, steps, key);
      }
    }
  }

  /** Some entry since the snapshot already holds the row's older value of column `c`. */
  predicate Covered(history: seq<Entry>, c: Column) {
    history != [] &&
    var last := history[|history| - 1].change;
    (last.Updated? ==> c in last.pre) || Covered(history[..|history| - 1], c)
  }

  ghost predicate AllCovered(history: seq<Entry>, columns: set<Column>) {
    forall c :: c in columns ==> Covered(history, c)
  }

  ghost predicate HarmlessAt(schema: Schema, db: Db, base: map<string, nat>, step: Step, key: Key)
    requires TablesOf(schema, db) && base.Keys == schema.columns.Keys && key.table in base
  {
    var before, after := Lookup(db, key), Lookup(Exec(schema, db, step), key);
    before.Some? && after.Some? && Trigger(schema, key.table, before, after).None? ==>
      AllCovered(History(db, base, key), Changed(before.value, after.value))
  }

  /** The statement is logged, or it changes only columns the log since the snapshot already covers. */
  ghost predicate Harmless(schema: Schema, db: Db, base: map<string, nat>, step: Step)
    requires TablesOf(schema, db) && base.Keys == schema.columns.Keys
  {
    forall key: Key :: key.table in base ==> HarmlessAt(schema, db, base, step, key)
  }

  lemma {:induction false} UndoCovered(history: seq<Entry>, a: Row, b: Row)
    requires a.Keys == b.Keys && Undoable(history, Some(a)) && Undoable(history, Some(b))
    ensures UndoBack(history, Some(a)) == UndoBack(history, Some(b)) <==> AllCovered(history, Changed(a, b))
  {
    if history == [] {
      if AllCovered(history, Changed(a, b)) {
        forall c | c in a ensures a[c] == b[c] {
          assert c !in Changed(a, b);
        }
        assert a == b;
      }
    } else {
      var last := history[|history| - 1].change;
      var older := history[..|history| - 1];
      if last.Updated? {
        var a', b' := a + last.pre, b + last.pre;
        UndoCovered(older, a', b');
        assert forall c :: c in Changed(a', b') <==> c in Changed(a, b) && c !in last.pre;
      } else {
        assert forall c :: Covered(history, c);
      }
    }
  }

  lemma {:induction false} ExactStep(schema: Schema, db0: Db, steps: seq<Step>, step: Step)
    requires Valid(schema, db0) && KeepsIds(steps + [step]) && ExactAfter(schema, db0, steps)
    ensures ExactAfter(schema, db0, steps + [step]) <==>
            Harmless(schema, Run(schema, db0, steps), db0.lastValue, step)
  {
    var db := Run(schema, db0, steps);
    assert KeepsIds(steps) && KeepsId(step) by {
      assert forall i :: 0 <= i < |steps| ==> (steps + [step])[i] == steps[i];
      assert (steps + [step])[|steps|] == step;
    }
    assert (steps + [step])[..|steps|] == steps;
    var db' := Exec(schema, db, step);
    RunValid(schema, db0, steps);
    ExecValid(schema, db, step);
    forall key: Key
      ensures RestoredRow(db', db0.lastValue, key) == Lookup(db0, key) <==>
              (key.table in db0.lastValue ==> HarmlessAt(schema, db, db0.lastValue, step, key))
    {
      if key.table in db0.lastValue {
        RunInvariant(schema, db0, steps, key);
        assert RestoredRow(db, db0.lastValue, key) == Lookup(db0, key);
        ExactStepRow(schema, db, db0.lastValue, step, key);
      }
    }
  }

  lemma ExactStepRow(schema: Schema, db: Db, base: map<string, nat>, step: Step, key: Key)
    requires Valid(schema, db) && KeepsId(step) && base.Keys == schema.columns.Keys && key.table in base
    requires forall t :: t in base ==> base[t] <= db.lastValue[t]
    requires Undoable(History(db, base, key), Lookup(db, key))
    ensures TablesOf(schema, Exec(schema, db, step))
    ensures RestoredRow(Exec(schema, db, step), base, key) == RestoredRow(db, base, key) <==>
            HarmlessAt(schema, db, base, step, key)
  {
    var db' := Exec(schema, db, step);
    ExecValid(schema, db, step);
    ExecHistory(schema, db, step, base, key);
    var before, after := Lookup(db, key), Lookup(db', key);
    var h, h' := History(db, base, key), History(db', base, key);
    LoggedStepUndone(schema, key.table, before, after);
    if Trigger(schema, key.table, before, after).Some? {
      assert h'[..|h' | - 1] == h;
    } else {
      assert h' == h;
      if before.Some? {
        UndoCongruence(Filtered(schema, key.table), h, after, before);
        UndoCovered(h, after.value, before.value);
        assert Changed(after.value, before.value) == Changed(before.value, after.value);
      }
    }
  }

  /** A rollback after each prefix of the run is exact if and only if every statement of the run is harmless. */
  lemma RollbackExactIffHarmless(schema: Schema, db0: Db, steps: seq<Step>)
    requires Valid(schema, db0) && KeepsIds(steps)
    ensures (forall n :: 0 <= n <= |steps| ==> ExactAfter(schema, db0, steps[..n])) <==>
            (forall n :: 0 <= n < |steps| ==>
               Harmless(schema, Run(schema, db0, steps[..n]), db0.lastValue, steps[n]))
  {
    if forall n :: 0 <= n <= |steps| ==> ExactAfter(schema, db0, steps[..n]) {
      forall n | 0 <= n < |steps|
        ensures Harmless(schema, Run(schema, db0, steps[..n]), db0.lastValue, steps[n])
      {
        assert steps[..n + 1] == steps[..n] + [steps[n]];
        assert ExactAfter(schema, db0, steps[..n + 1]);
        ExactStep(schema, db0, steps[..n], steps[n]);
      }
    }
    if forall n :: 0 <= n < |steps| ==> Harmless(schema, Run(schema, db0, steps[..n]), db0.lastValue, steps[n]) {
      forall n | 0 <= n <= |steps| ensures ExactAfter(schema, db0, steps[..n]) {
        HarmlessIsExact(schema, db0, steps, n);
      }
    }
  }

  lemma ExactAtStart(schema: Schema, db0: Db)
    requires Valid(schema, db0)
    ensures ExactAfter(schema, db0, [])
  {
    forall key ensures RestoredRow(db0, db0.lastValue, key) == Lookup(db0, key) {
      if key.table in schema.columns {
        AfterOld(db0.logs[key.table], db0.lastValue[key.table]);
      }
    }
  }

  lemma {:induction false} HarmlessIsExact(schema: Schema, db0: Db, steps: seq<Step>, n: nat)
    requires Valid(schema, db0) && KeepsIds(steps) && n <= |steps|
    requires forall m :: 0 <= m < n ==> Harmless(schema, Run(schema, db0, steps[..m]), db0.lastValue, steps[m])
    ensures ExactAfter(schema, db0, steps[..n])
  {
    if n == 0 {
      ExactAtStart(schema, db0);
    } else {
      HarmlessIsExact(schema, db0, steps, n - 1);
      TakeNext(steps, n - 1);
      ExactStep(schema, db0, steps[..n - 1], steps[n - 1]);
    }
  }

  // ---------- rollbacks as runs ----------

  function UndoSteps(schema: Schema, changes: seq<Entry>, clock: nat -> Stamp, n: nat): seq<Step>
    requires WellFormedSchema(schema) && AllFit(schema, changes)
    decreases changes
  {
    if changes == [] then []
    else [Step(UndoWrite(schema, changes[0]), clock(n))] + UndoSteps(schema, changes[1..], clock, n + 1)
  }

  /** The undo statements are ordinary audited statements: a completed rollback is itself a run. */
  lemma {:induction false} ReplayIsRun(schema: Schema, db: Db, changes: seq<Entry>, clock: nat -> Stamp, n: nat)
    requires WellFormedSchema(schema) && AllFit(schema, changes) && TablesOf(schema, db)
    requires Replay(schema, db, changes, clock, n).Ok?
    ensures Replay(schema, db, changes, clock, n).value == Run(schema, db, UndoSteps(schema, changes, clock, n))
    decreases changes
  {
    if changes != [] {
      var step := Step(UndoWrite(schema, changes[0]), clock(n));
      var later := UndoSteps(schema, changes[1..], clock, n + 1);
      ReplayIsRun(schema, Exec(schema, db, step), changes[1..], clock, n + 1);
      RunCons(schema, db, step, later);
    }
  }

  lemma RunCons(schema: Schema, db: Db, step: Step, later: seq<Step>)
    requires WellFormedSchema(schema) && TablesOf(schema, db)
    ensures Run(schema, db, [step] + later) == Run(schema, Exec(schema, db, step), later)
  {
    assert [step][..0] == [];
    RunConcat(schema, db, [step], later);
  }

  lemma {:induction false} UndoStepsKeepIds(schema: Schema, changes: seq<Entry>, clock: nat -> Stamp, n: nat)
    requires WellFormedSchema(schema) && AllFit(schema, changes)
    ensures KeepsIds(UndoSteps(schema, changes, clock, n))
    decreases changes
  {
    if changes != [] {
      UndoStepsKeepIds(schema, changes[1..], clock, n + 1);
    }
  }

  /** A rollback of `db` to the snapshot `base` has run to its end and left `result`. */
  ghost predicate RolledBack(schema: Schema, db: Db, base: map<string, nat>, snap: seq<MaxId>,
                             answers: seq<seq<Entry>>, clock: nat -> Stamp, result: Db)
    requires WellFormedSchema(schema) && TablesOf(schema, db) && base.Keys == schema.columns.Keys
  {
    && IsSnapshot(snap, base) && SqlAnswers(db, snap, answers) && PerRowOrdered(schema, db, base)
    && AllFit(schema, Fetch(answers)) && Rollback(schema, db, answers, clock) == Ok(result)
  }

  /** A completed rollback of a run of `db0` is a longer run of `db0`. */
  lemma RolledBackIsRun(schema: Schema, db0: Db, steps: seq<Step>, base: map<string, nat>, snap: seq<MaxId>,
                        answers: seq<seq<Entry>>, clock: nat -> Stamp, result: Db)
    requires RollbackSetting(schema, db0, steps) && base.Keys == schema.columns.Keys
    requires RolledBack(schema, Run(schema, db0, steps), base, snap, answers, clock, result)
    ensures var undo := UndoSteps(schema, Fetch(answers), clock, 0);
            KeepsIds(steps + undo) && result == Run(schema, db0, steps + undo)
  {
    var undo := UndoSteps(schema, Fetch(answers), clock, 0);
    ReplayIsRun(schema, Run(schema, db0, steps), Fetch(answers), clock, 0);
    UndoStepsKeepIds(schema, Fetch(answers), clock, 0);
    RunConcat(schema, db0, steps, undo);
  }

  /** A completed rollback of a run restores its start off the filters. */
  lemma {:induction false} RolledBackRestores(schema: Schema, db0: Db, steps: seq<Step>, snap: seq<MaxId>,
                                              answers: seq<seq<Entry>>, clock: nat -> Stamp, result: Db)
    requires RollbackSetting(schema, db0, steps)
    requires RolledBack(schema, Run(schema, db0, steps), db0.lastValue, snap, answers, clock, result)
    ensures SameOffFilters(schema, result, db0)
  {
    RollbackInvertsAnyRun(schema, db0, steps, snap, answers, clock);
  }

  /** A run that contains a completed rollback to an inner snapshot is one run. */
  lemma {:induction false} RunThroughRollback(schema: Schema, db0: Db, run1: seq<Step>, run2: seq<Step>,
                                              run3: seq<Step>, snap: seq<MaxId>, answers: seq<seq<Entry>>,
                                              clock: nat -> Stamp, result: Db)
    returns (steps: seq<Step>)
    requires RollbackSetting(schema, db0, run1) && KeepsIds(run2) && KeepsIds(run3)
    requires var db1 := Run(schema, db0, run1);
             RolledBack(schema, Run(schema, db1, run2), db1.lastValue, snap, answers, clock, result)
    requires TablesOf(schema, result)
    ensures RollbackSetting(schema, db0, steps) && Run(schema, db0, steps) == Run(schema, result, run3)
  {
    var db1 := Run(schema, db0, run1);
    RunConcat(schema, db0, run1, run2);
    RolledBackIsRun(schema, db0, run1 + run2, db1.lastValue, snap, answers, clock, result);
    var through := run1 + run2 + UndoSteps(schema, Fetch(answers), clock, 0);
    RunConcat(schema, db0, through, run3);
    steps := through + run3;
  }

  /**
    Rolling back to an inner snapshot, doing more writes and rolling back to an outer snapshot restores the outer
    state: the outer undo also undoes the inner rollback's own log entries.
   */
  lemma {:induction false} RollbackComposes(schema: Schema, db0: Db, run1: seq<Step>, run2: seq<Step>, run3: seq<Step>,
                         inner: seq<MaxId>, innerAnswers: seq<seq<Entry>>, innerClock: nat -> Stamp, afterInner: Db,
                         outer: seq<MaxId>, outerAnswers: seq<seq<Entry>>, outerClock: nat -> Stamp, afterOuter: Db)
    requires RollbackSetting(schema, db0, run1) && KeepsIds(run2) && KeepsIds(run3)
    requires var db1 := Run(schema, db0, run1);
             RolledBack(schema, Run(schema, db1, run2), db1.lastValue, inner, innerAnswers, innerClock, afterInner)
    requires TablesOf(schema, afterInner)
    requires RolledBack(schema, Run(schema, afterInner, run3), db0.lastValue, outer, outerAnswers, outerClock,
                        afterOuter)
    ensures SameOffFilters(schema, afterInner, Run(schema, db0, run1))
    ensures SameOffFilters(schema, afterOuter, db0)
  {
    RunValid(schema, db0, run1);
    RolledBackRestores(schema, Run(schema, db0, run1), run2, inner, innerAnswers, innerClock, afterInner);
    var steps := RunThroughRollback(schema, db0, run1, run2, run3, inner, innerAnswers, innerClock, afterInner);
    RolledBackRestores(schema, db0, steps, outer, outerAnswers, outerClock, afterOuter);
  }

  /** Rolling back again to the same snapshot changes nothing on non-filtered columns. */
  lemma {:induction false} RepeatedRollback(schema: Schema, db0: Db, steps: seq<Step>, snap: seq<MaxId>,
                         first: seq<seq<Entry>>, clock1: nat -> Stamp, once: Db,
                         second: seq<seq<Entry>>, clock2: nat -> Stamp, twice: Db)
    requires RollbackSetting(schema, db0, steps)
    requires RolledBack(schema, Run(schema, db0, steps), db0.lastValue, snap, first, clock1, once)
    requires TablesOf(schema, once)
    requires RolledBack(schema, once, db0.lastValue, snap, second, clock2, twice)
    ensures SameOffFilters(schema, twice, once)
  {
    RolledBackIsRun(schema, db0, steps, db0.lastValue, snap, first, clock1, once);
    RolledBackRestores(schema, db0, steps, snap, first, clock1, once);
    RolledBackRestores(schema, db0, steps + UndoSteps(schema, Fetch(first), clock1, 0), snap, second, clock2, twice);
    SameOffBoth(schema, twice, once, db0);
  }

  lemma SameOffBoth(schema: Schema, a: Db, b: Db, c: Db)
    requires SameOffFilters(schema, a, c) && SameOffFilters(schema, b, c)
    ensures SameOffFilters(schema, a, b)
  {
    forall key: Key ensures AgreeOff(Filtered(schema, key.table), Lookup(a, key), Lookup(b, key)) {
      assert AgreeOff(Filtered(schema, key.table), Lookup(a, key), Lookup(c, key));
      assert AgreeOff(Filtered(schema, key.table), Lookup(b, key), Lookup(c, key));
    }
  }

  // ---------- what a wrong order does ----------

  lemma {:induction false} UndoBackConcat(a: seq<Entry>, b: seq<Entry>, row: Option<Row>)
    ensures UndoBack(a + b, row) == UndoBack(a, UndoBack(b, row))
    ensures Undoable(a + b, row) <==> Undoable(b, row) && Undoable(a, UndoBack(b, row))
    decreases b
  {
    if b == [] {
      assert a + b == a;
    } else {
      var n := |b| - 1;
      assert (a + b)[|a + b| - 1] == b[n] && (a + b)[..|a + b| - 1] == a + b[..n];
      UndoBackConcat(a, b[..n], UndoRow(b[n].change, row));
    }
  }

  lemma UndoPair(a: Entry, b: Entry, row: Option<Row>)
    ensures UndoBack([a, b], row) == UndoRow(a.change, UndoRow(b.change, row))
    ensures Undoable([a, b], row) <==> CanUndo(b.change, row) && CanUndo(a.change, UndoRow(b.change, row))
  {
    var es := [a, b];
    var r := UndoRow(b.change, row);
    assert es[..1] == [a] && es[1] == b && [a][..0] == [];
    assert UndoBack([a], r) == UndoRow(a.change, r) && Undoable([a], r) == CanUndo(a.change, r);
    assert UndoBack(es, row) == UndoBack(es[..1], r) &&
           Undoable(es, row) == (CanUndo(b.change, row) && Undoable(es[..1], r));
  }

  /** The two updates disagree on a column only if an older entry holds that column as well. */
  ghost predicate OverlapCovered(older: seq<Entry>, a: Row, b: Row) {
    forall c :: c in a && c in b && a[c] != b[c] ==> Covered(older, c)
  }

  lemma SwappedOverlay(older: seq<Entry>, row: Row, a: Row, b: Row)
    requires Undoable(older, Some(row + b + a))
    ensures Undoable(older, Some(row + a + b))
    ensures UndoBack(older, Some(row + a + b)) == UndoBack(older, Some(row + b + a)) <==> OverlapCovered(older, a, b)
  {
    var x, y := row + a + b, row + b + a;
    UndoCongruence(x.Keys, older, Some(x), Some(y));
    UndoCovered(older, x, y);
    assert forall c :: c in Changed(x, y) <==> c in a && c in b && a[c] != b[c];
  }

  /** Two successive updates of a row undone in the wrong order, with everything before and after them. */
  lemma SwappedUndo(older: seq<Entry>, a: Entry, b: Entry, newer: seq<Entry>, row: Option<Row>)
    requires a.change.Updated? && b.change.Updated? && Undoable(older + [a, b] + newer, row)
    ensures Undoable(older + [b, a] + newer, row)
    ensures UndoBack(older + [b, a] + newer, row) == UndoBack(older + [a, b] + newer, row) <==>
            OverlapCovered(older, a.change.pre, b.change.pre)
  {
    UndoBackConcat(older + [a, b], newer, row);
    UndoBackConcat(older + [b, a], newer, row);
    var r := UndoBack(newer, row);
    UndoBackConcat(older, [a, b], r);
    UndoBackConcat(older, [b, a], r);
    UndoPair(a, b, r);
    UndoPair(b, a, r);
    SwappedOverlay(older, r.value, a.change.pre, b.change.pre);
  }

  /**
    Updates of one row in one transaction carry one timestamp, so the log query may list the older one first.  For any
    run and snapshot in which two successive updates of a row come swapped, the rollback still succeeds, and it restores
    the row iff every column on which the two disagree is held by an older entry as well.
   */
  lemma {:induction false} TiedUpdatesMisorder(schema: Schema, db0: Db, steps: seq<Step>, snap: seq<MaxId>,
                                               answers: seq<seq<Entry>>, clock: nat -> Stamp, key: Key,
                                               older: seq<Entry>, a: Entry, b: Entry, newer: seq<Entry>)
    requires RollbackSetting(schema, db0, steps) && IsSnapshot(snap, db0.lastValue) && key.table in schema.columns
    requires var db := Run(schema, db0, steps);
             SqlAnswers(db, snap, answers) && History(db, db0.lastValue, key) == older + [a, b] + newer &&
             (forall k: Key :: k != key && k.table in schema.columns ==>
              OrderedUpToCommuting(History(db, db0.lastValue, k)))
    requires a.change.Updated? && b.change.Updated? && ForKey(Fetch(answers), key) == Reverse(older + [b, a] + newer)
    ensures AllFit(schema, Fetch(answers))
    ensures var db := Run(schema, db0, steps);
            var r := Rollback(schema, db, answers, clock);
            r.Ok? && (Lookup(r.value, key) == RestoredRow(db, db0.lastValue, key) <==>
                      OverlapCovered(older, a.change.pre, b.change.pre))
  {
    var db := Run(schema, db0, steps);
    RunValid(schema, db0, steps);
    FetchHistory(schema, db, db0.lastValue, snap, answers);
    var changes := Fetch(answers);
    RunInvariant(schema, db0, steps, key);
    SwappedUndo(older, a, b, newer, Lookup(db, key));
    ReverseUndo(older + [b, a] + newer, Lookup(db, key));
    forall k: Key ensures Performable(ForKey(changes, k), Lookup(db, k)) {
      if k != key {
        OthersPerform(schema, db0, steps, changes, k);
      }
    }
    ReplayRows(schema, db, changes, clock, 0);
  }

  lemma OthersPerform(schema: Schema, db0: Db, steps: seq<Step>, changes: seq<Entry>, k: Key)
    requires Valid(schema, db0) && KeepsIds(steps)
    requires k.table in schema.columns ==>
               var history := History(Run(schema, db0, steps), db0.lastValue, k);
               OrderedUpToCommuting(history) && Desc(ForKey(changes, k)) &&
                   multiset(ForKey(changes, k)) == multiset(history)
    requires AllFit(schema, changes)
    ensures Performable(ForKey(changes, k), Lookup(Run(schema, db0, steps), k))
  {
    var db := Run(schema, db0, steps);
    if k.table in schema.columns {
      RunInvariant(schema, db0, steps, k);
      ListedUndoes(History(db, db0.lastValue, k), ForKey(changes, k), Lookup(db, k));
    } else {
      ForKeyElsewhere(changes, k);
    }
  }
}
