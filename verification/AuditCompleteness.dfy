/**
  hasModifiedData (src/lib/programmaticTransaction.ts): when one transaction makes every write after a snapshot, a
  negative answer means that no audited table differs from the snapshot on a non-filtered column.
 */
module AuditCompleteness {
  import opened Prelude
  import opened AuditLog
  import opened AuditUndo

  /** `ddl` holds the highest ZALDDL id and is present only when the snapshot was taken with includeDDL. */
  datatype Snapshot = Snapshot(tables: seq<MaxId>, ddl: Option<nat>)

  const DESCRIPTOR_TABLE := "ZADescriptor"

  /** SQL LIKE 'pg_temp.%', where the underscore stands for any one character. */
  predicate IsTempName(s: string) {
    |s| >= 8 && s[..2] == "pg" && s[3..8] == "temp."
  }

  predicate LoggedBy(log: seq<Entry>, maxId: nat, txid: int) {
    exists i :: 0 <= i < |log| && log[i].logId > maxId && log[i].at.txid == txid
  }

  /** NOT LIKE on a null identity is not true, so a nameless command does not count. */
  predicate DdlBy(ddl: seq<DdlEntry>, maxId: nat, txid: int) {
    exists i :: 0 <= i < |ddl| && ddl[i].ddlId > maxId && ddl[i].txid == txid &&
                ddl[i].objectIdentity.Some? && !IsTempName(ddl[i].objectIdentity.value)
  }

  ghost predicate Modified(db: Db, base: map<string, nat>, ddlMax: nat, txid: int) {
    RowsModified(db, base, txid) || DdlBy(db.ddl, ddlMax, txid)
  }

  ghost predicate OneTransaction(steps: seq<Step>, txid: int) {
    forall i :: 0 <= i < |steps| ==> steps[i].at.txid == txid
  }

  /** Every entry newer than the snapshot carries the transaction. */
  ghost predicate NewEntriesIn(log: seq<Entry>, maxId: nat, txid: int) {
    forall i :: 0 <= i < |log| && log[i].logId > maxId ==> log[i].at.txid == txid
  }

  lemma {:induction false} NewEntriesAreIn(schema: Schema, db0: Db, steps: seq<Step>, txid: int, table: string)
    requires Valid(schema, db0) && OneTransaction(steps, txid) && table in schema.columns
    ensures NewEntriesIn(Run(schema, db0, steps).logs[table], db0.lastValue[table], txid)
  {
    if steps != [] {
      var n := |steps| - 1;
      NewEntriesAreIn(schema, db0, steps[..n], txid, table);
      var db := Run(schema, db0, steps[..n]);
      LogGrows(schema, db, steps[n], table);
      NewEntriesStay(db.logs[table], Exec(schema, db, steps[n]).logs[table], db0.lastValue[table], txid);
    }
  }

  lemma NewEntriesStay(log: seq<Entry>, log': seq<Entry>, maxId: nat, txid: int)
    requires NewEntriesIn(log, maxId, txid)
    requires log' == log || (|log'| == |log| + 1 && log'[..|log|] == log && log'[|log|].at.txid == txid)
    ensures NewEntriesIn(log', maxId, txid)
  {
    assert forall i :: 0 <= i < |log| ==> log'[..|log|][i] == log'[i];
  }

  /** A statement appends at most one entry to a log, under its own stamp. */
  lemma LogGrows(schema: Schema, db: Db, step: Step, table: string)
    requires TablesOf(schema, db) && table in schema.columns
    ensures var log, log' := db.logs[table], Exec(schema, db, step).logs[table];
            log' == log || (|log'| == |log| + 1 && log'[..|log|] == log && log'[|log|].at == step.at)
  {
    var _ := ExecShape(schema, db, step);
  }

  /** A row whose log shows nothing since the snapshot has kept its non-filtered columns. */
  lemma {:induction false} UnloggedRowKept(schema: Schema, db0: Db, steps: seq<Step>, txid: int, key: Key)
    requires Valid(schema, db0) && KeepsIds(steps) && OneTransaction(steps, txid) && key.table in schema.columns
    requires var db := Run(schema, db0, steps);
             !LoggedBy(db.logs[key.table], db0.lastValue[key.table], txid)
    ensures AgreeOff(Filtered(schema, key.table), Lookup(Run(schema, db0, steps), key), Lookup(db0, key))
  {
    var db := Run(schema, db0, steps);
    NewEntriesAreIn(schema, db0, steps, txid, key.table);
    RunInvariant(schema, db0, steps, key);
    AfterOld(db.logs[key.table], db0.lastValue[key.table]);
  }

  /** A negative answer clears every audited table except the descriptor table. */
  lemma NegativeAnswerIsSound(schema: Schema, db0: Db, steps: seq<Step>, ddlMax: nat, txid: int)
    requires Valid(schema, db0) && KeepsIds(steps) && OneTransaction(steps, txid)
    requires !Modified(Run(schema, db0, steps), db0.lastValue, ddlMax, txid)
    ensures forall key: Key :: key.table != "ZADescriptor" ==>
              AgreeOff(Filtered(schema, key.table), Lookup(Run(schema, db0, steps), key), Lookup(db0, key))
  {
    RunValid(schema, db0, steps);
    forall key: Key | key.table != DESCRIPTOR_TABLE
      ensures AgreeOff(Filtered(schema, key.table), Lookup(Run(schema, db0, steps), key), Lookup(db0, key))
    {
      if key.table in schema.columns {
        UnloggedRowKept(schema, db0, steps, txid, key);
      }
    }
  }

  /** The statement takes effect and the audit system records it outside the descriptor table and temporary objects. */
  ghost predicate Logs(schema: Schema, db: Db, step: Step)
    requires TablesOf(schema, db)
  {
    if step.write.Ddl? then
      step.write.objectIdentity.Some? &&
      var name := step.write.objectIdentity.value;
      !(|name| >= 8 && name[..2] + "_" + name[3..8] == "pg_temp.")
    else
      exists key: Key :: LogsRow(schema, db, step, key)
  }

  ghost predicate LogsRow(schema: Schema, db: Db, step: Step, key: Key)
    requires TablesOf(schema, db)
  {
    key.table in schema.columns && key.table != "ZADescriptor" &&
    Trigger(schema, key.table, Lookup(db, key), Lookup(Exec(schema, db, step), key)).Some?
  }

  lemma TempNameIs(s: string)
    ensures IsTempName(s) <==> |s| >= 8 && s[..2] + "_" + s[3..8] == "pg_temp."
  {
    if |s| >= 8 {
      var t := s[..2] + "_" + s[3..8];
      assert s[..2] == t[..2] && s[3..8] == t[3..8];
      assert "pg_temp."[..2] == "pg" && "pg_temp."[3..8] == "temp.";
      assert "pg" + "_" + "temp." == "pg_temp.";
    }
  }

  lemma LoggedByAppend(log: seq<Entry>, e: Entry, maxId: nat, txid: int)
    requires e.logId > maxId && e.at.txid == txid
    ensures LoggedBy(log + [e], maxId, txid)
  {
    assert (log + [e])[|log|] == e;
  }

  lemma DdlByAppend(ddl: seq<DdlEntry>, e: DdlEntry, maxId: nat, txid: int)
    requires e.ddlId > maxId && e.txid == txid
    ensures DdlBy(ddl + [e], maxId, txid) <==>
            DdlBy(ddl, maxId, txid) || (e.objectIdentity.Some? && !IsTempName(e.objectIdentity.value))
  {
    assert (ddl + [e])[|ddl|] == e;
    if DdlBy(ddl, maxId, txid) {
      var i :| 0 <= i < |ddl| && ddl[i].ddlId > maxId && ddl[i].txid == txid &&
               ddl[i].objectIdentity.Some? && !IsTempName(ddl[i].objectIdentity.value);
      assert (ddl + [e])[i] == ddl[i];
    }
  }

  ghost predicate RowsModified(db: Db, base: map<string, nat>, txid: int) {
    exists t :: t in db.logs && t in base && t != DESCRIPTOR_TABLE && LoggedBy(db.logs[t], base[t], txid)
  }

  lemma LogsStep(schema: Schema, db: Db, step: Step, base: map<string, nat>, ddlMax: nat, txid: int)
    requires TablesOf(schema, db) && step.at.txid == txid
    requires base.Keys == schema.columns.Keys && forall t :: t in base ==> base[t] <= db.lastValue[t]
    requires ddlMax <= db.ddlLast
    ensures Modified(Exec(schema, db, step), base, ddlMax, txid) <==>
            Modified(db, base, ddlMax, txid) || Logs(schema, db, step)
  {
    var db' := Exec(schema, db, step);
    var written := ExecShape(schema, db, step);
    if step.write.Ddl? {
      if step.write.objectIdentity.Some? {
        TempNameIs(step.write.objectIdentity.value);
      }
      DdlByAppend(db.ddl, DdlEntry(db.ddlLast + 1, step.write.objectIdentity, txid), ddlMax, txid);
    } else if written.Some? {
      var (key, after) := written.value;
      RowLogged(schema, db, key, after, step.at, base);
      LogsWhatItWrites(schema, db, step, key, after);
    } else {
      assert forall k :: Lookup(db', k) == Lookup(db, k);
    }
  }

  lemma LogsWhatItWrites(schema: Schema, db: Db, step: Step, key: Key, after: Option<Row>)
    requires TablesOf(schema, db) && key.table in schema.columns && !step.write.Ddl?
    requires Exec(schema, db, step) == Write1(schema, db, key, after, step.at)
    ensures Logs(schema, db, step) <==>
            key.table != DESCRIPTOR_TABLE && Trigger(schema, key.table, Lookup(db, key), after).Some?
  {
    forall k ensures LogsRow(schema, db, step, k) ==> k == key {
      UntouchedRow(schema, db, key, after, step.at, k);
    }
    UntouchedRow(schema, db, key, after, step.at, key);
    assert LogsRow(schema, db, step, key) <==>
           key.table != DESCRIPTOR_TABLE && Trigger(schema, key.table, Lookup(db, key), after).Some?;
  }

  lemma RowLogged(schema: Schema, db: Db, key: Key, after: Option<Row>, at: Stamp, base: map<string, nat>)
    requires TablesOf(schema, db) && key.table in schema.columns
    requires base.Keys == schema.columns.Keys && base[key.table] <= db.lastValue[key.table]
    ensures RowsModified(Write1(schema, db, key, after, at), base, at.txid) <==>
            RowsModified(db, base, at.txid) ||
            (key.table != DESCRIPTOR_TABLE && Trigger(schema, key.table, Lookup(db, key), after).Some?)
  {
    var t := key.table;
    var db' := Write1(schema, db, key, after, at);
    var c := Trigger(schema, t, Lookup(db, key), after);
    if c.Some? {
      var e := Entry(db.lastValue[t] + 1, key, c.value, at);
      assert db'.logs[t] == db.logs[t] + [e];
      LoggedByAppend(db.logs[t], e, base[t], at.txid);
      if RowsModified(db, base, at.txid) {
        var u :| u in db.logs && u in base && u != DESCRIPTOR_TABLE && LoggedBy(db.logs[u], base[u], at.txid);
        assert LoggedBy(db'.logs[u], base[u], at.txid);
      }
      if RowsModified(db', base, at.txid) && !RowsModified(db, base, at.txid) {
        var u :| u in db'.logs && u in base && u != DESCRIPTOR_TABLE && LoggedBy(db'.logs[u], base[u], at.txid);
        assert u == t;
      }
    } else {
      assert db'.logs == db.logs;
    }
  }

  lemma {:induction false} LastValueGrows(schema: Schema, db0: Db, steps: seq<Step>)
    requires TablesOf(schema, db0)
    ensures var db := Run(schema, db0, steps);
            db.ddlLast >= db0.ddlLast && forall t :: t in db0.lastValue ==> db.lastValue[t] >= db0.lastValue[t]
  {
    if steps != [] {
      var n := |steps| - 1;
      LastValueGrows(schema, db0, steps[..n]);
      var _ := ExecShape(schema, Run(schema, db0, steps[..n]), steps[n]);
    }
  }

  ghost predicate LogsAt(schema: Schema, db0: Db, steps: seq<Step>, n: int)
    requires TablesOf(schema, db0)
  {
    0 <= n < |steps| && Logs(schema, Run(schema, db0, steps[..n]), steps[n])
  }

  /** The answer is positive exactly when some statement was logged on a table other than the descriptor table, or some
      schema command on a permanent object was. */
  lemma {:induction false} PositiveAnswerIffLogged(schema: Schema, db0: Db, steps: seq<Step>, txid: int)
    requires Valid(schema, db0) && OneTransaction(steps, txid)
    ensures Modified(Run(schema, db0, steps), db0.lastValue, db0.ddlLast, txid) <==>
            exists n :: LogsAt(schema, db0, steps, n)
  {
    if steps != [] {
      var n := |steps| - 1;
      var init := steps[..n];
      PositiveAnswerIffLogged(schema, db0, init, txid);
      LastValueGrows(schema, db0, init);
      LogsStep(schema, Run(schema, db0, init), steps[n], db0.lastValue, db0.ddlLast, txid);
      forall m | 0 <= m < n ensures LogsAt(schema, db0, steps, m) == LogsAt(schema, db0, init, m) {
        assert init[..m] == steps[..m];
      }
      assert LogsAt(schema, db0, steps, n) == Logs(schema, Run(schema, db0, init), steps[n]);
    }
  }
}
