/**
  The audited database in place: every write runs the row trigger, and the methods of
  src/lib/programmaticTransaction.ts take snapshots, roll back and look for modifications.
 */
module AuditDatabase {
  import opened Prelude
  import opened AuditLog
  import opened AuditUndo
  import opened AuditOrder
  import opened AuditRollback
  import opened AuditCompleteness

  datatype RollbackError = Production | NoSuchColumn

  datatype ModifiedError = NoTransaction | NoSnapshotEntry

  class AuditedDatabase {
    const schema: Schema
    var rows: map<Key, Row>
    var logs: map<string, seq<Entry>>
    var lastValue: map<string, nat>
    var ddl: seq<DdlEntry>
    var ddlLast: nat

    ghost function State(): Db
      reads this
    {
      Db(rows, logs, lastValue, ddl, ddlLast)
    }

    ghost predicate Sound()
      reads this
    {
      Valid(schema, State()) && WellFormedSchema(schema)
    }

    constructor (schema: Schema)
      requires WellFormedSchema(schema)
      ensures this.schema == schema && Sound()
      ensures rows == map[] && ddl == [] && ddlLast == 0
      ensures forall t :: t in schema.columns ==> logs[t] == [] && lastValue[t] == 0
    {
      this.schema := schema;
      rows := map[];
      logs := map t | t in schema.columns :: [];
      lastValue := map t | t in schema.columns :: 0;
      ddl := [];
      ddlLast := 0;
    }

    /** The body of the row trigger of table `key.table`, run after a row went from `before` to `after`. */
    method RowTrigger(key: Key, before: Option<Row>, after: Option<Row>, at: Stamp)
      requires key.table in logs && key.table in lastValue
      requires before.Some? || after.Some?
      modifies this`logs, this`lastValue
      ensures match Trigger(schema, key.table, before, after)
              case None => logs == old(logs) && lastValue == old(lastValue)
              case Some(change) =>
                var id := old(lastValue)[key.table] + 1;
                logs == old(logs)[key.table := old(logs)[key.table] + [Entry(id, key, change, at)]] &&
                lastValue == old(lastValue)[key.table := id]
      ensures before.Some? && after.Some? && !Loggable(schema, key.table, before.value, after.value) ==>
                logs == old(logs) && lastValue == old(lastValue)
      ensures before.None? || after.None? || Loggable(schema, key.table, before.value, after.value) ==>
                lastValue == old(lastValue)[key.table := old(lastValue)[key.table] + 1] &&
                exists change :: Describes(change, before, after) &&
                  logs == old(logs)[key.table :=
                    old(logs)[key.table] + [Entry(old(lastValue)[key.table] + 1, key, change, at)]]
    {
      TriggerDescribes(schema, key.table, before, after);
      if before.None? {
        Append(key, Inserted(after.value), at);
      } else if after.Some? {
        var uniqueOld := Restrict(before.value, Changed(before.value, after.value));
        var uniqueNew := Restrict(after.value, Changed(before.value, after.value));
        var isLoggable := !(Changed(before.value, after.value) <= Filtered(schema, key.table));
        if isLoggable {
          Append(key, Updated(uniqueOld, uniqueNew), at);
        }
      } else {
        Append(key, Deleted(before.value), at);
      }
    }

    method Append(key: Key, change: Change, at: Stamp)
      requires key.table in logs && key.table in lastValue
      modifies this`logs, this`lastValue
      ensures lastValue == old(lastValue)[key.table := old(lastValue)[key.table] + 1]
      ensures logs == old(logs)[key.table :=
                old(logs)[key.table] + [Entry(old(lastValue)[key.table] + 1, key, change, at)]]
    {
      var id := lastValue[key.table] + 1;
      lastValue := lastValue[key.table := id];
      logs := logs[key.table := logs[key.table] + [Entry(id, key, change, at)]];
    }

    /** Replaces, adds or removes one row; the trigger runs after it. */
    method WriteRow(key: Key, after: Option<Row>, at: Stamp)
      requires key.table in logs && key.table in lastValue && (key in rows || after.Some?)
      modifies this`rows, this`logs, this`lastValue
      ensures State() == Write1(schema, old(State()), key, after, at)
    {
      var before := if key in rows then Some(rows[key]) else None;
      rows := if after.Some? then rows[key := after.value] else rows - {key};
      RowTrigger(key, before, after, at);
    }

    /** Executes one statement; an error leaves the database unchanged. */
    method Execute(write: Write, at: Stamp) returns (error: Option<DbError>)
      requires TablesOf(schema, State())
      modifies this
      ensures match Apply(schema, old(State()), Step(write, at))
              case Ok(after) => error == None && State() == after
              case Err(e) => error == Some(e) && State() == old(State())
    {
      match write {
      case Insert(table, row) =>
        if table !in schema.columns { return Some(UnknownTable); }
        if !RowFits(schema, table, row) { return Some(BadRow); }
        var key := Key(table, row["id"].n);
        if key in rows { return Some(DuplicateKey); }
        WriteRow(key, Some(row), at);
      case Update(key, assign) =>
        if key.table !in schema.columns { return Some(UnknownTable); }
        if !(assign.Keys <= Columns(schema.columns[key.table])) { return Some(UnknownColumn); }
        if key in rows {
          WriteRow(key, Some(rows[key] + assign), at);
        }
      case Delete(key) =>
        if key.table !in schema.columns { return Some(UnknownTable); }
        if key in rows {
          WriteRow(key, None, at);
        }
      case Abandon(table) =>
        if table !in schema.columns { return Some(UnknownTable); }
        lastValue := lastValue[table := lastValue[table] + 1];
      case Ddl(name) =>
        ddlLast := ddlLast + 1;
        ddl := ddl + [DdlEntry(ddlLast, name, at.txid)];
      }
      return None;
    }

    /** `catalogue` lists each log table once, in the order the catalogue query happens to return them. */
    method CaptureSnapshot(catalogue: seq<string>, includeDDL: bool) returns (snap: Snapshot)
      requires TablesOf(schema, State())
      requires forall i, j :: 0 <= i < j < |catalogue| ==> catalogue[i] != catalogue[j]
      requires (set t | t in catalogue) == schema.columns.Keys
      ensures IsSnapshot(snap.tables, lastValue)
      ensures snap.ddl == if includeDDL then Some(ddlLast) else None
    {
      var tables := [];
      assert forall i :: 0 <= i < |catalogue| ==> catalogue[i] in (set t | t in catalogue);
      for i := 0 to |catalogue|
        invariant |tables| == i
        invariant forall k :: 0 <= k < i ==>
                    catalogue[k] in lastValue && tables[k] == MaxId(catalogue[k], lastValue[catalogue[k]])
      {
        tables := tables + [MaxId(catalogue[i], lastValue[catalogue[i]])];
      }
      snap := Snapshot(tables, if includeDDL then Some(ddlLast) else None);
      forall t | t in lastValue ensures exists i :: 0 <= i < |tables| && tables[i].table == t {
        assert t in (set u | u in catalogue);
        var i :| 0 <= i < |catalogue| && catalogue[i] == t;
        assert tables[i].table == t;
      }
    }

    /** Joins the per-table answers and sorts them newest first.  ZALDDL has no dml_timestamp to order by. */
    method FetchAndAggregateChanges(snap: Snapshot, answers: seq<seq<Entry>>)
      returns (r: Result<seq<Entry>, RollbackError>)
      ensures r == if snap.ddl.Some? then Err(NoSuchColumn) else Ok(Fetch(answers))
      ensures r.Ok? ==>
                (forall i, j :: 0 <= i < j < |r.value| ==>
                   r.value[i].at.timestamp / 1000 >= r.value[j].at.timestamp / 1000) &&
                multiset(r.value) == multiset(Flatten(answers)) &&
                forall ms: nat :: AtMillis(r.value, ms) == AtMillis(Flatten(answers), ms)
    {
      if snap.ddl.Some? { return Err(NoSuchColumn); }
      var allChanges := [];
      var i := |answers|;
      while i > 0
        invariant 0 <= i <= |answers|
        invariant allChanges == Flatten(answers[i..])
      {
        i := i - 1;
        assert answers[i..][0] == answers[i] && answers[i..][1..] == answers[i + 1..];
        allChanges := answers[i] + allChanges;
      }
      assert answers[0..] == answers;
      SortIsStable(allChanges);
      return Ok(SortDesc(allChanges));
    }

    /** Shifts one change off the list, undoes it, and recurses; stops at the first failing statement. */
    method RevertChange(changes: seq<Entry>, clock: nat -> Stamp, n: nat) returns (error: Option<DbError>)
      requires WellFormedSchema(schema) && AllFit(schema, changes) && TablesOf(schema, State())
      modifies this
      ensures TablesOf(schema, State())
      ensures match Replay(schema, old(State()), changes, clock, n)
              case Ok(after) => error == None && State() == after
              case Err(e) =>
                error == Some(e) &&
                exists k: nat :: StoppedAt(schema, old(State()), changes, clock, n, k, e, State())
      decreases changes
    {
      if changes == [] { return None; }
      var change := changes[0];
      match change.change {
        case Inserted(_) =>
          error := Execute(Delete(change.key), clock(n));
        case Deleted(row) =>
          error := Execute(Insert(change.key.table, ReplayedRow(schema.columns[change.key.table], row, change.key.id)),
                           clock(n));
        case Updated(pre, _) =>
          error := Execute(Update(change.key, pre), clock(n));
      }
      if error.Some? {
        assert StoppedAt(schema, old(State()), changes, clock, n, 0, error.value, State());
        return;
      }
      ghost var next := State();
      error := RevertChange(changes[1..], clock, n + 1);
      if error.Some? {
        ghost var k: nat :| StoppedAt(schema, next, changes[1..], clock, n + 1, k, error.value, State());
        StoppedLater(schema, old(State()), changes, clock, n, k, error.value, State());
      }
    }

    /**
      rollbackToSnapshot.  `start` and `steps` are the database at the snapshot and everything executed since; outside
      production, and for a snapshot without the DDL log, the rollback succeeds and restores the start.
     */
    method RollbackToSnapshot(production: bool, snap: Snapshot, answers: seq<seq<Entry>>, clock: nat -> Stamp,
                              ghost start: Db, ghost steps: seq<Step>)
      returns (error: Option<RollbackError>)
      requires Sound() && RollbackSetting(schema, start, steps) && State() == Run(schema, start, steps)
      requires IsSnapshot(snap.tables, start.lastValue) && SqlAnswers(State(), snap.tables, answers)
      requires PerRowOrdered(schema, State(), start.lastValue)
      modifies this
      ensures error == if production then Some(Production) else if snap.ddl.Some? then Some(NoSuchColumn) else None
      ensures error.Some? ==> State() == old(State())
      ensures error.None? ==> Sound() && SameOffFilters(schema, State(), start)
      ensures error.None? ==> (rows == start.rows <==> FilteredColumnsHeld(schema, start, steps))
    {
      if production { return Some(Production); }
      var fetched := FetchAndAggregateChanges(snap, answers);
      if fetched.Err? { return Some(fetched.error); }
      RollbackInvertsAnyRun(schema, start, steps, snap.tables, answers, clock);
      RollbackUndoesHistories(schema, start, steps, snap.tables, answers, clock);
      var failure := RevertChange(fetched.value, clock, 0);
      assert failure.None?;
      return None;
    }

    method FindMax(tables: seq<MaxId>, table: string) returns (maxId: Option<nat>)
      ensures maxId.None? <==> forall i :: 0 <= i < |tables| ==> tables[i].table != table
      ensures maxId.Some? ==> MaxId(table, maxId.value) in tables
    {
      for i := 0 to |tables|
        invariant forall k :: 0 <= k < i ==> tables[k].table != table
      {
        if tables[i].table == table { return Some(tables[i].maxId); }
      }
      return None;
    }

    predicate HasEntry(tables: seq<MaxId>, table: string) {
      exists i :: 0 <= i < |tables| && tables[i].table == table
    }

    /**
      hasModifiedData.  `models` are the audited tables whose log has a model, `base` the ids the snapshot holds; a
      snapshot without one of the tables, or captured without the DDL log, makes the check throw.
     */
    method HasModifiedData(models: seq<string>, snap: Snapshot, transactionId: Option<int>,
                           ghost base: map<string, nat>)
      returns (r: Result<bool, ModifiedError>)
      requires TablesOf(schema, State()) && (set t | t in models) == schema.columns.Keys == base.Keys
      requires forall m :: m in snap.tables && m.table in base ==> base[m.table] == m.maxId
      ensures r == if transactionId.None? then Err(NoTransaction)
                   else if snap.ddl.None? then Err(NoSnapshotEntry)
                   else if exists t :: t in models && t != DESCRIPTOR_TABLE && !HasEntry(snap.tables, t)
                   then Err(NoSnapshotEntry)
                   else Ok(Modified(State(), base, snap.ddl.value, transactionId.value))
    {
      if transactionId.None? { return Err(NoTransaction); }
      var txid := transactionId.value;
      if snap.ddl.None? { return Err(NoSnapshotEntry); }
      var found := DdlBy(ddl, snap.ddl.value, txid);
      ghost var ddlFound := found;
      assert forall k :: 0 <= k < |models| ==> models[k] in (set t | t in models);
      for i := 0 to |models|
        invariant forall k :: 0 <= k < i ==> models[k] == DESCRIPTOR_TABLE || HasEntry(snap.tables, models[k])
        invariant found <==> ddlFound || exists k :: 0 <= k < i && models[k] != DESCRIPTOR_TABLE &&
                                                    LoggedBy(logs[models[k]], base[models[k]], txid)
      {
        if models[i] != DESCRIPTOR_TABLE {
          var maxId := FindMax(snap.tables, models[i]);
          if maxId.None? {
            assert models[i] in models && !HasEntry(snap.tables, models[i]);
            return Err(NoSnapshotEntry);
          }
          if LoggedBy(logs[models[i]], maxId.value, txid) {
            found := true;
          }
        }
      }
      assert forall t :: t in logs ==> t in (set u | u in models);
      assert forall t :: t in logs ==> exists k :: 0 <= k < |models| && models[k] == t;
      return Ok(found);
    }
  }
}
