/**
  The audited database as a value: rows, one audit log per table, and what one SQL statement does to both
  (src/migrations/20220115000000-audit-system.js).  The class in AuditDatabase.dfy performs the same statements in place
  and is proved against the functions here.
 */
module AuditLog {
  import opened Prelude

  type Column = string

  /** A JSON scalar as stored in a jsonb column; any non-numeric JSON text is `Text`. */
  datatype Value = Null | Num(n: int) | Text(s: string)

  type Row = map<Column, Value>

  datatype Key = Key(table: string, id: int)

  /** The row images one log entry keeps: whole rows for INSERT and DELETE, changed columns only for UPDATE. */
  datatype Change =
    | Inserted(newRow: Row)
    | Updated(pre: Row, post: Row)
    | Deleted(oldRow: Row)

  datatype Stamp = Stamp(timestamp: nat, txid: int)

  datatype Entry = Entry(logId: nat, key: Key, change: Change, at: Stamp)

  datatype DdlEntry = DdlEntry(ddlId: nat, objectIdentity: Option<string>, txid: int)

  datatype FilterRow = FilterRow(tableName: Option<string>, columnName: Column)

  /** `columns[t]` lists the columns of table `t` in jsonb key order (shorter names first). */
  datatype Schema = Schema(columns: map<string, seq<Column>>, filters: seq<FilterRow>)

  datatype Db = Db(rows: map<Key, Row>, logs: map<string, seq<Entry>>, lastValue: map<string, nat>,
                   ddl: seq<DdlEntry>, ddlLast: nat)

  datatype DbError = UnknownTable | UnknownColumn | BadRow | DuplicateKey

  /** Statements.  `Abandon` is a write of an aborted transaction: it leaves nothing but a used-up log id. */
  datatype Write =
    | Insert(table: string, row: Row)
    | Update(key: Key, assign: Row)
    | Delete(key: Key)
    | Abandon(table: string)
    | Ddl(objectIdentity: Option<string>)

  datatype Step = Step(write: Write, at: Stamp)

  function Columns(cols: seq<Column>): set<Column> {
    set c | c in cols
  }

  /** The columns whose change alone does not justify a log entry, for one table. */
  function Filtered(schema: Schema, table: string): set<Column> {
    set f | f in schema.filters && (f.tableName == None || f.tableName == Some(table)) :: f.columnName
  }

  function Lookup(db: Db, key: Key): Option<Row> {
    if key in db.rows then Some(db.rows[key]) else None
  }

  function Changed(before: Row, after: Row): set<Column> {
    set c | c in before && c in after && before[c] != after[c]
  }

  function Restrict(row: Row, cols: set<Column>): Row {
    map c | c in cols && c in row :: row[c]
  }

  /** What the row trigger logs when a row goes from `before` to `after`; None when it logs nothing. */
  function Trigger(schema: Schema, table: string, before: Option<Row>, after: Option<Row>): Option<Change> {
    match (before, after)
    case (None, None) => None
    case (None, Some(n)) => Some(Inserted(n))
    case (Some(o), None) => Some(Deleted(o))
    case (Some(o), Some(n)) =>
      var changed := Changed(o, n);
      if changed <= Filtered(schema, table) then None
      else Some(Updated(Restrict(o, changed), Restrict(n, changed)))
  }

  /**
    What is logged, in terms of the two versions of the row: all of a new row, all of a deleted one, and of an updated
    one the old and new values of exactly the columns that differ, filtered ones included.
   */
  ghost predicate Describes(change: Change, before: Option<Row>, after: Option<Row>) {
    match change
    case Inserted(row) => before == None && after == Some(row)
    case Deleted(row) => before == Some(row) && after == None
    case Updated(pre, post) =>
      before.Some? && after.Some? && pre.Keys == post.Keys &&
      (forall c :: c in pre <==> c in before.value && c in after.value && before.value[c] != after.value[c]) &&
      forall c :: c in pre ==> pre[c] == before.value[c] && post[c] == after.value[c]
  }

  /** Some column differs that no filter names, neither for this table nor for all tables. */
  ghost predicate Loggable(schema: Schema, table: string, before: Row, after: Row) {
    exists c :: c in before && c in after && before[c] != after[c] &&
                FilterRow(None, c) !in schema.filters && FilterRow(Some(table), c) !in schema.filters
  }

  /** Inserts and deletes are always logged, updates iff an unfiltered column differs. */
  lemma TriggerDescribes(schema: Schema, table: string, before: Option<Row>, after: Option<Row>)
    ensures var c := Trigger(schema, table, before, after);
            (c.Some? <==> before.Some? != after.Some? ||
                          (before.Some? && after.Some? && Loggable(schema, table, before.value, after.value))) &&
            (c.Some? ==> Describes(c.value, before, after))
  {
    if before.Some? && after.Some? {
      var changed := Changed(before.value, after.value);
      forall c ensures c in Filtered(schema, table) <==>
                       FilterRow(None, c) in schema.filters || FilterRow(Some(table), c) in schema.filters
      {
        FilteredBy(schema, table, c);
      }
      if !(changed <= Filtered(schema, table)) {
        var c :| c in changed && c !in Filtered(schema, table);
        assert Loggable(schema, table, before.value, after.value);
      }
    }
  }

  lemma FilteredBy(schema: Schema, table: string, c: Column)
    ensures c in Filtered(schema, table) <==>
            FilterRow(None, c) in schema.filters || FilterRow(Some(table), c) in schema.filters
  {
    if c in Filtered(schema, table) {
      var f :| f in schema.filters && (f.tableName == None || f.tableName == Some(table)) && f.columnName == c;
      assert f == FilterRow(f.tableName, c);
    }
  }

  /** A row change is described by one change only. */
  lemma DescribesOne(a: Change, b: Change, before: Option<Row>, after: Option<Row>)
    requires Describes(a, before, after) && Describes(b, before, after)
    ensures a == b
  {
    if a.Updated? {
      assert a.pre.Keys == b.pre.Keys && a.post.Keys == b.post.Keys;
    }
  }

  function Put(rows: map<Key, Row>, key: Key, row: Option<Row>): map<Key, Row> {
    if row.Some? then rows[key := row.value] else rows - {key}
  }

  /** Replaces one row and lets the trigger append to the table's log. */
  function Write1(schema: Schema, db: Db, key: Key, after: Option<Row>, at: Stamp): Db
    requires key.table in db.logs && key.table in db.lastValue
  {
    var t := key.table;
    var rows := Put(db.rows, key, after);
    match Trigger(schema, t, Lookup(db, key), after)
    case None => db.(rows := rows)
    case Some(change) =>
      var id := db.lastValue[t] + 1;
      db.(rows := rows,
          logs := db.logs[t := db.logs[t] + [Entry(id, key, change, at)]],
          lastValue := db.lastValue[t := id])
  }

  /** One row of table `t` as the schema shapes it. */
  predicate RowFits(schema: Schema, table: string, row: Row) {
    table in schema.columns && row.Keys == Columns(schema.columns[table]) && "id" in row && row["id"].Num?
  }

  function Apply(schema: Schema, db: Db, step: Step): (r: Result<Db, DbError>)
    requires TablesOf(schema, db)
    ensures r.Ok? ==> TablesOf(schema, r.value)
  {
    match step.write
    case Insert(table, row) =>
      if table !in schema.columns then Err(UnknownTable)
      else if !RowFits(schema, table, row) then Err(BadRow)
      else if Key(table, row["id"].n) in db.rows then Err(DuplicateKey)
      else Ok(Write1(schema, db, Key(table, row["id"].n), Some(row), step.at))
    case Update(key, assign) =>
      if key.table !in schema.columns then Err(UnknownTable)
      else if !(assign.Keys <= Columns(schema.columns[key.table])) then Err(UnknownColumn)
      else if key !in db.rows then Ok(db)
      else Ok(Write1(schema, db, key, Some(db.rows[key] + assign), step.at))
    case Delete(key) =>
      if key.table !in schema.columns then Err(UnknownTable)
      else if key !in db.rows then Ok(db)
      else Ok(Write1(schema, db, key, None, step.at))
    case Abandon(table) =>
      if table !in schema.columns then Err(UnknownTable)
      else Ok(db.(lastValue := db.lastValue[table := db.lastValue[table] + 1]))
    case Ddl(name) =>
      Ok(db.(ddl := db.ddl + [DdlEntry(db.ddlLast + 1, name, step.at.txid)], ddlLast := db.ddlLast + 1))
  }

  /** A failing statement leaves the database as it was. */
  function Exec(schema: Schema, db: Db, step: Step): Db
    requires TablesOf(schema, db)
  {
    match Apply(schema, db, step)
    case Ok(after) => after
    case Err(_) => db
  }

  /** The assigned columns of the row are overwritten, if it is there; no other row is touched. */
  ghost predicate UpdateEffect(schema: Schema, db: Db, step: Step)
    requires TablesOf(schema, db) && step.write.Update?
  {
    var (key, assign, after) := (step.write.key, step.write.assign, Exec(schema, db, step).rows);
    (Apply(schema, db, step).Ok? <==>
       key.table in schema.columns && forall c :: c in assign ==> c in schema.columns[key.table]) &&
    after.Keys == db.rows.Keys && (forall k :: k in db.rows && k != key ==> after[k] == db.rows[k]) &&
    (Apply(schema, db, step).Ok? && key in db.rows ==>
       after[key].Keys == db.rows[key].Keys + assign.Keys &&
       forall c :: c in after[key] ==> after[key][c] == if c in assign then assign[c] else db.rows[key][c])
  }

  lemma UpdateAffects(schema: Schema, db: Db, step: Step)
    requires TablesOf(schema, db) && step.write.Update?
    ensures UpdateEffect(schema, db, step)
  {
  }

  /**
    When a statement fails, and what it makes of the rows when it does not: an insert adds its row under its id, an
    update overwrites the assigned columns of a row that is there, a delete removes it, and nothing else touches a row.
    An abandoned write uses up a log id; a schema command is recorded.
   */
  lemma StatementEffect(schema: Schema, db: Db, step: Step)
    requires TablesOf(schema, db)
    ensures match step.write
            case Insert(table, row) =>
              (Apply(schema, db, step).Ok? <==>
                 RowFits(schema, table, row) && Key(table, row["id"].n) !in db.rows) &&
              (Apply(schema, db, step).Ok? ==>
                 Exec(schema, db, step).rows == db.rows[Key(table, row["id"].n) := row])
            case Update(key, assign) => UpdateEffect(schema, db, step)
            case Delete(key) =>
              (Apply(schema, db, step).Ok? <==> key.table in schema.columns) &&
              (Apply(schema, db, step).Ok? ==> Exec(schema, db, step).rows == db.rows - {key})
            case Abandon(table) =>
              (Apply(schema, db, step).Ok? <==> table in schema.columns) &&
              (Apply(schema, db, step).Ok? ==>
                 Exec(schema, db, step) == db.(lastValue := db.lastValue[table := db.lastValue[table] + 1]))
            case Ddl(name) =>
              Apply(schema, db, step).Ok? &&
              Exec(schema, db, step) == db.(ddl := db.ddl + [DdlEntry(db.ddlLast + 1, name, step.at.txid)],
                                            ddlLast := db.ddlLast + 1)
    ensures Apply(schema, db, step).Err? ==> Exec(schema, db, step) == db
  {
    if step.write.Update? { UpdateAffects(schema, db, step); }
  }

  /** A statement writes one row, or leaves rows and logs alone. */
  lemma ExecShape(schema: Schema, db: Db, step: Step) returns (written: Option<(Key, Option<Row>)>)
    requires TablesOf(schema, db)
    ensures match written
            case None => Exec(schema, db, step).rows == db.rows && Exec(schema, db, step).logs == db.logs
            case Some((key, after)) =>
              !step.write.Ddl? && key.table in schema.columns &&
              Exec(schema, db, step) == Write1(schema, db, key, after, step.at)
    ensures forall t :: t in db.lastValue ==> db.lastValue[t] <= Exec(schema, db, step).lastValue[t]
    ensures step.write.Ddl? || (Exec(schema, db, step).ddl == db.ddl && Exec(schema, db, step).ddlLast == db.ddlLast)
  {
    written := None;
    if Apply(schema, db, step).Ok? {
      match step.write {
        case Insert(table, row) => written := Some((Key(table, row["id"].n), Some(row)));
        case Update(key, assign) => if key in db.rows { written := Some((key, Some(db.rows[key] + assign))); }
        case Delete(key) => if key in db.rows { written := Some((key, None)); }
        case Abandon(_) =>
        case Ddl(_) =>
      }
    }
  }

  function Run(schema: Schema, db: Db, steps: seq<Step>): (r: Db)
    requires TablesOf(schema, db)
    ensures TablesOf(schema, r)
  {
    if steps == [] then db else Exec(schema, Run(schema, db, steps[..|steps| - 1]), steps[|steps| - 1])
  }

  predicate TablesOf(schema: Schema, db: Db) {
    db.logs.Keys == schema.columns.Keys && db.lastValue.Keys == schema.columns.Keys
  }

  ghost predicate Distinct(cols: seq<Column>) {
    forall i, j :: 0 <= i < j < |cols| ==> cols[i] != cols[j]
  }

  ghost predicate WellFormedSchema(schema: Schema) {
    forall t :: t in schema.columns ==> "id" in schema.columns[t] && Distinct(schema.columns[t])
  }

  ghost predicate EntryFits(schema: Schema, e: Entry) {
    e.key.table in schema.columns &&
    match e.change
    case Inserted(row) => RowFits(schema, e.key.table, row) && row["id"].n == e.key.id
    case Deleted(row) => RowFits(schema, e.key.table, row) && row["id"].n == e.key.id
    case Updated(pre, post) => pre.Keys <= Columns(schema.columns[e.key.table]) && "id" !in pre
  }

  /** Rows match the schema and their own id; logged entries sit in their table's log at ids already handed out. */
  ghost predicate Valid(schema: Schema, db: Db) {
    && TablesOf(schema, db)
    && (forall k :: k in db.rows ==> RowFits(schema, k.table, db.rows[k]) && db.rows[k]["id"].n == k.id)
    && (forall t, i :: t in db.logs && 0 <= i < |db.logs[t]| ==>
          EntryFits(schema, db.logs[t][i]) && db.logs[t][i].key.table == t && db.logs[t][i].logId <= db.lastValue[t])
    && (forall i :: 0 <= i < |db.ddl| ==> db.ddl[i].ddlId <= db.ddlLast)
  }

  /** The assumption the rollback makes about its callers: no statement renumbers a row. */
  predicate KeepsId(step: Step) {
    step.write.Update? ==> "id" !in step.write.assign
  }

  ghost predicate KeepsIds(steps: seq<Step>) {
    forall i :: 0 <= i < |steps| ==> KeepsId(steps[i])
  }

  lemma {:induction false} RunConcat(schema: Schema, db: Db, a: seq<Step>, b: seq<Step>)
    requires TablesOf(schema, db)
    ensures Run(schema, db, a + b) == Run(schema, Run(schema, db, a), b)
  {
    if b == [] {
      assert a + b == a;
    } else {
      var n := |b| - 1;
      RunConcat(schema, db, a, b[..n]);
      assert (a + b)[..|a + b| - 1] == a + b[..n];
    }
  }

  /** The trigger's entry describes a row change that the schema allows. */
  lemma TriggerFits(schema: Schema, key: Key, before: Option<Row>, after: Option<Row>, id: nat, at: Stamp)
    requires before.Some? ==> RowFits(schema, key.table, before.value) && before.value["id"].n == key.id
    requires after.Some? ==> RowFits(schema, key.table, after.value) && after.value["id"].n == key.id
    ensures var c := Trigger(schema, key.table, before, after);
            c.Some? ==> EntryFits(schema, Entry(id, key, c.value, at))
  {
  }

  lemma Write1Valid(schema: Schema, db: Db, key: Key, after: Option<Row>, at: Stamp)
    requires Valid(schema, db) && key.table in schema.columns
    requires after.Some? ==> RowFits(schema, key.table, after.value) && after.value["id"].n == key.id
    ensures Valid(schema, Write1(schema, db, key, after, at))
  {
    var t := key.table;
    TriggerFits(schema, key, Lookup(db, key), after, db.lastValue[t] + 1, at);
    var r := Write1(schema, db, key, after, at);
    forall u, i | u in r.logs && 0 <= i < |r.logs[u]|
      ensures EntryFits(schema, r.logs[u][i]) && r.logs[u][i].key.table == u && r.logs[u][i].logId <= r.lastValue[u]
    {
      if u != t || i < |db.logs[t]| {
        assert r.logs[u][i] == db.logs[u][i];
      }
    }
  }

  lemma {:induction false} ExecValid(schema: Schema, db: Db, step: Step)
    requires Valid(schema, db) && KeepsId(step)
    ensures Valid(schema, Exec(schema, db, step))
  {
    match step.write
    case Insert(table, row) =>
      if RowFits(schema, table, row) && Key(table, row["id"].n) !in db.rows {
        Write1Valid(schema, db, Key(table, row["id"].n), Some(row), step.at);
      }
    case Update(key, assign) =>
      if key.table in schema.columns && assign.Keys <= Columns(schema.columns[key.table]) && key in db.rows {
        assert (db.rows[key] + assign).Keys == Columns(schema.columns[key.table]);
        Write1Valid(schema, db, key, Some(db.rows[key] + assign), step.at);
      }
    case Delete(key) =>
      if key in db.rows {
        Write1Valid(schema, db, key, None, step.at);
      }
    case Abandon(_) =>
    case Ddl(_) =>
  }

  lemma {:induction false} RunValid(schema: Schema, db: Db, steps: seq<Step>)
    requires Valid(schema, db) && KeepsIds(steps)
    ensures Valid(schema, Run(schema, db, steps))
  {
    if steps != [] {
      RunValid(schema, db, steps[..|steps| - 1]);
      ExecValid(schema, Run(schema, db, steps[..|steps| - 1]), steps[|steps| - 1]);
    }
  }
}
