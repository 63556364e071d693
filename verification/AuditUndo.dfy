/**
  Undoing the audit log (src/lib/programmaticTransaction.ts): the change list a rollback works through, the statements
  it issues, and the proof that per-row order is all that matters.
 */
module AuditUndo {
  import opened Prelude
  import opened Sequences
  import opened AuditLog

  datatype MaxId = MaxId(table: string, maxId: nat)

  // ---------- reading the logs ----------

  function After(log: seq<Entry>, maxId: nat): seq<Entry> {
    if log == [] then []
    else
      var last := log[|log| - 1];
      After(log[..|log| - 1], maxId) + (if last.logId > maxId then [last] else [])
  }

  function ForKey(es: seq<Entry>, key: Key): seq<Entry> {
    if es == [] then []
    else
      var last := es[|es| - 1];
      ForKey(es[..|es| - 1], key) + (if last.key == key then [last] else [])
  }

  /** The log entries of one row written after the snapshot `base`, oldest first. */
  function History(db: Db, base: map<string, nat>, key: Key): seq<Entry>
    requires key.table in db.logs && key.table in base
  {
    ForKey(After(db.logs[key.table], base[key.table]), key)
  }

  function Flatten(answers: seq<seq<Entry>>): seq<Entry> {
    if answers == [] then [] else answers[0] + Flatten(answers[1..])
  }

  /** JavaScript dates keep milliseconds; the log keeps microseconds. */
  function Millis(e: Entry): nat {
    e.at.timestamp / 1000
  }

  function InsertDesc(e: Entry, sorted: seq<Entry>): (r: seq<Entry>)
    ensures multiset(r) == multiset{e} + multiset(sorted)
  {
    if sorted == [] then [e]
    else if Millis(sorted[0]) > Millis(e) then
      assert sorted == [sorted[0]] + sorted[1..];
      [sorted[0]] + InsertDesc(e, sorted[1..])
    else [e] + sorted
  }

  /** The stable sort by millisecond, newest first. */
  function SortDesc(es: seq<Entry>): (r: seq<Entry>)
    ensures multiset(r) == multiset(es)
  {
    if es == [] then []
    else
      assert es == [es[0]] + es[1..];
      InsertDesc(es[0], SortDesc(es[1..]))
  }

  ghost predicate Desc(es: seq<Entry>) {
    forall i, j :: 0 <= i < j < |es| ==> es[i].at.timestamp >= es[j].at.timestamp
  }

  /** `answers[i]` is one possible result of the i-th per-table query: any order the database picks within ties. */
  ghost predicate SqlAnswers(db: Db, snap: seq<MaxId>, answers: seq<seq<Entry>>) {
    |answers| == |snap| &&
    forall i :: 0 <= i < |snap| ==>
      snap[i].table in db.logs &&
      multiset(answers[i]) == multiset(After(db.logs[snap[i].table], snap[i].maxId)) && Desc(answers[i])
  }

  /** The snapshot lists every audited table once, in whatever order the catalogue query produced. */
  ghost predicate IsSnapshot(snap: seq<MaxId>, base: map<string, nat>) {
    && (forall i, j :: 0 <= i < j < |snap| ==> snap[i].table != snap[j].table)
    && (forall i :: 0 <= i < |snap| ==> snap[i].table in base && base[snap[i].table] == snap[i].maxId)
    && (forall t :: t in base ==> exists i :: 0 <= i < |snap| && snap[i].table == t)
  }

  // ---------- the undo statements ----------

  function IndexOf(cols: seq<Column>, c: Column): (i: nat)
    requires c in cols
    ensures i < |cols| && cols[i] == c
  {
    if cols[0] == c then 0 else 1 + IndexOf(cols[1..], c)
  }

  /** The order in which the re-INSERT lists its values: the id first, then the other columns. */
  function ValueOrder(cols: seq<Column>): (r: seq<Column>)
    requires "id" in cols
    ensures |r| == |cols|
  {
    var p := IndexOf(cols, "id");
    ["id"] + cols[..p] + cols[p + 1..]
  }

  /** The row the re-INSERT creates: column names in jsonb key order, values in `ValueOrder`. */
  function ReplayedRow(cols: seq<Column>, row: Row, id: int): Row
    requires "id" in cols && Columns(cols) <= row.Keys
  {
    map c | c in cols :: var v := ValueOrder(cols)[IndexOf(cols, c)]; if v == "id" then Num(id) else row[v]
  }

  function UndoWrite(schema: Schema, e: Entry): Write
    requires WellFormedSchema(schema) && EntryFits(schema, e)
  {
    match e.change
    case Inserted(_) => Delete(e.key)
    case Deleted(row) => Insert(e.key.table, ReplayedRow(schema.columns[e.key.table], row, e.key.id))
    case Updated(pre, _) => Update(e.key, pre)
  }

  ghost predicate AllFit(schema: Schema, es: seq<Entry>) {
    forall i :: 0 <= i < |es| ==> EntryFits(schema, es[i])
  }

  /** revertChange: undo the list front to back; the first failing statement ends it.  `clock(n)` stamps statement n. */
  function Replay(schema: Schema, db: Db, changes: seq<Entry>, clock: nat -> Stamp, n: nat): Result<Db, DbError>
    requires WellFormedSchema(schema) && AllFit(schema, changes) && TablesOf(schema, db)
    decreases changes
  {
    if changes == [] then Ok(db)
    else
      match Apply(schema, db, Step(UndoWrite(schema, changes[0]), clock(n)))
      case Err(e) => Err(e)
      case Ok(next) => Replay(schema, next, changes[1..], clock, n + 1)
  }

  /** The first `k` changes were undone, and undoing the next one failed. */
  ghost predicate StoppedAt(schema: Schema, db: Db, changes: seq<Entry>, clock: nat -> Stamp, n: nat, k: nat,
                            e: DbError, now: Db)
    requires WellFormedSchema(schema) && AllFit(schema, changes) && TablesOf(schema, db)
  {
    k < |changes| && TablesOf(schema, now) && Replay(schema, db, changes[..k], clock, n) == Ok(now) &&
    Apply(schema, now, Step(UndoWrite(schema, changes[k]), clock(n + k))) == Err(e)
  }

  lemma StoppedLater(schema: Schema, db: Db, changes: seq<Entry>, clock: nat -> Stamp, n: nat, k: nat, e: DbError,
                     now: Db)
    requires WellFormedSchema(schema) && AllFit(schema, changes) && TablesOf(schema, db) && changes != []
    requires var next := Apply(schema, db, Step(UndoWrite(schema, changes[0]), clock(n)));
             next.Ok? && StoppedAt(schema, next.value, changes[1..], clock, n + 1, k, e, now)
    ensures StoppedAt(schema, db, changes, clock, n, k + 1, e, now)
  {
    assert changes[..k + 1][1..] == changes[1..][..k] && changes[..k + 1][0] == changes[0];
  }

  // ---------- what undoing means for one row ----------

  function UndoRow(change: Change, row: Option<Row>): Option<Row> {
    match change
    case Inserted(_) => None
    case Deleted(row0) => Some(row0)
    case Updated(pre, _) => if row.Some? then Some(row.value + pre) else None
  }

  predicate CanUndo(change: Change, row: Option<Row>) {
    if change.Deleted? then row.None? else row.Some?
  }

  /** Undoes a history newest first. */
  function UndoBack(history: seq<Entry>, row: Option<Row>): Option<Row> {
    if history == [] then row
    else UndoBack(history[..|history| - 1], UndoRow(history[|history| - 1].change, row))
  }

  predicate Undoable(history: seq<Entry>, row: Option<Row>) {
    history == [] ||
    (CanUndo(history[|history| - 1].change, row) &&
     Undoable(history[..|history| - 1], UndoRow(history[|history| - 1].change, row)))
  }

  /** Undoes a list of entries front to back. */
  function UndoSeq(es: seq<Entry>, row: Option<Row>): Option<Row> {
    if es == [] then row else UndoSeq(es[1..], UndoRow(es[0].change, row))
  }

  /** The undo statement does not fail: only a re-INSERT can, and only on a row that is there. */
  predicate CanReplay(change: Change, row: Option<Row>) {
    change.Deleted? ==> row.None?
  }

  predicate Performable(es: seq<Entry>, row: Option<Row>) {
    es == [] || (CanReplay(es[0].change, row) && Performable(es[1..], UndoRow(es[0].change, row)))
  }

  function Reverse(es: seq<Entry>): seq<Entry> {
    if es == [] then [] else [es[|es| - 1]] + Reverse(es[..|es| - 1])
  }

  /** Same presence, same columns, same values outside `filtered`. */
  ghost predicate AgreeOff(filtered: set<Column>, a: Option<Row>, b: Option<Row>) {
    (a.None? && b.None?) ||
    (a.Some? && b.Some? && a.value.Keys == b.value.Keys &&
     forall c :: c in a.value && c !in filtered ==> a.value[c] == b.value[c])
  }

  // ---------- histories grow by exactly what the trigger logs ----------

  lemma AfterOld(log: seq<Entry>, maxId: nat)
    requires forall i :: 0 <= i < |log| ==> log[i].logId <= maxId
    ensures After(log, maxId) == []
  {
  }

  lemma AfterSnoc(log: seq<Entry>, e: Entry, maxId: nat)
    requires e.logId > maxId
    ensures After(log + [e], maxId) == After(log, maxId) + [e]
  {
    assert (log + [e])[..|log|] == log;
  }

  lemma ForKeySnoc(es: seq<Entry>, e: Entry, key: Key)
    ensures ForKey(es + [e], key) == if e.key == key then ForKey(es, key) + [e] else ForKey(es, key)
  {
    assert (es + [e])[..|es|] == es;
  }

  lemma {:induction false} Write1History(schema: Schema, db: Db, target: Key, after: Option<Row>, at: Stamp,
                                         base: map<string, nat>, key: Key)
    requires TablesOf(schema, db) && base.Keys == schema.columns.Keys && target.table in base && key.table in base
    requires base[target.table] <= db.lastValue[target.table]
    ensures var db' := Write1(schema, db, target, after, at);
            var c := Trigger(schema, key.table, Lookup(db, key), Lookup(db', key));
            History(db', base, key) == History(db, base, key) +
              if c.None? then [] else [Entry(db.lastValue[key.table] + 1, key, c.value, at)]
  {
    var c := Trigger(schema, target.table, Lookup(db, target), after);
    if key.table == target.table && c.Some? {
      HistorySnoc(db.logs[target.table], Entry(db.lastValue[target.table] + 1, target, c.value, at), base[target.table],
                  key);
    }
    UntouchedRow(schema, db, target, after, at, key);
  }

  lemma HistorySnoc(log: seq<Entry>, e: Entry, maxId: nat, key: Key)
    requires e.logId > maxId
    ensures ForKey(After(log + [e], maxId), key) ==
            ForKey(After(log, maxId), key) + if e.key == key then [e] else []
  {
    AfterSnoc(log, e, maxId);
    ForKeySnoc(After(log, maxId), e, key);
  }

  lemma UntouchedRow(schema: Schema, db: Db, target: Key, after: Option<Row>, at: Stamp, key: Key)
    requires TablesOf(schema, db) && target.table in schema.columns
    ensures Lookup(Write1(schema, db, target, after, at), key) == if key == target then after else Lookup(db, key)
    ensures key != target ==> Trigger(schema, key.table, Lookup(db, key), Lookup(db, key)).None?
  {
  }

  lemma {:induction false} ExecHistory(schema: Schema, db: Db, step: Step, base: map<string, nat>, key: Key)
    requires TablesOf(schema, db) && base.Keys == schema.columns.Keys
    requires forall t :: t in base ==> base[t] <= db.lastValue[t]
    requires key.table in base
    ensures var db' := Exec(schema, db, step);
            (forall t :: t in base ==> base[t] <= db'.lastValue[t]) &&
            var c := Trigger(schema, key.table, Lookup(db, key), Lookup(db', key));
            History(db', base, key) == History(db, base, key) +
              if c.None? then [] else [Entry(db.lastValue[key.table] + 1, key, c.value, step.at)]
  {
    var written := ExecShape(schema, db, step);
    match written
    case None =>
    case Some((target, after)) => Write1History(schema, db, target, after, step.at, base, key);
  }

  // ---------- undoing one step, then any run ----------

  /** Undoing ignores differences on filtered columns. */
  lemma {:induction false} UndoCongruence(filtered: set<Column>, history: seq<Entry>, a: Option<Row>, b: Option<Row>)
    requires AgreeOff(filtered, a, b) && Undoable(history, b)
    ensures Undoable(history, a) && AgreeOff(filtered, UndoBack(history, a), UndoBack(history, b))
  {
    if history != [] {
      var last := history[|history| - 1].change;
      UndoCongruence(filtered, history[..|history| - 1], UndoRow(last, a), UndoRow(last, b));
    }
  }

  /** The entry the trigger wrote turns the row back into what it was. */
  lemma LoggedStepUndone(schema: Schema, table: string, before: Option<Row>, after: Option<Row>)
    requires before.Some? ==> RowFits(schema, table, before.value)
    requires after.Some? ==> RowFits(schema, table, after.value)
    ensures var c := Trigger(schema, table, before, after);
            if c.None? then AgreeOff(Filtered(schema, table), after, before)
            else CanUndo(c.value, after) && UndoRow(c.value, after) == before
  {
    var c := Trigger(schema, table, before, after);
    if c.Some? && c.value.Updated? {
      assert after.value + c.value.pre == before.value;
    }
  }

  lemma {:induction false} RunInvariant(schema: Schema, db0: Db, steps: seq<Step>, key: Key)
    requires Valid(schema, db0) && KeepsIds(steps) && key.table in schema.columns
    ensures var db := Run(schema, db0, steps);
            var h := History(db, db0.lastValue, key);
            Undoable(h, Lookup(db, key)) &&
            AgreeOff(Filtered(schema, key.table), UndoBack(h, Lookup(db, key)), Lookup(db0, key))
    ensures forall t :: t in schema.columns ==> db0.lastValue[t] <= Run(schema, db0, steps).lastValue[t]
  {
    if steps == [] {
      AfterOld(db0.logs[key.table], db0.lastValue[key.table]);
    } else {
      var n := |steps| - 1;
      RunInvariant(schema, db0, steps[..n], key);
      var db := Run(schema, db0, steps[..n]);
      var db' := Exec(schema, db, steps[n]);
      RunValid(schema, db0, steps[..n]);
      ExecValid(schema, db, steps[n]);
      ExecHistory(schema, db, steps[n], db0.lastValue, key);
      var before, after := Lookup(db, key), Lookup(db', key);
      LoggedStepUndone(schema, key.table, before, after);
      var h, h' := History(db, db0.lastValue, key), History(db', db0.lastValue, key);
      if Trigger(schema, key.table, before, after).None? {
        assert h' == h;
        UndoCongruence(Filtered(schema, key.table), h, after, before);
      } else {
        assert h'[..|h' | - 1] == h;
      }
    }
  }

  // ---------- the order of the change list ----------

  lemma ForKeyMembers(es: seq<Entry>, key: Key)
    ensures forall e :: e in ForKey(es, key) ==> e in es && e.key == key
  {
  }

  lemma {:induction false} ForKeyCount(es: seq<Entry>, key: Key, e: Entry)
    ensures multiset(ForKey(es, key))[e] == if e.key == key then multiset(es)[e] else 0
  {
    if es != [] {
      var n := |es| - 1;
      ForKeyCount(es[..n], key, e);
      assert es == es[..n] + [es[n]];
    }
  }

  lemma ForKeyPermuted(a: seq<Entry>, b: seq<Entry>, key: Key)
    requires multiset(a) == multiset(b)
    ensures multiset(ForKey(a, key)) == multiset(ForKey(b, key))
  {
    forall e ensures multiset(ForKey(a, key))[e] == multiset(ForKey(b, key))[e] {
      ForKeyCount(a, key, e);
      ForKeyCount(b, key, e);
    }
  }

  /** Entries of the same row appear newest first. */
  ghost predicate RowDesc(es: seq<Entry>) {
    forall i, j :: 0 <= i < j < |es| && es[i].key == es[j].key ==> es[i].at.timestamp >= es[j].at.timestamp
  }

  lemma {:induction false} RowDescForKey(es: seq<Entry>, key: Key)
    requires RowDesc(es)
    ensures Desc(ForKey(es, key))
  {
    if es != [] {
      var n := |es| - 1;
      RowDescForKey(es[..n], key);
      ForKeyMembers(es[..n], key);
      assert forall e :: e in es[..n] && e.key == es[n].key ==> e.at.timestamp >= es[n].at.timestamp;
    }
  }

  lemma {:induction false} InsertRowDesc(e: Entry, sorted: seq<Entry>)
    requires RowDesc(sorted)
    requires forall x :: x in sorted && x.key == e.key ==> e.at.timestamp >= x.at.timestamp
    ensures RowDesc(InsertDesc(e, sorted))
  {
    if sorted != [] && Millis(sorted[0]) > Millis(e) {
      InsertRowDesc(e, sorted[1..]);
      InsertMembers(e, sorted[1..]);
    }
  }

  /** Truncation to milliseconds cannot reorder a row's entries, because the sort is stable. */
  lemma {:induction false} SortRowDesc(es: seq<Entry>)
    requires RowDesc(es)
    ensures RowDesc(SortDesc(es))
  {
    if es != [] {
      SortRowDesc(es[1..]);
      forall x | x in SortDesc(es[1..]) && x.key == es[0].key ensures es[0].at.timestamp >= x.at.timestamp {
        assert x in multiset(SortDesc(es[1..]));
        assert x in es[1..];
      }
      InsertRowDesc(es[0], SortDesc(es[1..]));
    }
  }

  lemma {:induction false} ForKeyConcat(a: seq<Entry>, b: seq<Entry>, key: Key)
    ensures ForKey(a + b, key) == ForKey(a, key) + ForKey(b, key)
  {
    if b == [] {
      assert a + b == a;
    } else {
      var n := |b| - 1;
      ForKeyConcat(a, b[..n], key);
      assert (a + b)[..|a + b| - 1] == a + b[..n];
    }
  }

  lemma AfterMembers(log: seq<Entry>, maxId: nat)
    ensures forall e :: e in After(log, maxId) ==> e in log && e.logId > maxId
  {
  }

  ghost predicate InTable(es: seq<Entry>, table: string) {
    forall e :: e in es ==> e.key.table == table
  }

  lemma ForKeyElsewhere(es: seq<Entry>, key: Key)
    requires forall e :: e in es ==> e.key != key
    ensures ForKey(es, key) == []
  {
  }

  /** Concatenating per-table answers keeps each row's entries together and in order. */
  lemma {:induction false} FlattenRows(snap: seq<MaxId>, answers: seq<seq<Entry>>)
    requires |snap| == |answers|
    requires forall i, j :: 0 <= i < j < |snap| ==> snap[i].table != snap[j].table
    requires forall i :: 0 <= i < |snap| ==> InTable(answers[i], snap[i].table) && Desc(answers[i])
    ensures RowDesc(Flatten(answers))
    ensures forall e :: e in Flatten(answers) ==> exists i :: 0 <= i < |snap| && e in answers[i]
    ensures forall i, key: Key :: 0 <= i < |snap| && snap[i].table == key.table ==>
              ForKey(Flatten(answers), key) == ForKey(answers[i], key)
  {
    if answers != [] {
      var rest := Flatten(answers[1..]);
      FlattenRows(snap[1..], answers[1..]);
      forall e | e in rest ensures (exists i :: 0 <= i < |snap| && e in answers[i]) && e.key.table != snap[0].table {
        var i :| 0 <= i < |snap[1..]| && e in answers[1..][i];
        assert answers[1..][i] == answers[i + 1] && snap[1..][i] == snap[i + 1];
      }
      forall i, key: Key | 0 <= i < |snap| && snap[i].table == key.table
        ensures ForKey(Flatten(answers), key) == ForKey(answers[i], key)
      {
        ForKeyConcat(answers[0], rest, key);
        if i == 0 {
          ForKeyElsewhere(rest, key);
        } else {
          ForKeyElsewhere(answers[0], key);
          assert snap[1..][i - 1] == snap[i] && answers[1..][i - 1] == answers[i];
        }
      }
    }
  }

  /** The change list fetched after a snapshot. */
  function Fetch(answers: seq<seq<Entry>>): seq<Entry> {
    SortDesc(Flatten(answers))
  }

  /** The entries stamped within one millisecond, in their order. */
  function AtMillis(es: seq<Entry>, ms: nat): seq<Entry> {
    if es == [] then []
    else if es[0].at.timestamp / 1000 == ms then [es[0]] + AtMillis(es[1..], ms)
    else AtMillis(es[1..], ms)
  }

  /** By falling millisecond. */
  ghost predicate MillisDesc(es: seq<Entry>) {
    forall i, j :: 0 <= i < j < |es| ==> es[i].at.timestamp / 1000 >= es[j].at.timestamp / 1000
  }

  lemma AtMillisCons(e: Entry, es: seq<Entry>, ms: nat)
    ensures AtMillis([e] + es, ms) ==
            if e.at.timestamp / 1000 == ms then [e] + AtMillis(es, ms) else AtMillis(es, ms)
  {
    assert ([e] + es)[0] == e && ([e] + es)[1..] == es;
  }

  lemma {:induction false} InsertSorts(e: Entry, sorted: seq<Entry>)
    requires MillisDesc(sorted)
    ensures MillisDesc(InsertDesc(e, sorted))
  {
    if sorted != [] && Millis(sorted[0]) > Millis(e) {
      InsertSorts(e, sorted[1..]);
      InsertMembers(e, sorted[1..]);
      DescCons(sorted[0], InsertDesc(e, sorted[1..]));
    }
  }

  lemma InsertMembers(e: Entry, sorted: seq<Entry>)
    ensures forall i :: 0 <= i < |InsertDesc(e, sorted)| ==>
              InsertDesc(e, sorted)[i] == e || InsertDesc(e, sorted)[i] in sorted
  {
  }

  lemma DescCons(first: Entry, es: seq<Entry>)
    requires MillisDesc(es) && forall i :: 0 <= i < |es| ==> Millis(first) >= Millis(es[i])
    ensures MillisDesc([first] + es)
  {
  }

  lemma {:induction false} InsertStable(e: Entry, sorted: seq<Entry>, ms: nat)
    ensures AtMillis(InsertDesc(e, sorted), ms) == AtMillis([e] + sorted, ms)
  {
    if sorted != [] && Millis(sorted[0]) > Millis(e) {
      InsertStable(e, sorted[1..], ms);
      Cons(sorted);
    }
  }

  /** The sort: nothing lost or added, newest millisecond first, and within a millisecond the order of the input. */
  lemma {:induction false} SortIsStable(es: seq<Entry>)
    ensures MillisDesc(SortDesc(es)) && multiset(SortDesc(es)) == multiset(es)
    ensures forall ms: nat :: AtMillis(SortDesc(es), ms) == AtMillis(es, ms)
  {
    if es != [] {
      SortIsStable(es[1..]);
      InsertSorts(es[0], SortDesc(es[1..]));
      forall ms: nat ensures AtMillis(SortDesc(es), ms) == AtMillis(es, ms) {
        InsertStable(es[0], SortDesc(es[1..]), ms);
        AtMillisCons(es[0], SortDesc(es[1..]), ms);
        AtMillisCons(es[0], es[1..], ms);
        Cons(es);
      }
    }
  }

  /** The answers are joined in the order of the queries. */
  lemma {:induction false} FlattenSplits(a: seq<seq<Entry>>, answer: seq<Entry>, b: seq<seq<Entry>>)
    ensures Flatten(a + [answer] + b) == Flatten(a) + answer + Flatten(b)
  {
    var all := a + [answer] + b;
    if a == [] {
      assert all == [answer] + b && all[1..] == b;
    } else {
      FlattenSplits(a[1..], answer, b);
      assert all[0] == a[0] && all[1..] == a[1..] + [answer] + b;
      assert Flatten(all) == a[0] + (Flatten(a[1..]) + answer + Flatten(b));
    }
  }

  lemma AnswersFit(schema: Schema, db: Db, snap: seq<MaxId>, answers: seq<seq<Entry>>)
    requires Valid(schema, db) && SqlAnswers(db, snap, answers)
    ensures forall i, e :: 0 <= i < |snap| && e in answers[i] ==> EntryFits(schema, e) && e.key.table == snap[i].table
  {
    forall i, e | 0 <= i < |snap| && e in answers[i] ensures EntryFits(schema, e) && e.key.table == snap[i].table {
      var suffix := After(db.logs[snap[i].table], snap[i].maxId);
      AfterMembers(db.logs[snap[i].table], snap[i].maxId);
      assert e in multiset(answers[i]);
      assert e in suffix;
    }
  }

  /** However ties and tables are ordered, each row's part of the list is its history by falling timestamp. */
  lemma {:induction false} FetchHistory(schema: Schema, db: Db, base: map<string, nat>, snap: seq<MaxId>,
                                        answers: seq<seq<Entry>>)
    requires Valid(schema, db) && base.Keys == schema.columns.Keys
    requires IsSnapshot(snap, base) && SqlAnswers(db, snap, answers)
    ensures AllFit(schema, Fetch(answers))
    ensures forall key: Key :: key.table in base ==>
              var es := ForKey(Fetch(answers), key);
              Desc(es) && multiset(es) == multiset(History(db, base, key))
  {
    AnswersFit(schema, db, snap, answers);
    FlattenRows(snap, answers);
    SortRowDesc(Flatten(answers));
    var changes := Fetch(answers);
    forall i | 0 <= i < |changes| ensures EntryFits(schema, changes[i]) {
      assert changes[i] in multiset(changes);
      assert changes[i] in Flatten(answers);
    }
    forall key: Key | key.table in base
      ensures Desc(ForKey(changes, key)) && multiset(ForKey(changes, key)) == multiset(History(db, base, key))
    {
      var i :| 0 <= i < |snap| && snap[i].table == key.table;
      ForKeyPermuted(changes, Flatten(answers), key);
      ForKeyPermuted(answers[i], After(db.logs[key.table], base[key.table]), key);
      RowDescForKey(changes, key);
    }
  }

  // ---------- replaying the list on the database ----------

  /** The id heads every column list, so the re-INSERT pairs columns with their own values. */
  ghost predicate IdFirst(schema: Schema) {
    forall t :: t in schema.columns ==> |schema.columns[t]| > 0 && schema.columns[t][0] == "id"
  }

  lemma IndexOfUnique(cols: seq<Column>, j: nat)
    requires Distinct(cols)
    requires j < |cols|
    ensures IndexOf(cols, cols[j]) == j
  {
  }

  /** Column by column: the first takes the id, those up to "id" their left neighbour's value, the rest their own. */
  lemma ReplayedColumn(cols: seq<Column>, row: Row, id: int, j: nat)
    requires Distinct(cols)
    requires "id" in cols && row.Keys == Columns(cols) && row["id"] == Num(id) && j < |cols|
    ensures ReplayedRow(cols, row, id)[cols[j]] ==
            if j == 0 then Num(id) else if j <= IndexOf(cols, "id") then row[cols[j - 1]] else row[cols[j]]
  {
    IndexOfUnique(cols, j);
    assert cols[j] in cols;
  }

  lemma ReplayedMatches(cols: seq<Column>, row: Row, id: int, j: nat)
    requires Distinct(cols)
    requires "id" in cols && row.Keys == Columns(cols) && row["id"] == Num(id) && j < |cols|
    requires forall i :: 0 <= i < IndexOf(cols, "id") ==> row[cols[i]] == Num(id)
    ensures ReplayedRow(cols, row, id)[cols[j]] == row[cols[j]]
  {
    ReplayedColumn(cols, row, id, j);
  }

  /** The re-INSERT restores the row exactly when every column ahead of "id" happens to hold the id itself. */
  lemma {:induction false} ReplayedRowExact(cols: seq<Column>, row: Row, id: int)
    requires Distinct(cols)
    requires "id" in cols && row.Keys == Columns(cols) && row["id"] == Num(id)
    ensures ReplayedRow(cols, row, id) == row <==>
            forall j :: 0 <= j < IndexOf(cols, "id") ==> row[cols[j]] == Num(id)
  {
    var p := IndexOf(cols, "id");
    var r := ReplayedRow(cols, row, id);
    if r == row {
      forall j | 0 <= j < p ensures row[cols[j]] == Num(id) {
        PrefixHoldsId(cols, row, id, j);
      }
    }
    if forall j :: 0 <= j < p ==> row[cols[j]] == Num(id) {
      forall c | c in row.Keys ensures r[c] == row[c] {
        ReplayedMatches(cols, row, id, IndexOf(cols, c));
      }
      assert r.Keys == row.Keys;
    }
  }

  /** A row that survives the re-INSERT repeats the id from left to right, up to the column "id". */
  lemma {:induction false} PrefixHoldsId(cols: seq<Column>, row: Row, id: int, j: nat)
    requires Distinct(cols)
    requires "id" in cols && row.Keys == Columns(cols) && row["id"] == Num(id)
    requires j < IndexOf(cols, "id") && ReplayedRow(cols, row, id) == row
    ensures row[cols[j]] == Num(id)
  {
    ReplayedColumn(cols, row, id, j);
    if j > 0 {
      PrefixHoldsId(cols, row, id, j - 1);
    }
  }

  /** One undo statement changes its own row as `UndoRow` says and no other. */
  lemma UndoStatement(schema: Schema, db: Db, e: Entry, at: Stamp)
    requires Valid(schema, db) && WellFormedSchema(schema) && IdFirst(schema) && EntryFits(schema, e)
    requires CanReplay(e.change, Lookup(db, e.key))
    ensures KeepsId(Step(UndoWrite(schema, e), at))
    ensures var r := Apply(schema, db, Step(UndoWrite(schema, e), at));
            r.Ok? && forall k ::
              Lookup(r.value, k) == if k == e.key then UndoRow(e.change, Lookup(db, k)) else Lookup(db, k)
  {
    if e.change.Deleted? {
      var cols := schema.columns[e.key.table];
      assert IndexOf(cols, "id") == 0;
      ReplayedRowExact(cols, e.change.oldRow, e.key.id);
    }
  }

  lemma ForKeyHead(es: seq<Entry>, key: Key)
    requires es != []
    ensures ForKey(es, key) == if es[0].key == key then [es[0]] + ForKey(es[1..], key) else ForKey(es[1..], key)
  {
    assert es == [es[0]] + es[1..];
    ForKeyConcat([es[0]], es[1..], key);
    assert [es[0]][..0] == [];
  }

  lemma ReverseUndo(history: seq<Entry>, row: Option<Row>)
    ensures UndoSeq(Reverse(history), row) == UndoBack(history, row)
    ensures Undoable(history, row) ==> Performable(Reverse(history), row)
  {
  }

  /** Undo statements of different rows commute: each row ends as its own part of the list says. */
  lemma {:induction false} ReplayRows(schema: Schema, db: Db, changes: seq<Entry>, clock: nat -> Stamp, n: nat)
    requires Valid(schema, db) && WellFormedSchema(schema) && IdFirst(schema) && AllFit(schema, changes)
    requires forall k :: Performable(ForKey(changes, k), Lookup(db, k))
    ensures var r := Replay(schema, db, changes, clock, n);
            r.Ok? && Valid(schema, r.value) &&
            forall k :: Lookup(r.value, k) == UndoSeq(ForKey(changes, k), Lookup(db, k))
    decreases changes
  {
    if changes != [] {
      var e, rest := changes[0], changes[1..];
      var step := Step(UndoWrite(schema, e), clock(n));
      ForKeyHead(changes, e.key);
      UndoStatement(schema, db, e, clock(n));
      ExecValid(schema, db, step);
      var next := Exec(schema, db, step);
      forall k
        ensures Performable(ForKey(rest, k), Lookup(next, k))
        ensures UndoSeq(ForKey(rest, k), Lookup(next, k)) == UndoSeq(ForKey(changes, k), Lookup(db, k))
      {
        ForKeyHead(changes, k);
      }
      ReplayRows(schema, next, rest, clock, n + 1);
    }
  }
}
