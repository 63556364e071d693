/** Small databases on which the conditions of the rollback theorems fail (src/lib/programmaticTransaction.ts). */
module AuditWitnesses {
  import opened Prelude
  import opened AuditLog
  import opened AuditUndo
  import opened AuditOrder
  import opened AuditRollback

  const ROW := Key("T", 1)

  /** One table with an id and one other column, which may be filtered. */
  predicate Narrow(schema: Schema, filtered: bool) {
    schema == Schema(map["T" := ["id", "n"]], if filtered then [FilterRow(None, "n")] else [])
  }

  function RowOf(n: int): Row {
    map["id" := Num(1), "n" := Num(n)]
  }

  function OneRow(n: int, log: seq<Entry>, last: nat): Db {
    Db(map[ROW := RowOf(n)], map["T" := log], map["T" := last], [], 0)
  }

  function SetN(n: int): Step {
    Step(Update(ROW, map["n" := Num(n)]), Stamp(0, 0))
  }

  function Logged(id: nat, before: int, after: int): Entry {
    Entry(id, ROW, Updated(map["n" := Num(before)], map["n" := Num(after)]), Stamp(0, 0))
  }

  lemma Setting(schema: Schema, filtered: bool, n: int, steps: seq<Step>)
    requires Narrow(schema, filtered) && forall i :: 0 <= i < |steps| ==> KeepsId(steps[i])
    ensures RollbackSetting(schema, OneRow(n, [], 0), steps)
  {
    var cols := schema.columns["T"];
    assert cols[0] == "id" && cols[1] == "n" && |cols| == 2;
    assert RowOf(n).Keys == Columns(cols);
  }

  lemma Overwrite(n: int, m: int)
    ensures RowOf(n) + map["n" := Num(m)] == RowOf(m)
    ensures n != m ==> Changed(RowOf(n), RowOf(m)) == {"n"}
    ensures Restrict(RowOf(n), {"n"}) == map["n" := Num(n)]
  {
  }

  lemma FilterOf(schema: Schema, filtered: bool)
    requires Narrow(schema, filtered)
    ensures Filtered(schema, "T") == if filtered then {"n"} else {}
  {
    if filtered {
      assert schema.filters[0] == FilterRow(None, "n");
    }
  }

  lemma ExecSetN(schema: Schema, filtered: bool, n: int, m: int, log: seq<Entry>, last: nat)
    requires Narrow(schema, filtered) && n != m
    ensures TablesOf(schema, OneRow(n, log, last))
    ensures Exec(schema, OneRow(n, log, last), SetN(m)) ==
            if filtered then OneRow(m, log, last) else OneRow(m, log + [Logged(last + 1, n, m)], last + 1)
  {
    Overwrite(n, m);
    Overwrite(m, n);
    FilterOf(schema, filtered);
    var cols := schema.columns["T"];
    assert cols[1] == "n" && map["n" := Num(m)].Keys <= Columns(cols);
  }

  lemma RunOne(schema: Schema, db: Db, a: Step)
    requires TablesOf(schema, db)
    ensures Run(schema, db, [a]) == Exec(schema, db, a)
  {
    assert [a][..0] == [];
  }

  lemma RunPair(schema: Schema, db: Db, a: Step, b: Step)
    requires TablesOf(schema, db)
    ensures Run(schema, db, [a, b]) == Exec(schema, Exec(schema, db, a), b)
  {
    assert [a, b][..1] == [a];
    RunOne(schema, db, a);
  }

  // ---------- a filtered column ----------

  /** An update of a filtered column alone leaves no entry, so nothing holds the column's old value. */
  lemma FilteredUpdateIsLost(schema: Schema, n: int, m: int)
    requires Narrow(schema, true) && n != m
    ensures RollbackSetting(schema, OneRow(n, [], 0), [SetN(m)])
    ensures !FilteredColumnsHeld(schema, OneRow(n, [], 0), [SetN(m)])
  {
    var start := OneRow(n, [], 0);
    Setting(schema, true, n, [SetN(m)]);
    ExecSetN(schema, true, n, m, [], 0);
    RunOne(schema, start, SetN(m));
    FilterOf(schema, true);
    NothingLogged(m, start.lastValue);
    assert !HeldAt(schema, start, OneRow(m, [], 0), ROW, "n");
  }

  lemma NothingLogged(m: int, base: map<string, nat>)
    requires "T" in base
    ensures History(OneRow(m, [], 0), base, ROW) == []
  {
  }

  // ---------- two updates in one transaction ----------

  lemma TwoUpdates(schema: Schema, x: int, y: int, z: int, log: seq<Entry>, last: nat)
    requires Narrow(schema, false) && x != y && y != z
    ensures TablesOf(schema, OneRow(x, log, last))
    ensures Run(schema, OneRow(x, log, last), [SetN(y), SetN(z)]) ==
            OneRow(z, log + [Logged(last + 1, x, y)] + [Logged(last + 2, y, z)], last + 2)
  {
    ExecSetN(schema, false, x, y, log, last);
    ExecSetN(schema, false, y, z, log + [Logged(last + 1, x, y)], last + 1);
    RunPair(schema, OneRow(x, log, last), SetN(y), SetN(z));
  }

  lemma EmptyFirst(a: Entry, b: Entry)
    ensures [] + [a] + [b] == [a] + [b]
  {
    assert [] + [a] == [a];
  }

  lemma TwoLogged(schema: Schema, x: int, y: int, z: int, log: seq<Entry>, last: nat, start: Db, a: Entry, b: Entry)
    requires Narrow(schema, false) && x != y && y != z
    requires log == [] && start == OneRow(x, log, last) && a == Logged(last + 1, x, y) && b == Logged(last + 2, y, z)
    ensures TablesOf(schema, start) && Run(schema, start, [SetN(y), SetN(z)]).logs == map["T" := [a] + [b]]
  {
    TwoUpdates(schema, x, y, z, log, last);
    EmptyFirst(a, b);
  }

  lemma AfterPair(a: Entry, b: Entry)
    requires 0 < a.logId && 0 < b.logId
    ensures After([a] + [b], 0) == [a] + [b]
  {
    AfterSnoc([], a, 0);
    assert [] + [a] == [a];
    AfterSnoc([a], b, 0);
  }

  lemma ForKeyPair(a: Entry, b: Entry)
    requires a.key == b.key
    ensures ForKey([a] + [b], a.key) == [a] + [b]
    ensures forall k :: k != a.key ==> ForKey([a] + [b], k) == []
  {
    ForKeySnoc([], a, a.key);
    assert [] + [a] == [a];
    ForKeySnoc([a], b, a.key);
    forall k | k != a.key ensures ForKey([a] + [b], k) == [] {
      ForKeyElsewhere([a] + [b], k);
    }
  }

  /** Entries with one timestamp stay in the order in which the database lists them. */
  lemma FetchPair(a: Entry, b: Entry)
    requires a.at == b.at
    ensures Fetch([[a] + [b]]) == [a] + [b]
  {
    var es := [a] + [b];
    assert es[0] == a && es[1..] == [b] && [b][1..] == [];
    assert SortDesc([b]) == InsertDesc(b, []) == [b];
    assert SortDesc(es) == InsertDesc(a, [b]);
    assert [[a] + [b]][1..] == [] && Flatten([[a] + [b]]) == es + [];
    assert es + [] == es;
  }

  lemma ReversePair(a: Entry, b: Entry)
    ensures Reverse([] + [b, a] + []) == [a] + [b] && [] + [a, b] + [] == [a] + [b]
  {
    assert [] + [b, a] + [] == [b, a];
    ReverseAt([b, a]);
  }

  lemma TiedAnswers(db: Db, a: Entry, b: Entry, base: map<string, nat>)
    requires db.logs == map["T" := [a] + [b]] && base == map["T" := 0]
    requires a.key == b.key == ROW && a.at == b.at && 0 < a.logId && 0 < b.logId
    ensures IsSnapshot([MaxId("T", 0)], base) && SqlAnswers(db, [MaxId("T", 0)], [[a] + [b]])
  {
    var snap := [MaxId("T", 0)];
    AfterPair(a, b);
    assert snap[0].table == "T";
    assert Desc([a] + [b]);
  }

  lemma TiedHistory(db: Db, a: Entry, b: Entry, base: map<string, nat>)
    requires db.logs == map["T" := [a] + [b]] && base == map["T" := 0]
    requires a.key == b.key == ROW && 0 < a.logId && 0 < b.logId
    ensures History(db, base, ROW) == [a] + [b]
    ensures forall k: Key :: k != ROW && k.table in base ==> History(db, base, k) == []
  {
    AfterPair(a, b);
    ForKeyPair(a, b);
  }

  /** A log of two tied updates that disagree, listed oldest first. */
  lemma {:induction false} PairMisordered(schema: Schema, start: Db, steps: seq<Step>, a: Entry, b: Entry,
                                          answers: seq<seq<Entry>>, clock: nat -> Stamp)
    requires Narrow(schema, false) && RollbackSetting(schema, start, steps) && start.lastValue == map["T" := 0]
    requires Run(schema, start, steps).logs == map["T" := [a] + [b]]
    requires a.key == b.key == ROW && a.at == b.at && 0 < a.logId && 0 < b.logId
    requires a.change.Updated? && b.change.Updated? && !OverlapCovered([], a.change.pre, b.change.pre)
    requires answers == [[a] + [b]]
    ensures IsSnapshot([MaxId("T", 0)], start.lastValue)
    ensures SqlAnswers(Run(schema, start, steps), [MaxId("T", 0)], answers) && AllFit(schema, Fetch(answers))
    ensures var r := Rollback(schema, Run(schema, start, steps), answers, clock);
            r.Ok? && Lookup(r.value, ROW) != Lookup(start, ROW)
  {
    var db := Run(schema, start, steps);
    TiedAnswers(db, a, b, start.lastValue);
    TiedHistory(db, a, b, start.lastValue);
    FetchPair(a, b);
    ReversePair(a, b);
    ForKeyPair(a, b);
    TiedUpdatesMisorder(schema, start, steps, [MaxId("T", 0)], answers, clock, ROW, [], a, b, []);
    StartIsRestored(schema, start, steps);
  }

  /** Two updates of one column in one transaction: with one answer of the log query the start is not restored. */
  lemma {:induction false} TiedUpdatesLoseTheStart(schema: Schema, x: int, y: int, z: int, start: Db, steps: seq<Step>,
                                                   answers: seq<seq<Entry>>, clock: nat -> Stamp)
    requires Narrow(schema, false) && x != y && y != z
    requires start == OneRow(x, [], 0) && steps == [SetN(y), SetN(z)]
    requires answers == [[Logged(1, x, y)] + [Logged(2, y, z)]]
    ensures RollbackSetting(schema, start, steps) && IsSnapshot([MaxId("T", 0)], start.lastValue)
    ensures SqlAnswers(Run(schema, start, steps), [MaxId("T", 0)], answers) && AllFit(schema, Fetch(answers))
    ensures var r := Rollback(schema, Run(schema, start, steps), answers, clock);
            r.Ok? && Lookup(r.value, ROW) != Lookup(start, ROW)
  {
    Setting(schema, false, x, steps);
    TwoLogged(schema, x, y, z, [], 0, start, Logged(1, x, y), Logged(2, y, z));
    Disagree(x, y);
    PairMisordered(schema, start, steps, Logged(1, x, y), Logged(2, y, z), answers, clock);
  }

  lemma Disagree(x: int, y: int)
    requires x != y
    ensures !OverlapCovered([], map["n" := Num(x)], map["n" := Num(y)])
  {
    var a, b := map["n" := Num(x)], map["n" := Num(y)];
    assert "n" in a && "n" in b && a["n"] != b["n"] && !Covered([], "n");
  }

  lemma {:induction false} StartIsRestored(schema: Schema, start: Db, steps: seq<Step>)
    requires Narrow(schema, false) && RollbackSetting(schema, start, steps)
    ensures RestoredRow(Run(schema, start, steps), start.lastValue, ROW) == Lookup(start, ROW)
  {
    RunInvariant(schema, start, steps, ROW);
    FilterOf(schema, false);
    SameRowIff({}, RestoredRow(Run(schema, start, steps), start.lastValue, ROW), Lookup(start, ROW));
  }

  // ---------- column names that sort before "id" ----------

  /** The re-INSERT gives the column the id and "id" the column's value. */
  lemma ShortNamesSwapValues(cols: seq<Column>, id: int, n: int)
    requires cols == ["n", "id"] && n != id
    ensures var row := map["n" := Num(n), "id" := Num(id)];
            ReplayedRow(cols, row, id) == map["n" := Num(id), "id" := Num(n)] != row
  {
    var row := map["n" := Num(n), "id" := Num(id)];
    assert cols[0] == "n" && cols[1] == "id";
    IndexOfUnique(cols, 1);
    ReplayedColumn(cols, row, id, 0);
    ReplayedColumn(cols, row, id, 1);
    assert ReplayedRow(cols, row, id).Keys == {"n", "id"};
  }
}
