/**
  The order in which a row's changes are undone (src/lib/programmaticTransaction.ts).  Timestamps are those of the
  transaction's start: changes of one transaction tie, and a long transaction's changes sort before those of a shorter
  one that wrote first.  A row is restored all the same if the changes that get out of order commute.
 */
module AuditOrder {
  import opened Prelude
  import opened AuditLog
  import opened AuditUndo

  /** Undoing these two changes of one row in either order comes to the same. */
  predicate Commutes(a: Change, b: Change) {
    !a.Deleted? && !b.Deleted? && (a.Updated? && b.Updated? ==> a.pre.Keys !! b.pre.Keys)
  }

  /** Changes of a history that the timestamps do not keep in order commute. */
  ghost predicate OrderedUpToCommuting(history: seq<Entry>) {
    forall i, j :: 0 <= i < j < |history| ==>
      history[i].at.timestamp < history[j].at.timestamp || Commutes(history[i].change, history[j].change)
  }

  ghost predicate PerRowOrdered(schema: Schema, db: Db, base: map<string, nat>)
    requires db.logs.Keys == base.Keys == schema.columns.Keys
  {
    forall key: Key :: key.table in base ==> OrderedUpToCommuting(History(db, base, key))
  }

  lemma CommutesUndo(a: Change, b: Change, row: Option<Row>)
    requires Commutes(a, b)
    ensures UndoRow(a, UndoRow(b, row)) == UndoRow(b, UndoRow(a, row))
  {
    if row.Some? && a.Updated? && b.Updated? {
      assert row.value + a.pre + b.pre == row.value + b.pre + a.pre;
    }
  }

  /** An entry can be undone before entries it commutes with. */
  lemma {:induction false} MoveForward(first: seq<Entry>, e: Entry, rest: seq<Entry>, row: Option<Row>)
    requires forall i :: 0 <= i < |first| ==> Commutes(e.change, first[i].change)
    requires Performable([e] + (first + rest), row)
    ensures Performable(first + ([e] + rest), row)
    ensures UndoSeq(first + ([e] + rest), row) == UndoSeq([e] + (first + rest), row)
    decreases first
  {
    if first == [] {
      assert first + ([e] + rest) == [e] + (first + rest);
    } else {
      var y, more := first[0], first[1..];
      assert first + rest == [y] + (more + rest);
      CommutesUndo(e.change, y.change, row);
      assert ([e] + (more + rest))[1..] == more + rest;
      MoveForward(more, e, rest, UndoRow(y.change, row));
      assert first + ([e] + rest) == [y] + (more + ([e] + rest));
    }
  }

  lemma FirstPlace(es: seq<Entry>, e: Entry) returns (k: nat)
    requires e in es
    ensures k < |es| && es[k] == e && e !in es[..k]
  {
    k := 0;
    while es[k] != e
      invariant k < |es| && e !in es[..k] && e in es[k..]
      decreases |es| - k
    {
      assert es[k..] == [es[k]] + es[k + 1..];
      assert es[..k + 1] == es[..k] + [es[k]];
      k := k + 1;
    }
  }

  /** Newest first, up to commuting changes. */
  ghost predicate NewestFirst(es: seq<Entry>) {
    forall i, j :: 0 <= i < j < |es| ==>
      es[j].at.timestamp < es[i].at.timestamp || Commutes(es[i].change, es[j].change)
  }

  lemma MultisetRest(es: seq<Entry>, k: nat)
    requires k < |es|
    ensures es == es[..k] + ([es[k]] + es[k + 1..])
    ensures multiset(es[..k] + es[k + 1..]) == multiset(es) - multiset{es[k]}
  {
    assert es == es[..k] + [es[k]] + es[k + 1..];
  }

  /** What a listing puts before the newest entry commutes with it. */
  lemma BeforeNewest(listed: seq<Entry>, es: seq<Entry>, k: nat)
    requires multiset(listed) == multiset(es) && Desc(listed) && NewestFirst(es)
    requires k < |listed| && es != [] && listed[k] == es[0] && es[0] !in listed[..k]
    ensures forall i :: 0 <= i < k ==> Commutes(es[0].change, listed[..k][i].change)
  {
    forall i | 0 <= i < k ensures Commutes(es[0].change, listed[..k][i].change) {
      assert listed[..k][i] in listed[..k];
      assert listed[i] in multiset(es);
      var j :| 0 <= j < |es| && es[j] == listed[i];
      assert listed[i].at.timestamp >= listed[k].at.timestamp;
    }
  }

  /** Any listing by falling timestamp undoes the row like the true order. */
  lemma {:induction false} AnyOrderUndoes(listed: seq<Entry>, es: seq<Entry>, row: Option<Row>)
    requires multiset(listed) == multiset(es) && Desc(listed) && NewestFirst(es) && Performable(es, row)
    ensures Performable(listed, row) && UndoSeq(listed, row) == UndoSeq(es, row)
    decreases |es|
  {
    if es == [] {
      assert |multiset(listed)| == 0;
    } else {
      var e := es[0];
      assert e in multiset(listed);
      var k := FirstPlace(listed, e);
      var before, after := listed[..k], listed[k + 1..];
      BeforeNewest(listed, es, k);
      RestListed(listed, es, k);
      AnyOrderUndoes(before + after, es[1..], UndoRow(e.change, row));
      MoveForward(before, e, after, row);
      MultisetRest(listed, k);
    }
  }

  lemma RestListed(listed: seq<Entry>, es: seq<Entry>, k: nat)
    requires multiset(listed) == multiset(es) && Desc(listed) && NewestFirst(es)
    requires k < |listed| && es != [] && listed[k] == es[0]
    ensures var rest := listed[..k] + listed[k + 1..];
            multiset(rest) == multiset(es[1..]) && Desc(rest) && NewestFirst(es[1..])
  {
    MultisetRest(listed, k);
    MultisetRest(es, 0);
    DescRest(listed, k);
    NewestFirstRest(es);
    assert es[..0] + es[1..] == es[1..];
  }

  lemma DescRest(es: seq<Entry>, k: nat)
    requires k < |es| && Desc(es)
    ensures Desc(es[..k] + es[k + 1..])
  {
    var rest := es[..k] + es[k + 1..];
    assert forall i :: 0 <= i < |rest| ==> rest[i] == if i < k then es[i] else es[i + 1];
  }

  lemma NewestFirstRest(es: seq<Entry>)
    requires es != [] && NewestFirst(es)
    ensures NewestFirst(es[1..])
  {
    assert forall i :: 0 <= i < |es[1..]| ==> es[1..][i] == es[i + 1];
  }

  lemma {:induction false} ReverseAt(es: seq<Entry>)
    ensures |Reverse(es)| == |es| && multiset(Reverse(es)) == multiset(es)
    ensures forall k :: 0 <= k < |es| ==> Reverse(es)[k] == es[|es| - 1 - k]
  {
    if es != [] {
      var n := |es| - 1;
      ReverseAt(es[..n]);
      assert es == es[..n] + [es[n]];
    }
  }

  /** A history is undone whatever listing by falling timestamp the queries and the sort produce. */
  lemma ListedUndoes(history: seq<Entry>, listed: seq<Entry>, row: Option<Row>)
    requires multiset(listed) == multiset(history) && Desc(listed) && OrderedUpToCommuting(history)
    requires Undoable(history, row)
    ensures Performable(listed, row) && UndoSeq(listed, row) == UndoBack(history, row)
  {
    ReverseAt(history);
    ReverseUndo(history, row);
    AnyOrderUndoes(listed, Reverse(history), row);
  }
}
