/**
  Merging formatted citations (src/goalServices/reduceGoals.ts): one citation per identity, holding the references of
  all of its occurrences once each.  Merging piecemeal and merging in one go give the same list.
 */
module Citations {
  import opened Prelude
  import opened Sequences
  import opened Text
  import opened Grouping
  import OrderedMap

  /** `rest` stands for the fields that do not enter the identity. */
  datatype Reference = Reference(standardId: Option<int>, grantId: Option<int>, findingId: Option<string>,
                                 reviewName: Option<string>, grantNumber: Option<string>, findingSource: Option<string>,
                                 acro: Option<string>, findingType: Option<string>, rest: string)

  datatype Citation = Citation(id: Option<int>, name: string, references: seq<Reference>)

  function IdText(id: Option<int>, absent: string): string {
    if id.Some? then NumberText(id.value) else absent
  }

  function TextOr(s: Option<string>): string {
    if s.Some? then s.value else ""
  }

  function ReferenceIdentity(r: Reference): string {
    Join([IdText(r.standardId, ""), IdText(r.grantId, ""), TextOr(r.findingId), TextOr(r.reviewName),
          TextOr(r.grantNumber), TextOr(r.findingSource), TextOr(r.acro), TextOr(r.findingType)], '|')
  }

  function Identity(c: Citation): string {
    IdText(c.id, "null") + "-" + c.name
  }

  // ---------- what the identities tell apart ----------

  lemma IdTextIs(id: Option<int>)
    ensures forall i :: 0 <= i < |IdText(id, "")| ==> Digit(IdText(id, "")[i]) || IdText(id, "")[i] == '-'
    ensures id.Some? <==> IdText(id, "") != ""
  {
    if id.Some? {
      NumberTextIs(if id.value < 0 then -id.value else id.value);
    }
  }

  lemma IdTextsDiffer(a: Option<int>, b: Option<int>)
    ensures IdText(a, "") == IdText(b, "") <==> a == b
  {
    IdTextIs(a);
    IdTextIs(b);
    if a.Some? && b.Some? { NumberTextsDiffer(a.value, b.value); }
  }

  ghost predicate PipeFree(r: Reference) {
    '|' !in TextOr(r.findingId) && '|' !in TextOr(r.reviewName) && '|' !in TextOr(r.grantNumber) &&
    '|' !in TextOr(r.findingSource) && '|' !in TextOr(r.acro) && '|' !in TextOr(r.findingType)
  }

  function IdentityParts(r: Reference): (parts: seq<string>)
    ensures |parts| == 8 && ReferenceIdentity(r) == Join(parts, '|')
  {
    [IdText(r.standardId, ""), IdText(r.grantId, ""), TextOr(r.findingId), TextOr(r.reviewName),
     TextOr(r.grantNumber), TextOr(r.findingSource), TextOr(r.acro), TextOr(r.findingType)]
  }

  lemma PartsRead(r: Reference)
    requires PipeFree(r)
    ensures Split(ReferenceIdentity(r), '|') == IdentityParts(r)
  {
    IdTextIs(r.standardId);
    IdTextIs(r.grantId);
    SplitJoin(IdentityParts(r), '|');
  }

  /** Both absent or the same text; an absent one counts as empty. */
  predicate SameText(a: Option<string>, b: Option<string>) {
    (if a.Some? then a.value else "") == (if b.Some? then b.value else "")
  }

  /** Without vertical bars in their texts, references are the same iff they agree in eight fields. */
  lemma SameReferenceIff(a: Reference, b: Reference)
    requires PipeFree(a) && PipeFree(b)
    ensures ReferenceIdentity(a) == ReferenceIdentity(b) <==>
            a.standardId == b.standardId && a.grantId == b.grantId && SameText(a.findingId, b.findingId) &&
            SameText(a.reviewName, b.reviewName) && SameText(a.grantNumber, b.grantNumber) &&
            SameText(a.findingSource, b.findingSource) && SameText(a.acro, b.acro) &&
            SameText(a.findingType, b.findingType)
  {
    PartsRead(a);
    PartsRead(b);
    var p, q := IdentityParts(a), IdentityParts(b);
    IdTextsDiffer(a.standardId, b.standardId);
    IdTextsDiffer(a.grantId, b.grantId);
    assert p == q <==> p[0] == q[0] && p[1] == q[1] && p[2] == q[2] && p[3] == q[3] && p[4] == q[4] && p[5] == q[5] &&
                       p[6] == q[6] && p[7] == q[7];
  }

  /** With vertical bars, different references can count as the same, and only one of them is kept. */
  lemma BarsCollide(r: Reference)
    ensures var a, b := r.(findingId := Some("x|y"), reviewName := Some("z")),
                        r.(findingId := Some("x"), reviewName := Some("y|z"));
            a != b && Uniq([a, b]) == [a]
  {
    var a, b := r.(findingId := Some("x|y"), reviewName := Some("z")),
        r.(findingId := Some("x"), reviewName := Some("y|z"));
    var rest := Join(IdentityParts(r)[4..], '|');
    Tail(a, rest);
    Tail(b, rest);
    assert "x|y" + "|" + ("z" + "|") == "x" + "|" + ("y|z" + "|");
    assert "x|y" + "|" + ("z" + "|" + rest) == "x|y" + "|" + ("z" + "|") + rest;
    assert "x" + "|" + ("y|z" + "|" + rest) == "x" + "|" + ("y|z" + "|") + rest;
    UniqFixed([a], ReferenceIdentity);
    UniqSnoc([a], ReferenceIdentity, b);
    HasKeyIndex([a], ReferenceIdentity, ReferenceIdentity(b));
    assert [a][0] == a && [a] + [b] == [a, b];
  }

  lemma Tail(r: Reference, rest: string)
    requires rest == Join(IdentityParts(r)[4..], '|')
    ensures ReferenceIdentity(r) ==
            IdText(r.standardId, "") + "|" + (IdText(r.grantId, "") + "|" +
              (TextOr(r.findingId) + "|" + (TextOr(r.reviewName) + "|" + rest)))
  {
    var p := IdentityParts(r);
    JoinHead(p);
    JoinHead(p[1..]);
    JoinHead(p[2..]);
    JoinHead(p[3..]);
    assert p[1..][1..] == p[2..] && p[2..][1..] == p[3..] && p[3..][1..] == p[4..];
  }

  lemma JoinHead(parts: seq<string>)
    requires |parts| > 1
    ensures Join(parts, '|') == parts[0] + "|" + Join(parts[1..], '|')
  {
  }

  /** Citations are the same iff id and name are. */
  lemma SameCitationIff(a: Citation, b: Citation)
    ensures Identity(a) == Identity(b) <==> a.id == b.id && a.name == b.name
  {
    IdentitySplits(a);
    IdentitySplits(b);
    if Identity(a) == Identity(b) {
      assert Identity(a)[0] == Identity(b)[0];
      if a.id.Some? && b.id.Some? {
        NumberTextsDiffer(a.id.value, b.id.value);
      }
      assert a.id == b.id;
      var n := |IdText(a.id, "null") + "-"|;
      assert Identity(a)[n..] == a.name && Identity(b)[n..] == b.name;
    }
  }

  /** The identity without its sign begins with the digits of the id, or with "null", up to the first hyphen. */
  lemma IdentitySplits(c: Citation)
    ensures Identity(c) != ""
    ensures c.id.None? ==> Identity(c)[0] == 'n'
    ensures c.id.Some? ==> if c.id.value < 0
                           then Identity(c)[0] == '-' && Split(Identity(c)[1..], '-')[0] == NumberText(-c.id.value)
                           else Digit(Identity(c)[0]) && Split(Identity(c), '-')[0] == NumberText(c.id.value)
  {
    if c.id.Some? {
      var n := if c.id.value < 0 then -c.id.value else c.id.value;
      NumberTextIs(n);
      SplitAt(NumberText(n), '-', c.name);
      assert NumberText(n) + ['-'] + c.name == NumberText(n) + "-" + c.name;
      if c.id.value < 0 {
        assert Identity(c)[1..] == NumberText(n) + "-" + c.name;
      }
    }
  }

  // ---------- merging ----------

  function Uniq(references: seq<Reference>): seq<Reference> {
    UniqBy(references, ReferenceIdentity)
  }

  function First(c: Citation): Citation {
    c.(references := Uniq(c.references))
  }

  function Absorb(existing: Citation, c: Citation): Citation {
    existing.(references := Uniq(existing.references + c.references))
  }

  const CITATIONS: Grouper<Citation, Citation, string> := Grouper(Identity, Identity, First, Absorb)

  function Merge(citations: seq<Citation>): seq<Citation> {
    GroupAll(CITATIONS, [], citations)
  }

  /** Entries of the merge map are stored under the identity of their citation. */
  ghost predicate Keyed(m: seq<(string, Citation)>) {
    forall k :: 0 <= k < |m| ==> m[k].0 == Identity(m[k].1)
  }

  /** Setting the map entry of one citation is one step of the fold. */
  lemma SetIsAdd(m: seq<(string, Citation)>, c: Citation)
    requires Keyed(m)
    ensures var existing := OrderedMap.Get(m, Identity(c));
            var m' := OrderedMap.Set(m, Identity(c), if existing.None? then First(c) else Absorb(existing.value, c));
            Keyed(m') && OrderedMap.Values(m') == Add(CITATIONS, OrderedMap.Values(m), c)
  {
  }

  lemma MergeNext(citations: seq<Citation>, i: nat)
    requires i < |citations|
    ensures Merge(citations[..i + 1]) == Add(CITATIONS, Merge(citations[..i]), citations[i])
  {
    assert citations[..i + 1][..i] == citations[..i];
  }

  method MergeFormattedCitations(citations: seq<Citation>) returns (merged: seq<Citation>)
    ensures merged == Merge(citations)
  {
    var deduped: seq<(string, Citation)> := [];
    for i := 0 to |citations|
      invariant Keyed(deduped) && OrderedMap.Values(deduped) == Merge(citations[..i])
    {
      var key := Identity(citations[i]);
      var existing := OrderedMap.Get(deduped, key);
      SetIsAdd(deduped, citations[i]);
      MergeNext(citations, i);
      if existing.None? {
        deduped := OrderedMap.Set(deduped, key, First(citations[i]));
      } else {
        deduped := OrderedMap.Set(deduped, key, Absorb(existing.value, citations[i]));
      }
    }
    TakeAll(citations);
    merged := OrderedMap.Values(deduped);
  }

  function AllReferences(citations: seq<Citation>): seq<Reference> {
    if citations == [] then []
    else AllReferences(citations[..|citations| - 1]) + citations[|citations| - 1].references
  }

  /** One merged citation: id and name of the first occurrence, references of all, each identity once, oldest first. */
  lemma {:induction false} CollapsedReferences(items: seq<Citation>)
    requires items != []
    ensures Collapse(CITATIONS, items) == items[0].(references := Uniq(AllReferences(items)))
  {
    var n := |items| - 1;
    if n == 0 {
      assert items[..0] == [];
      assert [] + items[0].references == items[0].references;
    } else {
      CollapsedReferences(items[..n]);
      UniqConcat(AllReferences(items[..n]), items[n].references, ReferenceIdentity);
    }
  }

  lemma {:induction false} MergeRepresents(citations: seq<Citation>)
    ensures Represents(CITATIONS, Merge(citations), citations)
  {
    assert Represents(CITATIONS, [], []);
    GroupAllRepresents(CITATIONS, [], [], citations);
    assert [] + citations == citations;
  }

  /** The citations with this id and name, in order. */
  function WithName(citations: seq<Citation>, id: Option<int>, name: string): seq<Citation> {
    if citations == [] then []
    else
      var earlier, c := WithName(citations[..|citations| - 1], id, name), citations[|citations| - 1];
      if c.id == id && c.name == name then earlier + [c] else earlier
  }

  lemma {:induction false} MembersAreNamed(citations: seq<Citation>, c: Citation)
    ensures Members(CITATIONS, citations, Identity(c)) == WithName(citations, c.id, c.name)
  {
    if citations != [] {
      MembersAreNamed(citations[..|citations| - 1], c);
      SameCitationIff(citations[|citations| - 1], c);
    }
  }

  /** One citation of the merged list: the first with its id and name, holding the unique references of all of them. */
  ghost predicate MergedFrom(m: Citation, citations: seq<Citation>) {
    var items := WithName(citations, m.id, m.name);
    items != [] && m == items[0].(references := Uniq(AllReferences(items)))
  }

  lemma OneMerged(merged: seq<Citation>, citations: seq<Citation>, i: nat)
    requires Represents(CITATIONS, merged, citations) && i < |merged|
    ensures MergedFrom(merged[i], citations)
  {
    var m := merged[i];
    assert CITATIONS.groupKey(merged[i]) == Identity(m);
    MembersAreNamed(citations, m);
    CollapsedReferences(Members(CITATIONS, citations, Identity(m)));
  }

  lemma MergedOnce(merged: seq<Citation>, citations: seq<Citation>)
    requires Represents(CITATIONS, merged, citations)
    ensures forall i, j :: 0 <= i < j < |merged| ==> merged[i].id != merged[j].id || merged[i].name != merged[j].name
    ensures forall m :: m in merged ==> MergedFrom(m, citations)
  {
    forall i, j | 0 <= i < j < |merged| ensures merged[i].id != merged[j].id || merged[i].name != merged[j].name {
      assert CITATIONS.groupKey(merged[i]) != CITATIONS.groupKey(merged[j]);
    }
    forall i | 0 <= i < |merged| ensures MergedFrom(merged[i], citations) {
      OneMerged(merged, citations, i);
    }
  }

  /**
    The merged list has one citation per id and name, in order of first appearance, and each holds the first-occurrence
    unique references of all inputs with its id and name.
   */
  lemma {:induction false} MergeIsGrouping(citations: seq<Citation>)
    ensures GroupKeys(CITATIONS, Merge(citations)) == KeysInOrder(CITATIONS, citations)
    ensures forall i, j :: 0 <= i < j < |Merge(citations)| ==>
              Merge(citations)[i].id != Merge(citations)[j].id || Merge(citations)[i].name != Merge(citations)[j].name
    ensures forall m :: m in Merge(citations) ==> MergedFrom(m, citations)
  {
    GroupedInOrder(CITATIONS, citations);
    MergeRepresents(citations);
    MergedOnce(Merge(citations), citations);
  }

  /** A list that is already merged: distinct identities, unique references. */
  ghost predicate IsMerged(m: seq<Citation>) {
    (forall i, j :: 0 <= i < j < |m| ==> Identity(m[i]) != Identity(m[j])) &&
    forall i :: 0 <= i < |m| ==> Uniq(m[i].references) == m[i].references
  }

  lemma {:induction false} MergedStays(m: seq<Citation>)
    requires IsMerged(m)
    ensures Merge(m) == m
  {
    if m != [] {
      var front, c := m[..|m| - 1], m[|m| - 1];
      MergedStays(front);
      AddNew(front, c);
      Snoc(m);
    }
  }

  lemma AddNew(m: seq<Citation>, c: Citation)
    requires forall i :: 0 <= i < |m| ==> Identity(m[i]) != Identity(c)
    requires Uniq(c.references) == c.references
    ensures Add(CITATIONS, m, c) == m + [c]
  {
    assert forall i :: 0 <= i < |m| ==> CITATIONS.groupKey(m[i]) != CITATIONS.key(c);
    assert First(c) == c;
  }

  lemma MergeIsMerged(citations: seq<Citation>)
    ensures IsMerged(Merge(citations))
  {
    MergeIsGrouping(citations);
    MergeRepresents(citations);
    var m := Merge(citations);
    forall i, j | 0 <= i < j < |m| ensures Identity(m[i]) != Identity(m[j]) {
      assert CITATIONS.groupKey(m[i]) != CITATIONS.groupKey(m[j]);
    }
    forall i | 0 <= i < |m| ensures Uniq(m[i].references) == m[i].references {
      assert MergedFrom(m[i], citations);
      var refs := AllReferences(WithName(citations, m[i].id, m[i].name));
      UniqDistinct(refs, ReferenceIdentity);
      UniqFixed(Uniq(refs), ReferenceIdentity);
    }
  }

  lemma MergeIdempotent(citations: seq<Citation>)
    ensures Merge(Merge(citations)) == Merge(citations)
  {
    MergeIsMerged(citations);
    MergedStays(Merge(citations));
  }

  /** Merging into an already merged list equals merging everything at once. */
  lemma MergeIsHomomorphic(a: seq<Citation>, b: seq<Citation>)
    ensures Merge(Merge(a) + b) == Merge(a + b)
  {
    GroupConcat(CITATIONS, [], Merge(a), b);
    GroupConcat(CITATIONS, [], a, b);
    MergeIdempotent(a);
  }
}
