/** The verdict of the Semgrep gate and the dispositions it needs (tools/semgrep-sast.js). */
module SemgrepGate {
  import opened Prelude
  import opened Sums
  import opened Sequences
  import opened Semgrep

  /** One entry of the dispositions file; absent text fields are empty. */
  datatype Item = Item(signature: Option<Signature>, status: string, rationale: string, owner: string, reviewBy: string)

  datatype Issue = NoSignature | Duplicate(s: Signature) | NotInBaseline(s: Signature) | BadStatus(s: Signature)
                 | NoRationale(s: Signature) | NoOwner(s: Signature) | NoReviewBy(s: Signature)

  datatype Failure = InvalidDisposition(issue: Issue) | MissingDisposition(s: Signature)
                   | NewBlocking(finding: Finding) | InvalidActive(finding: Finding, status: string)

  datatype Summary = Summary(failures: seq<Failure>, warnings: seq<Finding>,
                             newBlocking: nat, newNonBlocking: nat, resolved: nat)

  const VALID_STATUSES := {"accepted_risk", "deferred", "false_positive", "fixed", "not_applicable"}
  const ACTIVE_STATUSES := {"accepted_risk", "deferred", "false_positive", "not_applicable"}

  // ---------- dispositions ----------

  predicate FieldsValid(item: Item) {
    item.status in {"accepted_risk", "deferred", "false_positive", "fixed", "not_applicable"} &&
    item.rationale != "" && item.owner != "" && item.reviewBy != ""
  }

  function Unless(good: bool, issue: Issue): seq<Issue> {
    if good then [] else [issue]
  }

  function FieldIssues(item: Item, s: Signature, known: set<Signature>): seq<Issue> {
    Unless(s in known, NotInBaseline(s)) + Unless(item.status in VALID_STATUSES, BadStatus(s)) +
    Unless(item.rationale != "", NoRationale(s)) + Unless(item.owner != "", NoOwner(s)) +
    Unless(item.reviewBy != "", NoReviewBy(s))
  }

  /** The signatures the entries name. */
  function Named(items: seq<Item>): set<Signature> {
    set i | 0 <= i < |items| && items[i].signature.Some? :: items[i].signature.value
  }

  /** A dispositions file without issues: every entry names its own baseline finding and is filled in. */
  ghost predicate WellDisposed(items: seq<Item>, known: set<Signature>) {
    (forall i :: 0 <= i < |items| ==>
       items[i].signature.Some? && items[i].signature.value in known && FieldsValid(items[i])) &&
    forall i, j :: 0 <= i < j < |items| ==> items[i].signature != items[j].signature
  }

  /** Entry `i` is the first to name `s`. */
  predicate FirstFor(items: seq<Item>, i: nat, s: Signature)
    requires i < |items|
  {
    items[i].signature == Some(s) && s !in Named(items[..i])
  }

  /** The issues entry `i` gives rise to: a repeated entry is reported as such and not looked at further. */
  predicate Raises(items: seq<Item>, i: nat, known: set<Signature>, issue: Issue)
    requires i < |items|
  {
    match issue
    case NoSignature => items[i].signature.None?
    case Duplicate(s) => items[i].signature == Some(s) && s in Named(items[..i])
    case NotInBaseline(s) => FirstFor(items, i, s) && s !in known
    case BadStatus(s) =>
      FirstFor(items, i, s) &&
      items[i].status !in {"accepted_risk", "deferred", "false_positive", "fixed", "not_applicable"}
    case NoRationale(s) => FirstFor(items, i, s) && items[i].rationale == ""
    case NoOwner(s) => FirstFor(items, i, s) && items[i].owner == ""
    case NoReviewBy(s) => FirstFor(items, i, s) && items[i].reviewBy == ""
  }

  ghost predicate RaisedBefore(items: seq<Item>, n: nat, known: set<Signature>, issue: Issue)
    requires n <= |items|
  {
    exists i :: 0 <= i < n && Raises(items, i, known, issue)
  }

  /** `issues` are exactly the issues of the first `n` entries. */
  ghost predicate IssuesAre(issues: seq<Issue>, items: seq<Item>, n: nat, known: set<Signature>)
    requires n <= |items|
  {
    forall x :: x in issues <==> RaisedBefore(items, n, known, x)
  }

  function EntryIssues(items: seq<Item>, i: nat, known: set<Signature>): seq<Issue>
    requires i < |items|
  {
    if items[i].signature.None? then [NoSignature]
    else
      var s := items[i].signature.value;
      if s in Named(items[..i]) then [Duplicate(s)] else FieldIssues(items[i], s, known)
  }

  /** The issues of the first `n` entries, in order. */
  function AllIssues(items: seq<Item>, n: nat, known: set<Signature>): seq<Issue>
    requires n <= |items|
  {
    if n == 0 then [] else AllIssues(items, n - 1, known) + EntryIssues(items, n - 1, known)
  }

  /** `issues` are exactly the issues of entry `i`. */
  ghost predicate Exactly(issues: seq<Issue>, items: seq<Item>, i: nat, known: set<Signature>)
    requires i < |items|
  {
    forall x :: x in issues <==> Raises(items, i, known, x)
  }

  lemma InFieldIssues(item: Item, s: Signature, known: set<Signature>, x: Issue)
    ensures x in FieldIssues(item, s, known) <==>
            x in Unless(s in known, NotInBaseline(s)) || x in Unless(item.status in VALID_STATUSES, BadStatus(s)) ||
            x in Unless(item.rationale != "", NoRationale(s)) || x in Unless(item.owner != "", NoOwner(s)) ||
            x in Unless(item.reviewBy != "", NoReviewBy(s))
  {
  }

  lemma EntryIssueRaised(items: seq<Item>, i: nat, known: set<Signature>, x: Issue)
    requires i < |items|
    ensures x in EntryIssues(items, i, known) <==> Raises(items, i, known, x)
  {
    if items[i].signature.Some? && items[i].signature.value !in Named(items[..i]) {
      InFieldIssues(items[i], items[i].signature.value, known, x);
    }
  }

  lemma EntryIssuesRaised(items: seq<Item>, i: nat, known: set<Signature>)
    requires i < |items|
    ensures Exactly(EntryIssues(items, i, known), items, i, known)
  {
    forall x ensures x in EntryIssues(items, i, known) <==> Raises(items, i, known, x) {
      EntryIssueRaised(items, i, known, x);
    }
  }

  lemma IssuesNext(issues: seq<Issue>, own: seq<Issue>, items: seq<Item>, n: nat, known: set<Signature>)
    requires 0 < n <= |items| && IssuesAre(issues, items, n - 1, known) && Exactly(own, items, n - 1, known)
    ensures IssuesAre(issues + own, items, n, known)
  {
    forall x ensures x in issues + own <==> RaisedBefore(items, n, known, x) {
      InConcat(issues, own, x);
    }
  }

  lemma {:induction false} AllIssuesAre(items: seq<Item>, n: nat, known: set<Signature>)
    requires n <= |items|
    ensures IssuesAre(AllIssues(items, n, known), items, n, known)
  {
    if n > 0 {
      AllIssuesAre(items, n - 1, known);
      EntryIssuesRaised(items, n - 1, known);
      IssuesNext(AllIssues(items, n - 1, known), EntryIssues(items, n - 1, known), items, n, known);
    }
  }

  /** The file has no issues iff it is well disposed. */
  lemma NoIssuesIff(items: seq<Item>, known: set<Signature>)
    ensures AllIssues(items, |items|, known) == [] <==> WellDisposed(items, known)
  {
    var issues := AllIssues(items, |items|, known);
    AllIssuesAre(items, |items|, known);
    assert issues == [] || issues[0] in issues;
    if WellDisposed(items, known) {
      forall i, x | 0 <= i < |items| ensures !Raises(items, i, known, x) {
      }
    } else {
      var x := SomeIssue(items, known);
      assert x in issues;
    }
  }

  lemma SomeIssue(items: seq<Item>, known: set<Signature>) returns (x: Issue)
    requires !WellDisposed(items, known)
    ensures RaisedBefore(items, |items|, known, x)
  {
    if i, j :| 0 <= i < j < |items| && items[i].signature == items[j].signature {
      x := if items[j].signature.None? then NoSignature else Duplicate(items[j].signature.value);
      assert items[..j][i] == items[i];
      assert Raises(items, j, known, x);
    } else {
      var i :| 0 <= i < |items| &&
          !(items[i].signature.Some? && items[i].signature.value in known && FieldsValid(items[i]));
      x := EntryIssues(items, i, known)[0];
      EntryIssueRaised(items, i, known, x);
      assert x in EntryIssues(items, i, known);
      assert Raises(items, i, known, x);
    }
  }

  /** The baseline findings without an entry, as often as the baseline lists them. */
  method Undisposed(baseline: seq<Finding>, seen: set<Signature>) returns (missing: seq<Signature>)
    ensures missing == Listed(Without(baseline, seen))
    ensures missing == [] <==> Signatures(baseline) <= seen
  {
    missing := [];
    for i := 0 to |baseline|
      invariant missing == Listed(Without(baseline[..i], seen))
    {
      assert baseline[..i + 1][..i] == baseline[..i];
      if baseline[i].signature !in seen {
        missing := missing + [baseline[i].signature];
      }
    }
    TakeAll(baseline);
    ListedAre(baseline, seen);
    assert missing == [] || missing[0] in missing;
  }

  function Listed(findings: seq<Finding>): seq<Signature> {
    if findings == [] then [] else Listed(findings[..|findings| - 1]) + [findings[|findings| - 1].signature]
  }

  /** validateDispositions: the issues, and the baseline findings without an entry. */
  method ValidateDispositions(baseline: seq<Finding>, items: seq<Item>)
    returns (issues: seq<Issue>, missing: seq<Signature>)
    ensures issues == AllIssues(items, |items|, Signatures(baseline))
    ensures issues == [] <==> WellDisposed(items, Signatures(baseline))
    ensures missing == Listed(Without(baseline, Named(items)))
    ensures missing == [] <==> Signatures(baseline) <= Named(items)
  {
    issues := [];
    var known := set f | f in baseline :: f.signature;
    var seen: set<Signature> := {};
    for i := 0 to |items|
      invariant seen == Named(items[..i]) && issues == AllIssues(items, i, known)
    {
      var item := items[i];
      assert items[..i + 1] == items[..i] + [item];
      NamedSnoc(items[..i], item);
      if item.signature.None? {
        issues := issues + [NoSignature];
      } else {
        var s := item.signature.value;
        if s in seen {
          issues := issues + [Duplicate(s)];
        } else {
          seen := seen + {s};
          issues := issues + FieldIssues(item, s, known);
        }
      }
    }
    assert items[..|items|] == items;
    NoIssuesIff(items, known);
    missing := Undisposed(baseline, seen);
  }

  lemma NamedSnoc(items: seq<Item>, item: Item)
    ensures Named(items + [item]) == Named(items) + if item.signature.Some? then {item.signature.value} else {}
  {
    var all := items + [item];
    assert all[|items|] == item && forall i :: 0 <= i < |items| ==> all[i] == items[i];
    forall s | s in Named(items) ensures s in Named(all) {
      var i :| 0 <= i < |items| && items[i].signature == Some(s);
      assert all[i].signature == Some(s);
    }
  }

  /** `new Map(items.map((item) => [item.signature, item])).get(s)`: the last entry for a signature. */
  function DispositionOf(items: seq<Item>, s: Signature): Option<Item> {
    if items == [] then None
    else if items[|items| - 1].signature == Some(s) then Some(items[|items| - 1])
    else DispositionOf(items[..|items| - 1], s)
  }

  // ---------- the verdict ----------

  predicate IsNew(f: Finding, baseline: seq<Finding>) {
    f.signature !in Signatures(baseline)
  }

  /** A known finding whose disposition says it should be gone. */
  predicate Reappeared(f: Finding, baseline: seq<Finding>, items: seq<Item>) {
    !IsNew(f, baseline) && DispositionOf(items, f.signature).Some? &&
    DispositionOf(items, f.signature).value.status !in ACTIVE_STATUSES
  }

  /** The last entry for the signature has this status. */
  ghost predicate LastFor(items: seq<Item>, s: Signature, status: string) {
    exists i :: 0 <= i < |items| && items[i].signature == Some(s) && items[i].status == status &&
                forall j :: i < j < |items| ==> items[j].signature != Some(s)
  }

  /** The baseline knows the finding, and the last entry for it does not let it stand. */
  ghost predicate Unexpected(f: Finding, baseline: seq<Finding>, items: seq<Item>) {
    f.signature in Signatures(baseline) &&
    exists status :: LastFor(items, f.signature, status) &&
      status !in {"accepted_risk", "deferred", "false_positive", "not_applicable"}
  }

  lemma {:induction false} DispositionIsLast(items: seq<Item>, s: Signature)
    ensures forall status :: LastFor(items, s, status) <==>
              DispositionOf(items, s).Some? && DispositionOf(items, s).value.status == status
  {
    if items != [] {
      var front, last := items[..|items| - 1], items[|items| - 1];
      DispositionIsLast(front, s);
      forall status ensures LastFor(items, s, status) <==>
                            if last.signature == Some(s) then last.status == status else LastFor(front, s, status)
      {
        LastForSnoc(front, last, s, status);
        Snoc(items);
      }
    }
  }

  lemma LastForSnoc(front: seq<Item>, last: Item, s: Signature, status: string)
    ensures LastFor(front + [last], s, status) <==>
            if last.signature == Some(s) then last.status == status else LastFor(front, s, status)
  {
    var items := front + [last];
    assert items[|front|] == last;
    if LastFor(front, s, status) && last.signature != Some(s) {
      var i :| 0 <= i < |front| && front[i].signature == Some(s) && front[i].status == status &&
               forall j :: i < j < |front| ==> front[j].signature != Some(s);
      assert items[i] == front[i];
    }
    if LastFor(items, s, status) {
      var i :| 0 <= i < |items| && items[i].signature == Some(s) && items[i].status == status &&
               forall j :: i < j < |items| ==> items[j].signature != Some(s);
      if i < |front| {
        assert items[|front|].signature != Some(s);
        assert front[i] == items[i];
        assert forall j :: i < j < |front| ==> front[j] == items[j];
      }
    }
  }

  lemma ReappearedIffUnexpected(f: Finding, baseline: seq<Finding>, items: seq<Item>)
    ensures Reappeared(f, baseline, items) <==> Unexpected(f, baseline, items)
  {
    DispositionIsLast(items, f.signature);
    if Reappeared(f, baseline, items) {
      assert LastFor(items, f.signature, DispositionOf(items, f.signature).value.status);
    }
  }

  /** Good dispositions for the whole baseline, nothing new that blocks, nothing back that was closed. */
  ghost predicate Passes(current: seq<Finding>, baseline: seq<Finding>, items: seq<Item>, blocking: set<string>) {
    && WellDisposed(items, Signatures(baseline))
    && Signatures(baseline) <= Named(items)
    && (forall i :: 0 <= i < |current| ==> !(IsNew(current[i], baseline) && current[i].severity in blocking))
    && (forall i :: 0 <= i < |current| ==> !Unexpected(current[i], baseline, items))
  }

  predicate NewAndBlocking(f: Finding, baseline: seq<Finding>, blocking: set<string>) {
    IsNew(f, baseline) && f.severity in blocking
  }

  /** What each failure says is the case. */
  ghost predicate Justified(x: Failure, current: seq<Finding>, baseline: seq<Finding>, items: seq<Item>,
                            blocking: set<string>) {
    match x
    case InvalidDisposition(issue) => RaisedBefore(items, |items|, Signatures(baseline), issue)
    case MissingDisposition(s) => s in Signatures(baseline) && s !in Named(items)
    case NewBlocking(f) => f in current && NewAndBlocking(f, baseline, blocking)
    case InvalidActive(f, status) =>
      f in current && Unexpected(f, baseline, items) && LastFor(items, f.signature, status)
  }

  ghost predicate AllJustified(failures: seq<Failure>, current: seq<Finding>, baseline: seq<Finding>, items: seq<Item>,
                               blocking: set<string>) {
    forall x :: x in failures <==> Justified(x, current, baseline, items, blocking)
  }

  /** What one finding of the current scan adds. */
  function FindingFailures(f: Finding, baseline: seq<Finding>, items: seq<Item>, blocking: set<string>): seq<Failure> {
    if NewAndBlocking(f, baseline, blocking) then [NewBlocking(f)]
    else if Reappeared(f, baseline, items) then [InvalidActive(f, DispositionOf(items, f.signature).value.status)]
    else []
  }

  function FindingsFailures(current: seq<Finding>, baseline: seq<Finding>, items: seq<Item>, blocking: set<string>)
    : seq<Failure>
  {
    if current == [] then []
    else
      FindingsFailures(current[..|current| - 1], baseline, items, blocking) +
      FindingFailures(current[|current| - 1], baseline, items, blocking)
  }

  function Invalid(issues: seq<Issue>): seq<Failure> {
    seq(|issues|, i requires 0 <= i < |issues| => InvalidDisposition(issues[i]))
  }

  function Missing(signatures: seq<Signature>): seq<Failure> {
    seq(|signatures|, i requires 0 <= i < |signatures| => MissingDisposition(signatures[i]))
  }

  /** The failures in the order of the summary. */
  function AllFailures(current: seq<Finding>, baseline: seq<Finding>, items: seq<Item>,
                       blocking: set<string>): seq<Failure> {
    Invalid(AllIssues(items, |items|, Signatures(baseline))) + Missing(Listed(Without(baseline, Named(items)))) +
    FindingsFailures(current, baseline, items, blocking)
  }

  lemma {:induction false} FindingsFailuresAre(current: seq<Finding>, baseline: seq<Finding>, items: seq<Item>,
                                               blocking: set<string>)
    ensures forall x :: x in FindingsFailures(current, baseline, items, blocking) <==>
              (x.NewBlocking? || x.InvalidActive?) && Justified(x, current, baseline, items, blocking)
  {
    if current != [] {
      FindingsFailuresAre(current[..|current| - 1], baseline, items, blocking);
      FindingFailuresAre(current[|current| - 1], baseline, items, blocking);
      Snoc(current);
    }
  }

  lemma FindingFailuresAre(f: Finding, baseline: seq<Finding>, items: seq<Item>, blocking: set<string>)
    ensures forall x :: x in FindingFailures(f, baseline, items, blocking) <==>
              (x.NewBlocking? || x.InvalidActive?) && Justified(x, [f], baseline, items, blocking)
  {
    ReappearedIffUnexpected(f, baseline, items);
    DispositionIsLast(items, f.signature);
  }

  lemma InvalidAre(issues: seq<Issue>)
    ensures forall x :: x in Invalid(issues) <==> x.InvalidDisposition? && x.issue in issues
  {
    forall issue | issue in issues ensures InvalidDisposition(issue) in Invalid(issues) {
      var i :| 0 <= i < |issues| && issues[i] == issue;
      assert Invalid(issues)[i] == InvalidDisposition(issue);
    }
  }

  lemma MissingAre(signatures: seq<Signature>)
    ensures forall x :: x in Missing(signatures) <==> x.MissingDisposition? && x.s in signatures
  {
    forall s | s in signatures ensures MissingDisposition(s) in Missing(signatures) {
      var i :| 0 <= i < |signatures| && signatures[i] == s;
      assert Missing(signatures)[i] == MissingDisposition(s);
    }
  }

  lemma {:induction false} ListedAre(findings: seq<Finding>, known: set<Signature>)
    ensures forall s :: s in Listed(Without(findings, known)) <==> s in Signatures(findings) && s !in known
  {
    if findings != [] {
      var front, last := findings[..|findings| - 1], findings[|findings| - 1];
      ListedAre(front, known);
      Snoc(findings);
    }
  }

  /** Every failure of the summary is justified, and every justified failure is in it. */
  lemma FailuresJustified(current: seq<Finding>, baseline: seq<Finding>, items: seq<Item>, blocking: set<string>)
    ensures AllJustified(AllFailures(current, baseline, items, blocking), current, baseline, items, blocking)
  {
    var issues, missing := AllIssues(items, |items|, Signatures(baseline)), Listed(Without(baseline, Named(items)));
    AllIssuesAre(items, |items|, Signatures(baseline));
    InvalidAre(issues);
    MissingAre(missing);
    ListedAre(baseline, Named(items));
    FindingsFailuresAre(current, baseline, items, blocking);
  }

  /** The gate passes iff no failure is justified. */
  lemma PassesIffUnjustified(current: seq<Finding>, baseline: seq<Finding>, items: seq<Item>, blocking: set<string>)
    ensures Passes(current, baseline, items, blocking) <==>
            forall x :: !Justified(x, current, baseline, items, blocking)
  {
    var issues := AllIssues(items, |items|, Signatures(baseline));
    AllIssuesAre(items, |items|, Signatures(baseline));
    NoIssuesIff(items, Signatures(baseline));
    assert issues == [] || issues[0] in issues;
    if !Passes(current, baseline, items, blocking) {
      if issues != [] {
        assert Justified(InvalidDisposition(issues[0]), current, baseline, items, blocking);
      } else if !(Signatures(baseline) <= Named(items)) {
        var s :| s in Signatures(baseline) && s !in Named(items);
        assert Justified(MissingDisposition(s), current, baseline, items, blocking);
      } else {
        var i :| 0 <= i < |current| &&
                 (NewAndBlocking(current[i], baseline, blocking) || Unexpected(current[i], baseline, items));
        FindingJustifies(current, i, baseline, items, blocking);
      }
    } else {
      forall x ensures !Justified(x, current, baseline, items, blocking) {
        PassingJustifiesNothing(x, current, baseline, items, blocking);
      }
    }
  }

  lemma FindingJustifies(current: seq<Finding>, i: nat, baseline: seq<Finding>, items: seq<Item>, blocking: set<string>)
    requires i < |current| &&
             (NewAndBlocking(current[i], baseline, blocking) || Unexpected(current[i], baseline, items))
    ensures exists x :: Justified(x, current, baseline, items, blocking)
  {
    var f := current[i];
    if NewAndBlocking(f, baseline, blocking) {
      assert Justified(NewBlocking(f), current, baseline, items, blocking);
    } else {
      var status :| LastFor(items, f.signature, status) &&
                    status !in {"accepted_risk", "deferred", "false_positive", "not_applicable"};
      assert Justified(InvalidActive(f, status), current, baseline, items, blocking);
    }
  }

  lemma PassingJustifiesNothing(x: Failure, current: seq<Finding>, baseline: seq<Finding>, items: seq<Item>,
                                blocking: set<string>)
    requires Passes(current, baseline, items, blocking)
    ensures !Justified(x, current, baseline, items, blocking)
  {
    AllIssuesAre(items, |items|, Signatures(baseline));
    NoIssuesIff(items, Signatures(baseline));
  }

  /** The findings of a list whose severity does not block. */
  function Unblocked(findings: seq<Finding>, blocking: set<string>): seq<Finding> {
    if findings == [] then []
    else
      var earlier, last := Unblocked(findings[..|findings| - 1], blocking), findings[|findings| - 1];
      if last.severity in blocking then earlier else earlier + [last]
  }

  function BlockingPlaces(current: seq<Finding>, baseline: seq<Finding>, blocking: set<string>): set<nat> {
    set i: nat | i < |current| && NewAndBlocking(current[i], baseline, blocking)
  }

  lemma BlockingPlacesNext(current: seq<Finding>, i: nat, baseline: seq<Finding>, blocking: set<string>)
    requires i < |current|
    ensures |BlockingPlaces(current[..i + 1], baseline, blocking)| ==
            |BlockingPlaces(current[..i], baseline, blocking)| + if NewAndBlocking(current[i], baseline, blocking)
                then 1 else 0
  {
    var before := BlockingPlaces(current[..i], baseline, blocking);
    assert BlockingPlaces(current[..i + 1], baseline, blocking) ==
           before + if NewAndBlocking(current[i], baseline, blocking) then {i} else {};
  }

  /** One more finding of the current scan. */
  lemma NextFinding(current: seq<Finding>, i: nat, baseline: seq<Finding>, items: seq<Item>, blocking: set<string>)
    requires i < |current|
    ensures FindingsFailures(current[..i + 1], baseline, items, blocking) ==
            FindingsFailures(current[..i], baseline, items, blocking) +
                FindingFailures(current[i], baseline, items, blocking)
    ensures var known := Signatures(baseline);
            Unblocked(Without(current[..i + 1], known), blocking) ==
            if IsNew(current[i], baseline) && current[i].severity !in blocking
            then Unblocked(Without(current[..i], known), blocking) + [current[i]]
            else Unblocked(Without(current[..i], known), blocking)
  {
    assert current[..i + 1][..i] == current[..i];
  }

  /** The loop over the current scan. */
  method EvaluateFindings(current: seq<Finding>, baseline: seq<Finding>, items: seq<Item>, blocking: set<string>)
    returns (failures: seq<Failure>, warnings: seq<Finding>, blockingCount: nat)
    ensures failures == FindingsFailures(current, baseline, items, blocking)
    ensures warnings == Unblocked(Without(current, Signatures(baseline)), blocking)
    ensures blockingCount == |BlockingPlaces(current, baseline, blocking)|
  {
    failures, warnings, blockingCount := [], [], 0;
    assert BlockingPlaces([], baseline, blocking) == {};
    for i := 0 to |current|
      invariant failures == FindingsFailures(current[..i], baseline, items, blocking)
      invariant warnings == Unblocked(Without(current[..i], Signatures(baseline)), blocking)
      invariant blockingCount == |BlockingPlaces(current[..i], baseline, blocking)|
    {
      var finding := current[i];
      NextFinding(current, i, baseline, items, blocking);
      BlockingPlacesNext(current, i, baseline, blocking);
      if IsNew(finding, baseline) {
        if finding.severity in blocking {
          failures := failures + [NewBlocking(finding)];
          blockingCount := blockingCount + 1;
        } else {
          warnings := warnings + [finding];
        }
      } else {
        var disposition := DispositionOf(items, finding.signature);
        if disposition.Some? && disposition.value.status !in ACTIVE_STATUSES {
          failures := failures + [InvalidActive(finding, disposition.value.status)];
        }
      }
    }
    TakeAll(current);
  }

  method Evaluate(current: seq<Finding>, baseline: seq<Finding>, items: seq<Item>, blocking: set<string>)
    returns (summary: Summary)
    ensures summary.failures == AllFailures(current, baseline, items, blocking)
    ensures summary.failures == [] <==> Passes(current, baseline, items, blocking)
    ensures summary.warnings == Unblocked(Without(current, Signatures(baseline)), blocking)
    ensures summary.newBlocking == |BlockingPlaces(current, baseline, blocking)|
    ensures summary.newNonBlocking == |summary.warnings|
    ensures summary.resolved == |Without(baseline, Signatures(current))|
  {
    var issues, missing := ValidateDispositions(baseline, items);
    var found, warnings, blockingCount := EvaluateFindings(current, baseline, items, blocking);
    var failures := Invalid(issues) + Missing(missing) + found;
    FailuresJustified(current, baseline, items, blocking);
    PassesIffUnjustified(current, baseline, items, blocking);
    assert failures == [] || failures[0] in failures;
    summary := Summary(failures, warnings, blockingCount, |warnings|, |Without(baseline, Signatures(current))|);
  }

  /** Blocking and other new findings together are all the new ones. */
  lemma {:induction false} NewFindingsSplit(current: seq<Finding>, baseline: seq<Finding>, blocking: set<string>)
    ensures |BlockingPlaces(current, baseline, blocking)| +
            |Unblocked(Without(current, Signatures(baseline)), blocking)| ==
            |Without(current, Signatures(baseline))|
  {
    if current == [] {
      assert BlockingPlaces(current, baseline, blocking) == {};
    } else {
      var n := |current| - 1;
      NewFindingsSplit(current[..n], baseline, blocking);
      BlockingPlacesNext(current, n, baseline, blocking);
      TakeAll(current);
    }
  }

  // ---------- the order of the lists ----------

  function IssueRank(issue: Issue): nat {
    match issue
    case NoSignature => 0
    case Duplicate(_) => 0
    case NotInBaseline(_) => 1
    case BadStatus(_) => 2
    case NoRationale(_) => 3
    case NoOwner(_) => 4
    case NoReviewBy(_) => 5
  }

  /** By rising rank, all below `r`. */
  ghost predicate Ranked(issues: seq<Issue>, r: nat) {
    (forall i :: 0 <= i < |issues| ==> IssueRank(issues[i]) < r) &&
    forall i, j :: 0 <= i < j < |issues| ==> IssueRank(issues[i]) < IssueRank(issues[j])
  }

  lemma RankedNext(issues: seq<Issue>, r: nat, good: bool, issue: Issue)
    requires Ranked(issues, r) && IssueRank(issue) == r
    ensures Ranked(issues + Unless(good, issue), r + 1)
  {
  }

  lemma FieldIssuesRanked(item: Item, s: Signature, known: set<Signature>)
    ensures Ranked(FieldIssues(item, s, known), 6)
  {
    var a := Unless(s in known, NotInBaseline(s));
    var b := a + Unless(item.status in VALID_STATUSES, BadStatus(s));
    var c := b + Unless(item.rationale != "", NoRationale(s));
    var d := c + Unless(item.owner != "", NoOwner(s));
    RankedNext(a, 2, item.status in VALID_STATUSES, BadStatus(s));
    RankedNext(b, 3, item.rationale != "", NoRationale(s));
    RankedNext(c, 4, item.owner != "", NoOwner(s));
    RankedNext(d, 5, item.reviewBy != "", NoReviewBy(s));
  }

  /** An entry's issues come after those of the entries before it: baseline, status, rationale, owner, review date. */
  lemma IssuesInOrder(items: seq<Item>, n: nat, known: set<Signature>) returns (own: seq<Issue>)
    requires 0 < n <= |items|
    ensures AllIssues(items, n, known) == AllIssues(items, n - 1, known) + own
    ensures Exactly(own, items, n - 1, known)
    ensures forall i, j :: 0 <= i < j < |own| ==> IssueRank(own[i]) < IssueRank(own[j])
  {
    own := EntryIssues(items, n - 1, known);
    EntryIssuesRanked(items, n - 1, known);
    EntryIssuesRaised(items, n - 1, known);
  }

  lemma EntryIssuesRanked(items: seq<Item>, i: nat, known: set<Signature>)
    requires i < |items|
    ensures Ranked(EntryIssues(items, i, known), 6)
  {
    if items[i].signature.Some? {
      FieldIssuesRanked(items[i], items[i].signature.value, known);
    }
  }

  function FailureRank(x: Failure): nat {
    match x
    case InvalidDisposition(_) => 0
    case MissingDisposition(_) => 1
    case NewBlocking(_) => 2
    case InvalidActive(_, _) => 2
  }

  /** Issues come first, then what is missing, then the findings. */
  lemma FailuresInOrder(current: seq<Finding>, baseline: seq<Finding>, items: seq<Item>, blocking: set<string>)
    ensures var failures := AllFailures(current, baseline, items, blocking);
            forall i, j :: 0 <= i < j < |failures| ==> FailureRank(failures[i]) <= FailureRank(failures[j])
  {
    var found := FindingsFailures(current, baseline, items, blocking);
    FindingsFailuresAre(current, baseline, items, blocking);
    assert forall i :: 0 <= i < |found| ==> found[i] in found;
  }

  /** The findings' failures come in the order of the findings. */
  lemma {:induction false} FoundInOrder(a: seq<Finding>, b: seq<Finding>, baseline: seq<Finding>, items: seq<Item>,
                                        blocking: set<string>)
    ensures FindingsFailures(a + b, baseline, items, blocking) ==
            FindingsFailures(a, baseline, items, blocking) + FindingsFailures(b, baseline, items, blocking)
  {
    if b == [] {
      assert a + b == a;
    } else {
      var n := |b| - 1;
      FoundInOrder(a, b[..n], baseline, items, blocking);
      assert (a + b)[..|a + b| - 1] == a + b[..n];
      Assoc(FindingsFailures(a, baseline, items, blocking), FindingsFailures(b[..n], baseline, items, blocking),
            FindingFailures(b[n], baseline, items, blocking));
    }
  }

  /** So do new findings, warnings and signatures. */
  lemma {:induction false} NewInOrder(a: seq<Finding>, b: seq<Finding>, known: set<Signature>)
    ensures Without(a + b, known) == Without(a, known) + Without(b, known)
  {
    if b == [] {
      assert a + b == a;
    } else {
      NewInOrder(a, b[..|b| - 1], known);
      assert (a + b)[..|a + b| - 1] == a + b[..|b| - 1];
    }
  }

  lemma {:induction false} WarningsInOrder(a: seq<Finding>, b: seq<Finding>, blocking: set<string>)
    ensures Unblocked(a + b, blocking) == Unblocked(a, blocking) + Unblocked(b, blocking)
  {
    if b == [] {
      assert a + b == a;
    } else {
      WarningsInOrder(a, b[..|b| - 1], blocking);
      assert (a + b)[..|a + b| - 1] == a + b[..|b| - 1];
    }
  }

  lemma {:induction false} SignaturesInOrder(a: seq<Finding>, b: seq<Finding>)
    ensures Listed(a + b) == Listed(a) + Listed(b)
  {
    if b == [] {
      assert a + b == a;
    } else {
      SignaturesInOrder(a, b[..|b| - 1]);
      assert (a + b)[..|a + b| - 1] == a + b[..|b| - 1];
    }
  }

  // ---------- the numbers of the summary ----------

  lemma {:induction false} WithoutCount(findings: seq<Finding>, known: set<Signature>, f: Finding)
    ensures multiset(Without(findings, known))[f] == if f.signature in known then 0 else multiset(findings)[f]
  {
    if findings != [] {
      var n := |findings| - 1;
      WithoutCount(findings[..n], known, f);
      assert findings == findings[..n] + [findings[n]];
    }
  }

  lemma WithoutPermuted(a: seq<Finding>, b: seq<Finding>, known: set<Signature>)
    requires multiset(a) == multiset(b)
    ensures |Without(a, known)| == |Without(b, known)|
  {
    forall f ensures multiset(Without(a, known))[f] == multiset(Without(b, known))[f] {
      WithoutCount(a, known, f);
      WithoutCount(b, known, f);
    }
    assert multiset(Without(a, known)) == multiset(Without(b, known));
    assert |multiset(Without(a, known))| == |Without(a, known)|;
  }

  lemma SameSignatures(a: seq<Finding>, b: seq<Finding>)
    requires multiset(a) == multiset(b)
    ensures Signatures(a) == Signatures(b)
  {
    assert forall f :: f in a <==> f in multiset(a);
    assert forall f :: f in b <==> f in multiset(b);
  }

  /**
    The gate's counts are multiset arithmetic: of two scans collected with any sorts, new findings number the seeds the
    current scan has more of, resolved ones those it has fewer of, and what is left balances.
   */
  lemma GateCounts(current: seq<Raw>, baseline: seq<Raw>, sortRaw: seq<Raw> -> seq<Raw>,
                   sortFindings: seq<Finding> -> seq<Finding>)
    requires Permutes(sortRaw) && Permutes(sortFindings)
    ensures var cs, bs := Collected(current, sortRaw, sortFindings), Collected(baseline, sortRaw, sortFindings);
            |Without(cs, Signatures(bs))| == |Seeds(current) - Seeds(baseline)| &&
            |Without(bs, Signatures(cs))| == |Seeds(baseline) - Seeds(current)| &&
            |cs| - |Without(cs, Signatures(bs))| == |bs| - |Without(bs, Signatures(cs))|
  {
    var cs, bs := Collected(current, sortRaw, sortFindings), Collected(baseline, sortRaw, sortFindings);
    var c, b := sortRaw(current), sortRaw(baseline);
    CollectedSignatures(current, sortRaw, sortFindings);
    CollectedSignatures(baseline, sortRaw, sortFindings);
    SameSignatures(cs, Numbered(c));
    SameSignatures(bs, Numbered(b));
    WithoutPermuted(cs, Numbered(c), Signatures(bs));
    WithoutPermuted(bs, Numbered(b), Signatures(cs));
    NewFindings(c, b);
    NewFindings(b, c);
    SumPermuted(c, current, OwnSeed);
    SumPermuted(b, baseline, OwnSeed);
    KeptBalance(c, b);
    assert |c| == |multiset(c)| == |multiset(current)| == |current|;
    assert |b| == |multiset(b)| == |multiset(baseline)| == |baseline|;
  }

  /** The last finding of a seed with more results than in the baseline is new. */
  lemma SurplusIsNew(current: seq<Raw>, baseline: seq<Raw>, sortRaw: seq<Raw> -> seq<Raw>,
                     sortFindings: seq<Finding> -> seq<Finding>, seed: Seed) returns (f: Finding)
    requires Permutes(sortRaw) && Permutes(sortFindings) && Count(current, seed) > Count(baseline, seed)
    ensures f in Collected(current, sortRaw, sortFindings) && f.signature.seed == seed
    ensures IsNew(f, Collected(baseline, sortRaw, sortFindings))
  {
    CollectedSignatures(current, sortRaw, sortFindings);
    CollectedSignatures(baseline, sortRaw, sortFindings);
    var cs := Collected(current, sortRaw, sortFindings);
    assert Signature(seed, Count(current, seed)) in Signatures(cs);
    f :| f in cs && f.signature == Signature(seed, Count(current, seed));
  }

  /** A seed whose results all block, with more of them than the baseline has, fails the gate. */
  lemma SurplusBlocks(current: seq<Raw>, baseline: seq<Raw>, items: seq<Item>, blocking: set<string>,
                      sortRaw: seq<Raw> -> seq<Raw>, sortFindings: seq<Finding> -> seq<Finding>, seed: Seed)
    requires Permutes(sortRaw) && Permutes(sortFindings) && Count(current, seed) > Count(baseline, seed)
    requires forall r :: r in current && r.seed == seed ==> r.severity in blocking
    ensures exists f: Finding :: f.signature.seed == seed && f.severity in blocking &&
              NewBlocking(f) in AllFailures(Collected(current, sortRaw, sortFindings),
                                            Collected(baseline, sortRaw, sortFindings), items, blocking)
  {
    var cs, bs := Collected(current, sortRaw, sortFindings), Collected(baseline, sortRaw, sortFindings);
    var f := SurplusIsNew(current, baseline, sortRaw, sortFindings, seed);
    FindingIsResult(current, sortRaw, sortFindings, f);
    assert Raw(f.signature.seed, f.severity, f.rest).severity in blocking;
    FailuresJustified(cs, bs, items, blocking);
    assert Justified(NewBlocking(f), cs, bs, items, blocking);
  }

  /** A new blocking finding is a result of the current scan that blocks, of a seed with more results than before. */
  lemma BlockingIsSurplus(current: seq<Raw>, baseline: seq<Raw>, items: seq<Item>, blocking: set<string>,
                          sortRaw: seq<Raw> -> seq<Raw>, sortFindings: seq<Finding> -> seq<Finding>, f: Finding)
    requires Permutes(sortRaw) && Permutes(sortFindings)
    requires NewBlocking(f) in AllFailures(Collected(current, sortRaw, sortFindings),
                                           Collected(baseline, sortRaw, sortFindings), items, blocking)
    ensures Raw(f.signature.seed, f.severity, f.rest) in current && f.severity in blocking
    ensures Count(current, f.signature.seed) > Count(baseline, f.signature.seed)
  {
    var cs, bs := Collected(current, sortRaw, sortFindings), Collected(baseline, sortRaw, sortFindings);
    FailuresJustified(cs, bs, items, blocking);
    assert Justified(NewBlocking(f), cs, bs, items, blocking);
    FindingIsResult(current, sortRaw, sortFindings, f);
    CollectedSignatures(current, sortRaw, sortFindings);
    CollectedSignatures(baseline, sortRaw, sortFindings);
    assert f.signature in Signatures(cs);
  }

  /**
    On raw scans, where all results of a seed block or none does: there is a new blocking finding iff a blocking
    result's seed has more results than in the baseline, whatever the order of results and ties.
   */
  lemma NewBlockingIff(current: seq<Raw>, baseline: seq<Raw>, items: seq<Item>, blocking: set<string>,
                       sortRaw: seq<Raw> -> seq<Raw>, sortFindings: seq<Finding> -> seq<Finding>)
    requires Permutes(sortRaw) && Permutes(sortFindings)
    requires forall a, b :: a in current && b in current && a.seed == b.seed ==>
               (a.severity in blocking <==> b.severity in blocking)
    ensures (exists f ::
               NewBlocking(f) in AllFailures(Collected(current, sortRaw, sortFindings),
                                             Collected(baseline, sortRaw, sortFindings), items, blocking)) <==>
            exists r :: r in current && r.severity in blocking && Count(current, r.seed) > Count(baseline, r.seed)
  {
    var failures := AllFailures(Collected(current, sortRaw, sortFindings),
                                Collected(baseline, sortRaw, sortFindings), items, blocking);
    if f :| NewBlocking(f) in failures {
      BlockingIsSurplus(current, baseline, items, blocking, sortRaw, sortFindings, f);
      assert Raw(f.signature.seed, f.severity, f.rest) in current;
    }
    if r :| r in current && r.severity in blocking && Count(current, r.seed) > Count(baseline, r.seed) {
      SurplusBlocks(current, baseline, items, blocking, sortRaw, sortFindings, r.seed);
    }
  }

  // ---------- the disposition template ----------

  /** createDispositionTemplate: one entry per baseline finding, keeping what an existing entry for it says. */
  function Template(baseline: seq<Finding>, existing: seq<Item>, scaffold: Item): (r: seq<Item>)
    ensures |r| == |baseline|
  {
    seq(|baseline|, i requires 0 <= i < |baseline| =>
      var kept := DispositionOf(existing, baseline[i].signature);
      (if kept.Some? then kept.value else scaffold).(signature := Some(baseline[i].signature)))
  }

  /** A template leaves no finding without an entry, and its only possible issues are unfilled fields. */
  lemma TemplateCovers(baseline: seq<Finding>, existing: seq<Item>, scaffold: Item)
    requires forall i, j :: 0 <= i < j < |baseline| ==> baseline[i].signature != baseline[j].signature
    ensures var t := Template(baseline, existing, scaffold);
            Named(t) == Signatures(baseline) &&
            (WellDisposed(t, Signatures(baseline)) <==> forall i :: 0 <= i < |t| ==> FieldsValid(t[i]))
  {
    var t := Template(baseline, existing, scaffold);
    forall s ensures s in Named(t) <==> s in Signatures(baseline) {
      if s in Signatures(baseline) {
        var i :| 0 <= i < |baseline| && baseline[i].signature == s;
        assert t[i].signature == Some(s);
      }
      if s in Named(t) {
        var i :| 0 <= i < |t| && t[i].signature == Some(s);
        assert baseline[i] in baseline;
      }
    }
    forall i | 0 <= i < |t| ensures t[i].signature.Some? && t[i].signature.value in Signatures(baseline) {
      assert baseline[i] in baseline;
    }
  }

  /** An entry of the template says what the last existing entry for its finding says, or what the scaffold says. */
  lemma TemplateKeeps(baseline: seq<Finding>, existing: seq<Item>, scaffold: Item, i: nat)
    requires i < |baseline|
    ensures var item := Template(baseline, existing, scaffold)[i];
            item.signature == Some(baseline[i].signature) &&
            (forall k :: 0 <= k < |existing| && existing[k].signature == Some(baseline[i].signature) &&
                         (forall j :: k < j < |existing| ==> existing[j].signature != existing[k].signature) ==>
               item == existing[k]) &&
            ((forall k :: 0 <= k < |existing| ==> existing[k].signature != Some(baseline[i].signature)) ==>
               item.status == scaffold.status && item.rationale == scaffold.rationale &&
               item.owner == scaffold.owner && item.reviewBy == scaffold.reviewBy)
  {
    LastEntry(existing, baseline[i].signature);
  }

  lemma {:induction false} LastEntry(items: seq<Item>, s: Signature)
    ensures DispositionOf(items, s).None? <==> forall k :: 0 <= k < |items| ==> items[k].signature != Some(s)
    ensures forall k :: 0 <= k < |items| && items[k].signature == Some(s) &&
                        (forall j :: k < j < |items| ==> items[j].signature != items[k].signature) ==>
              DispositionOf(items, s) == Some(items[k])
  {
    if items != [] {
      var n := |items| - 1;
      LastEntry(items[..n], s);
      Snoc(items);
      forall k | 0 <= k < |items| && items[k].signature == Some(s) &&
                 (forall j :: k < j < |items| ==> items[j].signature != items[k].signature)
        ensures DispositionOf(items, s) == Some(items[k])
      {
        if k < n {
          assert items[n].signature != items[k].signature;
          assert items[..n][k] == items[k] && forall j :: k < j < n ==> items[..n][j] == items[j];
        }
      }
    }
  }
}
