/**
  The Semgrep gate (tools/semgrep-sast.js).  Repeated findings are numbered so that comparing sets of signatures
  compares multisets of findings.  sha256 and JSON.stringify are taken as injective: a seed and a signature are their
  contents.
 */
module Semgrep {
  import opened Prelude
  import opened Sums
  import opened Sequences

  /** What buildFindingKeySeed serialises, with the snippet's white space already squashed. */
  datatype Seed = Seed(checkId: string, path: string, fingerprint: Option<string>, snippet: string)

  /** One result of a scan; `rest` stands for positions, message and metadata. */
  datatype Raw = Raw(seed: Seed, severity: string, rest: string)

  datatype Signature = Signature(seed: Seed, occurrence: nat)

  datatype Finding = Finding(signature: Signature, severity: string, rest: string)

  // ---------- numbering ----------

  function Count(results: seq<Raw>, seed: Seed): nat {
    if results == [] then 0
    else Count(results[..|results| - 1], seed) + if results[|results| - 1].seed == seed then 1 else 0
  }

  /** The findings of a sorted scan: each result carries how often its seed has come up. */
  function Numbered(results: seq<Raw>): (r: seq<Finding>)
    ensures |r| == |results|
  {
    if results == [] then []
    else
      var earlier, last := results[..|results| - 1], results[|results| - 1];
      Numbered(earlier) + [Finding(Signature(last.seed, Count(earlier, last.seed) + 1), last.severity, last.rest)]
  }

  function CountIn(seen: map<Seed, nat>, seed: Seed): nat {
    if seed in seen then seen[seed] else 0
  }

  lemma {:induction false} CountIsSize(results: seq<Raw>, seed: Seed)
    ensures Count(results, seed) == |set k | 0 <= k < |results| && results[k].seed == seed|
  {
    if results != [] {
      CountIsSize(results[..|results| - 1], seed);
      PlacesNext(results, seed);
    }
  }

  lemma PlacesNext(results: seq<Raw>, seed: Seed)
    requires results != []
    ensures var n := |results| - 1;
            |set k | 0 <= k < |results| && results[k].seed == seed| ==
            |set k | 0 <= k < n && results[..n][k].seed == seed| + if results[n].seed == seed then 1 else 0
  {
    var n := |results| - 1;
    var earlier := set k | 0 <= k < n && results[..n][k].seed == seed;
    assert (set k | 0 <= k < |results| && results[k].seed == seed) ==
           earlier + if results[n].seed == seed then {n} else {};
  }

  /** Result by result: the seed with its number among its likes so far, the severity and all other data unchanged. */
  ghost predicate NumbersInOrder(findings: seq<Finding>, sorted: seq<Raw>) {
    |findings| == |sorted| &&
    forall i :: 0 <= i < |sorted| ==>
      findings[i].signature.seed == sorted[i].seed && findings[i].severity == sorted[i].severity &&
      findings[i].rest == sorted[i].rest &&
      findings[i].signature.occurrence == |set k | 0 <= k <= i && sorted[k].seed == sorted[i].seed|
  }

  lemma {:induction false} NumberedAt(results: seq<Raw>)
    ensures NumbersInOrder(Numbered(results), results)
  {
    if results != [] {
      var n := |results| - 1;
      NumberedAt(results[..n]);
      CountIsSize(results, results[n].seed);
      assert (set k | 0 <= k <= n && results[k].seed == results[n].seed) ==
             set k | 0 <= k < |results| && results[k].seed == results[n].seed;
      forall i | 0 <= i < n
        ensures (set k | 0 <= k <= i && results[k].seed == results[i].seed) ==
                (set k | 0 <= k <= i && results[..n][k].seed == results[..n][i].seed)
      {
      }
    }
  }

  /** assignFindingKeys after the sort: one pass with a counter per base key. */
  method AssignFindingKeys(sorted: seq<Raw>) returns (findings: seq<Finding>)
    ensures findings == Numbered(sorted) && NumbersInOrder(findings, sorted)
  {
    var seenBaseKeys: map<Seed, nat> := map[];
    findings := [];
    for i := 0 to |sorted|
      invariant findings == Numbered(sorted[..i])
      invariant forall seed :: CountIn(seenBaseKeys, seed) == Count(sorted[..i], seed)
    {
      var baseKey := sorted[i].seed;
      var occurrence := CountIn(seenBaseKeys, baseKey) + 1;
      seenBaseKeys := seenBaseKeys[baseKey := occurrence];
      findings := findings + [Finding(Signature(baseKey, occurrence), sorted[i].severity, sorted[i].rest)];
      assert sorted[..i + 1][..i] == sorted[..i];
    }
    assert sorted[..|sorted|] == sorted;
    NumberedAt(sorted);
  }

  function Signatures(findings: seq<Finding>): set<Signature> {
    set f | f in findings :: f.signature
  }

  /** collectSemgrepResults: sort the raw results, number them, sort the findings. */
  function Collected(results: seq<Raw>, sortRaw: seq<Raw> -> seq<Raw>,
                     sortFindings: seq<Finding> -> seq<Finding>): seq<Finding> {
    sortFindings(Numbered(sortRaw(results)))
  }

  lemma CountPermuted(a: seq<Raw>, b: seq<Raw>, seed: Seed)
    requires multiset(a) == multiset(b)
    ensures Count(a, seed) == Count(b, seed)
  {
    SeedsCount(a, seed);
    SeedsCount(b, seed);
    SumPermuted(a, b, OwnSeed);
  }

  function OwnSeed(r: Raw): multiset<Seed> {
    multiset{r.seed}
  }

  /** The seeds of a scan, each as often as it occurs. */
  function Seeds(results: seq<Raw>): multiset<Seed> {
    Sum(results, OwnSeed)
  }

  lemma SeedsCount(results: seq<Raw>, seed: Seed)
    ensures Seeds(results)[seed] == Count(results, seed)
  {
  }

  /** The signatures of a scan are exactly the pairs of a seed and a number up to how often it occurs. */
  lemma {:induction false} SignaturesAre(results: seq<Raw>)
    ensures forall s :: s in Signatures(Numbered(results)) <==> 1 <= s.occurrence <= Count(results, s.seed)
    ensures forall i, j :: 0 <= i < j < |results| ==> Numbered(results)[i].signature != Numbered(results)[j].signature
  {
    if results != [] {
      var n := |results| - 1;
      SignaturesAre(results[..n]);
      var earlier, all := Numbered(results[..n]), Numbered(results);
      assert forall i :: 0 <= i < n ==> all[i].signature in Signatures(earlier);
      assert Signatures(all) == Signatures(earlier) + {all[n].signature};
    }
  }

  /** Whatever the order of the input and the ties of the sorts, a scan has the same signatures. */
  lemma CollectedSignatures(results: seq<Raw>, sortRaw: seq<Raw> -> seq<Raw>,
                            sortFindings: seq<Finding> -> seq<Finding>)
    requires Permutes(sortRaw) && Permutes(sortFindings)
    ensures var fs := Collected(results, sortRaw, sortFindings);
            |fs| == |results| &&
            (forall s :: s in Signatures(fs) <==> 1 <= s.occurrence <= Count(results, s.seed)) &&
            multiset(fs) == multiset(Numbered(sortRaw(results)))
  {
    var sorted := sortRaw(results);
    var numbered := Numbered(sorted);
    var fs := sortFindings(numbered);
    assert multiset(sorted) == multiset(results) && multiset(fs) == multiset(numbered);
    assert |fs| == |multiset(fs)| == |multiset(numbered)| == |numbered|;
    assert |sorted| == |multiset(sorted)| == |multiset(results)| == |results|;
    SignaturesAre(sorted);
    assert Signatures(fs) == Signatures(numbered) by {
      assert forall f :: f in fs <==> f in multiset(fs);
      assert forall f :: f in numbered <==> f in multiset(numbered);
    }
    forall s: Signature ensures Count(sorted, s.seed) == Count(results, s.seed) {
      CountPermuted(sorted, results, s.seed);
    }
  }

  /** A finding without its number. */
  function OwnRaw(f: Finding): multiset<Raw> {
    multiset{Raw(f.signature.seed, f.severity, f.rest)}
  }

  lemma {:induction false} NumberedKeeps(results: seq<Raw>)
    ensures Sum(Numbered(results), OwnRaw) == multiset(results)
  {
    if results != [] {
      NumberedKeeps(results[..|results| - 1]);
      Snoc(results);
    }
  }

  /** Numbering and sorting keep the results: seed, severity and all other data, each as often as it came in. */
  lemma CollectedKeeps(results: seq<Raw>, sortRaw: seq<Raw> -> seq<Raw>, sortFindings: seq<Finding> -> seq<Finding>)
    requires Permutes(sortRaw) && Permutes(sortFindings)
    ensures Sum(Collected(results, sortRaw, sortFindings), OwnRaw) == multiset(results)
  {
    var numbered := Numbered(sortRaw(results));
    assert multiset(sortFindings(numbered)) == multiset(numbered);
    SumPermuted(sortFindings(numbered), numbered, OwnRaw);
    NumberedKeeps(sortRaw(results));
  }

  lemma {:induction false} RawsAreResults(findings: seq<Finding>, f: Finding)
    requires f in findings
    ensures Raw(f.signature.seed, f.severity, f.rest) in Sum(findings, OwnRaw)
  {
    var n := |findings| - 1;
    if f != findings[n] {
      RawsAreResults(findings[..n], f);
    }
  }

  /** Every finding of a scan is one of its results. */
  lemma FindingIsResult(results: seq<Raw>, sortRaw: seq<Raw> -> seq<Raw>, sortFindings: seq<Finding> -> seq<Finding>,
                        f: Finding)
    requires Permutes(sortRaw) && Permutes(sortFindings) && f in Collected(results, sortRaw, sortFindings)
    ensures Raw(f.signature.seed, f.severity, f.rest) in results
  {
    CollectedKeeps(results, sortRaw, sortFindings);
    RawsAreResults(Collected(results, sortRaw, sortFindings), f);
    assert Raw(f.signature.seed, f.severity, f.rest) in multiset(results);
  }

  // ---------- comparing two scans ----------

  function Without(findings: seq<Finding>, known: set<Signature>): seq<Finding> {
    if findings == [] then []
    else
      var earlier, last := Without(findings[..|findings| - 1], known), findings[|findings| - 1];
      if last.signature in known then earlier else earlier + [last]
  }

  lemma MultisetStep(s: multiset<Seed>, b: multiset<Seed>, x: Seed)
    ensures (s + multiset{x}) - b == (s - b) + if s[x] >= b[x] then multiset{x} else multiset{}
  {
  }

  /** Against another scan's signatures, the findings left over number the multiset difference of the seeds. */
  lemma {:induction false} NewFindings(current: seq<Raw>, baseline: seq<Raw>)
    ensures |Without(Numbered(current), Signatures(Numbered(baseline)))| == |Seeds(current) - Seeds(baseline)|
  {
    if current != [] {
      var n, x := |current| - 1, current[|current| - 1];
      NewFindings(current[..n], baseline);
      SignaturesAre(baseline);
      SeedsCount(current[..n], x.seed);
      SeedsCount(baseline, x.seed);
      MultisetStep(Seeds(current[..n]), Seeds(baseline), x.seed);
      assert Numbered(current)[..n] == Numbered(current[..n]);
    }
  }

  function SeedCount(findings: seq<Finding>, seed: Seed): nat {
    if findings == [] then 0
    else SeedCount(findings[..|findings| - 1], seed) + if findings[|findings| - 1].signature.seed == seed then 1 else 0
  }

  /** Seed by seed: as many new findings as the current scan has occurrences beyond the baseline's. */
  lemma {:induction false} NewPerSeed(current: seq<Raw>, baseline: seq<Raw>, seed: Seed)
    ensures SeedCount(Without(Numbered(current), Signatures(Numbered(baseline))), seed) ==
            if Count(current, seed) > Count(baseline, seed) then Count(current, seed) - Count(baseline, seed) else 0
  {
    if current != [] {
      var n, x := |current| - 1, current[|current| - 1];
      NewPerSeed(current[..n], baseline, seed);
      SignaturesAre(baseline);
      var known := Signatures(Numbered(baseline));
      assert Numbered(current)[..n] == Numbered(current[..n]);
      SeedCountSnoc(Without(Numbered(current[..n]), known), Numbered(current)[n], seed);
    }
  }

  lemma SeedCountSnoc(findings: seq<Finding>, f: Finding, seed: Seed)
    ensures SeedCount(findings + [f], seed) == SeedCount(findings, seed) + if f.signature.seed == seed then 1 else 0
  {
    assert (findings + [f])[..|findings|] == findings;
  }

  /** Findings kept: current minus new equals baseline minus resolved. */
  lemma {:induction false} KeptBalance(current: seq<Raw>, baseline: seq<Raw>)
    ensures var added := Without(Numbered(current), Signatures(Numbered(baseline)));
            var resolved := Without(Numbered(baseline), Signatures(Numbered(current)));
            |current| - |added| == |baseline| - |resolved| == |Seeds(current) * Seeds(baseline)|
  {
    NewFindings(current, baseline);
    NewFindings(baseline, current);
    SeedsSize(current);
    SeedsSize(baseline);
    MultisetSplit(Seeds(current), Seeds(baseline));
    MultisetSplit(Seeds(baseline), Seeds(current));
    assert Seeds(current) * Seeds(baseline) == Seeds(baseline) * Seeds(current);
  }

  lemma MultisetSplit(c: multiset<Seed>, b: multiset<Seed>)
    ensures |c| == |c - b| + |c * b|
  {
  }

  lemma {:induction false} SeedsSize(results: seq<Raw>)
    ensures |Seeds(results)| == |results|
  {
    if results != [] { SeedsSize(results[..|results| - 1]); }
  }
}
