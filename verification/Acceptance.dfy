/** Joining the evidence layers of one contract into an acceptance verdict. */
module Acceptance {
  import opened Wrappers

  datatype Verdict = Verified | Failed | Inconclusive
  datatype MappingStatus = CandidateStatus | MappedStatus | ImplementedStatus | VerifiedStatus | InconclusiveStatus

  datatype Finding = Finding(code: string, severity: string, coordinate: string)

  /** `other` stands for the fields that are only compared. */
  datatype Evidence = Evidence(id: string, provenance: seq<string>, producerRole: Option<string>, other: string)

  datatype LayerResult = LayerResult(layer: string, contract: string, verdict: Verdict, evidence: seq<Evidence>,
    findings: seq<Finding>)

  datatype Contract = Contract(id: string, status: MappingStatus, rustCoordinate: string)

  datatype Report = Report(contract: string, verdict: Verdict, layers: map<string, Verdict>, evidence: seq<Evidence>,
    findings: seq<Finding>)

  const REQUIRED: seq<string> := ["structure", "dynamic", "outcome"]

  // What each loop of the evaluator computes.

  function ByLayer(c: Contract, rs: seq<LayerResult>): map<string, LayerResult>
  {
    if rs == [] then map[]
    else
      var init, last := ByLayer(c, rs[..|rs| - 1]), rs[|rs| - 1];
      if last.contract != c.id then init else init[last.layer := last]
  }

  function PlacementFindings(c: Contract, rs: seq<LayerResult>): seq<Finding>
  {
    if rs == [] then []
    else PlacementFindings(c, rs[..|rs| - 1]) + PlacementOf(c, rs[..|rs| - 1], rs[|rs| - 1])
  }

  function PlacementOf(c: Contract, before: seq<LayerResult>, r: LayerResult): seq<Finding>
  {
    if r.contract != c.id then [Finding("ACC001", "error", r.contract)]
    else if r.layer in ByLayer(c, before) then [Finding("ACC002", "error", r.layer)]
    else []
  }

  function Missing(layers: seq<string>, byLayer: map<string, LayerResult>): seq<string>
  {
    if layers == [] then []
    else (if layers[0] in byLayer then [] else [layers[0]]) + Missing(layers[1..], byLayer)
  }

  function MissingFindings(missing: seq<string>): seq<Finding>
  {
    seq(|missing|, i requires 0 <= i < |missing| => Finding("ACC003", "warning", missing[i]))
  }

  function AllEvidence(rs: seq<LayerResult>): seq<Evidence>
  {
    if rs == [] then [] else AllEvidence(rs[..|rs| - 1]) + rs[|rs| - 1].evidence
  }

  function ResultFindings(rs: seq<LayerResult>): seq<Finding>
  {
    if rs == [] then [] else ResultFindings(rs[..|rs| - 1]) + rs[|rs| - 1].findings
  }

  /** The latest record under each id. */
  function Latest(es: seq<Evidence>): map<string, Evidence>
  {
    if es == [] then map[] else Latest(es[..|es| - 1])[es[|es| - 1].id := es[|es| - 1]]
  }

  predicate SelfEvaluated(e: Evidence)
  {
    e.producerRole == Some("implementation") && "independent" !in e.provenance
  }

  function EvidenceFindings(es: seq<Evidence>): seq<Finding>
  {
    if es == [] then []
    else EvidenceFindings(es[..|es| - 1]) + FindingsOn(Latest(es[..|es| - 1]), es[|es| - 1])
  }

  function FindingsOn(latest: map<string, Evidence>, e: Evidence): seq<Finding>
  {
    (if e.id in latest && latest[e.id] != e then [Finding("ACC004", "error", e.id)] else [])
    + (if SelfEvaluated(e) then [Finding("ACC009", "error", e.id)] else [])
  }

  /** Some record of the result carries all of the marks. */
  predicate Witnessed(r: LayerResult, marks: set<string>)
  {
    exists e | e in r.evidence :: forall mark | mark in marks :: mark in e.provenance
  }

  function Marks(layer: string): set<string>
  {
    if layer == "structure" then {"cross"} else if layer == "dynamic" then {"rust", "python", "cross"}
      else {"environment"}
  }

  predicate LacksWitness(r: LayerResult)
  {
    r.layer in REQUIRED && r.verdict == Verified && !Witnessed(r, Marks(r.layer))
  }

  function ProvenanceFindings(byLayer: map<string, LayerResult>, layer: string, code: string): seq<Finding>
  {
    if layer in byLayer && byLayer[layer].verdict == Verified && !Witnessed(byLayer[layer], Marks(layer))
    then [Finding(code, "error", "")] else []
  }

  predicate Unimplemented(c: Contract)
  {
    c.status == CandidateStatus || c.status == MappedStatus
  }

  function StatusFindings(c: Contract): seq<Finding>
  {
    if Unimplemented(c) then [Finding("ACC008", "warning", c.rustCoordinate)] else []
  }

  function Findings(c: Contract, rs: seq<LayerResult>): seq<Finding>
  {
    var byLayer := ByLayer(c, rs);
    PlacementFindings(c, rs)
    + MissingFindings(Missing(REQUIRED, byLayer))
    + EvidenceFindings(AllEvidence(rs))
    + ProvenanceFindings(byLayer, "structure", "ACC005")
    + ProvenanceFindings(byLayer, "dynamic", "ACC006")
    + ProvenanceFindings(byLayer, "outcome", "ACC007")
    + StatusFindings(c)
    + ResultFindings(rs)
  }

  // The evaluator.

  predicate HasError(fs: seq<Finding>)
  {
    exists f | f in fs :: f.severity == "error"
  }

  predicate AnyVerdict(byLayer: map<string, LayerResult>, v: Verdict)
  {
    exists l | l in byLayer :: byLayer[l].verdict == v
  }

  method PlaceResults(c: Contract, rs: seq<LayerResult>)
      returns (byLayer: map<string, LayerResult>, findings: seq<Finding>)
    ensures byLayer == ByLayer(c, rs) && findings == PlacementFindings(c, rs)
  {
    byLayer, findings := map[], [];
    for i := 0 to |rs|
      invariant byLayer == ByLayer(c, rs[..i]) && findings == PlacementFindings(c, rs[..i])
    {
      var result := rs[i];
      assert rs[..i + 1][..i] == rs[..i] && rs[..i + 1][i] == result;
      if result.contract != c.id {
        findings := findings + [Finding("ACC001", "error", result.contract)];
        continue;
      }
      if result.layer in byLayer {
        findings := findings + [Finding("ACC002", "error", result.layer)];
      }
      byLayer := byLayer[result.layer := result];
    }
    assert rs[..|rs|] == rs;
  }

  method CheckEvidence(es: seq<Evidence>) returns (findings: seq<Finding>)
    ensures findings == EvidenceFindings(es)
  {
    findings := [];
    var evidenceIds: map<string, Evidence> := map[];
    for i := 0 to |es|
      invariant evidenceIds == Latest(es[..i]) && findings == EvidenceFindings(es[..i])
    {
      var item := es[i];
      assert es[..i + 1][..i] == es[..i] && es[..i + 1][i] == item;
      ghost var before, latest := findings, evidenceIds;
      if item.id in evidenceIds && evidenceIds[item.id] != item {
        findings := findings + [Finding("ACC004", "error", item.id)];
      }
      evidenceIds := evidenceIds[item.id := item];
      if SelfEvaluated(item) {
        findings := findings + [Finding("ACC009", "error", item.id)];
      }
      assert findings == before + FindingsOn(latest, item);
    }
    assert es[..|es|] == es;
  }

  method Gather(rs: seq<LayerResult>) returns (evidence: seq<Evidence>, findings: seq<Finding>)
    ensures evidence == AllEvidence(rs) && findings == ResultFindings(rs)
  {
    evidence, findings := [], [];
    for i := 0 to |rs|
      invariant evidence == AllEvidence(rs[..i]) && findings == ResultFindings(rs[..i])
    {
      assert rs[..i + 1][..i] == rs[..i] && rs[..i + 1][i] == rs[i];
      evidence := evidence + rs[i].evidence;
      findings := findings + rs[i].findings;
    }
    assert rs[..|rs|] == rs;
  }

  method Evaluate(c: Contract, rs: seq<LayerResult>) returns (report: Report)
    ensures report.verdict == VerdictOf(c, multiset(rs))
    ensures report.contract == c.id && report.evidence == AllEvidence(rs) && report.findings == Findings(c, rs)
    ensures report.layers == map l | l in ByLayer(c, rs) :: ByLayer(c, rs)[l].verdict
  {
    var byLayer, findings := PlaceResults(c, rs);
    var missing := Missing(REQUIRED, byLayer);
    findings := findings + MissingFindings(missing);
    var evidence, own := Gather(rs);
    var fs := CheckEvidence(evidence);
    findings := findings + fs;
    findings := findings + ProvenanceFindings(byLayer, "structure", "ACC005");
    findings := findings + ProvenanceFindings(byLayer, "dynamic", "ACC006");
    findings := findings + ProvenanceFindings(byLayer, "outcome", "ACC007");
    findings := findings + StatusFindings(c);
    findings := findings + own;

    var hardFailure := AnyVerdict(byLayer, Failed) || HasError(findings);
    var incomplete := missing != [] || AnyVerdict(byLayer, Inconclusive) || Unimplemented(c);
    FailureIsOrderFree(c, rs);
    MissingIsOrderFree(c, rs);
    var verdict;
    if hardFailure {
      verdict := Failed;
    } else if incomplete {
      IncompleteIsOrderFree(c, rs);
      verdict := Inconclusive;
    } else {
      IncompleteIsOrderFree(c, rs);
      if forall layer | layer in REQUIRED :: byLayer[layer].verdict == Verified {
        verdict := Verified;
      } else {
        verdict := Inconclusive;
      }
    }
    report := Report(c.id, verdict, map l | l in byLayer :: byLayer[l].verdict, evidence, findings);
  }

  // The verdict without reference to order.

  /** A verified layer without a record of the provenance it needs: both languages for the structure, Rust and Python
      and both for the dynamics, the environment for the outcome. */
  ghost predicate Unwitnessed(r: LayerResult)
  {
    && r.verdict == Verified
    && (|| (r.layer == "structure" && !exists e | e in r.evidence :: "cross" in e.provenance)
        || (r.layer == "dynamic" && !exists e | e in r.evidence ::
              "rust" in e.provenance && "python" in e.provenance && "cross" in e.provenance)
        || (r.layer == "outcome" && !exists e | e in r.evidence :: "environment" in e.provenance))
  }

  /** Something about this result alone that fails the contract: it is another contract's, it failed, it is verified
      without the provenance its layer needs, it has an error, or the implementation judges itself in it. */
  ghost predicate Condemns(c: Contract, r: LayerResult)
  {
    || r.contract != c.id
    || r.verdict == Failed
    || Unwitnessed(r)
    || (exists f | f in r.findings :: f.severity == "error")
    || (exists e | e in r.evidence :: e.producerRole == Some("implementation") && "independent" !in e.provenance)
  }

  lemma WitnessIs(r: LayerResult)
    ensures LacksWitness(r) <==> Unwitnessed(r)
  {
    if r.layer == "structure" {
      OneMark(r, "cross");
    } else if r.layer == "dynamic" {
      ThreeMarks(r, "rust", "python", "cross");
    } else if r.layer == "outcome" {
      OneMark(r, "environment");
    }
  }

  lemma OneMark(r: LayerResult, m: string)
    ensures Witnessed(r, {m}) <==> exists e | e in r.evidence :: m in e.provenance
  {
  }

  lemma ThreeMarks(r: LayerResult, m: string, n: string, o: string)
    ensures Witnessed(r, {m, n, o}) <==>
      exists e | e in r.evidence :: m in e.provenance && n in e.provenance && o in e.provenance
  {
    forall e | e in r.evidence
      ensures (forall mark | mark in {m, n, o} :: mark in e.provenance)
        <==> m in e.provenance && n in e.provenance && o in e.provenance {
    }
  }

  predicate SameLayer(c: Contract, r: LayerResult, s: LayerResult)
  {
    r.contract == c.id && s.contract == c.id && r.layer == s.layer
  }

  /** Two of the contract's results are for one layer. */
  ghost predicate Repeated(c: Contract, ms: multiset<LayerResult>)
  {
    exists r, s :: r in ms && s in ms && SameLayer(c, r, s) && (r != s || ms[r] > 1)
  }

  /** Two records, of any results, share an id and differ. */
  ghost predicate Conflicting(ms: multiset<LayerResult>)
  {
    exists r, s, a, b :: r in ms && s in ms && a in r.evidence && b in s.evidence && Clash(a, b)
  }

  predicate Clash(a: Evidence, b: Evidence)
  {
    a.id == b.id && a != b
  }

  ghost predicate Fails(c: Contract, ms: multiset<LayerResult>)
  {
    (exists r :: r in ms && Condemns(c, r)) || Repeated(c, ms) || Conflicting(ms)
  }

  ghost predicate Covered(c: Contract, ms: multiset<LayerResult>, layer: string)
  {
    exists r :: r in ms && r.contract == c.id && r.layer == layer
  }

  ghost predicate Incomplete(c: Contract, ms: multiset<LayerResult>)
  {
    || c.status == CandidateStatus || c.status == MappedStatus
    || !Covered(c, ms, "structure") || !Covered(c, ms, "dynamic") || !Covered(c, ms, "outcome")
    || (exists r :: r in ms && r.verdict == Inconclusive)
  }

  ghost function VerdictOf(c: Contract, ms: multiset<LayerResult>): Verdict
  {
    if Fails(c, ms) then Failed else if Incomplete(c, ms) then Inconclusive else Verified
  }

  lemma LastOfMultiset<T>(s: seq<T>)
    requires s != []
    ensures multiset(s) == multiset(s[..|s| - 1]) + multiset{s[|s| - 1]}
  {
    assert s == s[..|s| - 1] + [s[|s| - 1]];
  }

  lemma {:induction false} ByLayerHolds(c: Contract, rs: seq<LayerResult>, layer: string)
    ensures layer in ByLayer(c, rs) <==> Covered(c, multiset(rs), layer)
    ensures layer in ByLayer(c, rs) ==>
      var r := ByLayer(c, rs)[layer]; r in multiset(rs) && r.contract == c.id && r.layer == layer
  {
    if rs != [] {
      var init, last := rs[..|rs| - 1], rs[|rs| - 1];
      ByLayerHolds(c, init, layer);
      LastOfMultiset(rs);
      if Covered(c, multiset(rs), layer) && !Covered(c, multiset(init), layer) {
        assert last.contract == c.id && last.layer == layer;
      }
    }
  }

  lemma RepeatedStep(c: Contract, ms: multiset<LayerResult>, x: LayerResult)
    ensures Repeated(c, ms + multiset{x}) <==> Repeated(c, ms) || (x.contract == c.id && Covered(c, ms, x.layer))
  {
    var more := ms + multiset{x};
    if Repeated(c, ms) {
      var r, s :| r in ms && s in ms && SameLayer(c, r, s) && (r != s || ms[r] > 1);
      assert r in more && s in more && (r != s || more[r] > 1);
    }
    if x.contract == c.id && Covered(c, ms, x.layer) {
      var r :| r in ms && r.contract == c.id && r.layer == x.layer;
      assert r in more && x in more && SameLayer(c, r, x) && (r != x || more[r] > 1);
    }
    if Repeated(c, more) && !Repeated(c, ms) {
      var r, s :| r in more && s in more && SameLayer(c, r, s) && (r != s || more[r] > 1);
      if r == x {
        assert s in ms;
      } else {
        assert r in ms;
      }
    }
  }

  /** A misplaced result is reported exactly when some result is foreign or a layer repeats. */
  lemma {:induction false} PlacementIsOrderFree(c: Contract, rs: seq<LayerResult>)
    ensures HasError(PlacementFindings(c, rs)) <==>
      (exists r :: r in multiset(rs) && r.contract != c.id)
      || Repeated(c, multiset(rs))
    ensures !HasError(PlacementFindings(c, rs)) ==> PlacementFindings(c, rs) == []
  {
    if rs != [] {
      var init, last := rs[..|rs| - 1], rs[|rs| - 1];
      PlacementIsOrderFree(c, init);
      LastOfMultiset(rs);
      RepeatedStep(c, multiset(init), last);
      ByLayerHolds(c, init, last.layer);
      ErrorsOfBoth(PlacementFindings(c, init), PlacementOf(c, init, last));
      AllErrors(PlacementOf(c, init, last));
      assert last in multiset(rs);
      ForeignOfBoth(c, multiset(init), last);
    }
  }

  lemma ForeignOfBoth(c: Contract, ms: multiset<LayerResult>, x: LayerResult)
    ensures (exists r :: r in ms + multiset{x} && r.contract != c.id) <==>
      (exists r :: r in ms && r.contract != c.id)
      || x.contract != c.id
  {
    assert x in ms + multiset{x};
    forall r | r in ms ensures r in ms + multiset{x} {}
  }

  lemma ErrorsOfBoth(a: seq<Finding>, b: seq<Finding>)
    ensures HasError(a + b) <==> HasError(a) || HasError(b)
  {
    forall f | f in a || f in b ensures f in a + b {}
  }

  /** Where no layer repeats, the entry for a layer is the only result there is for it. */
  lemma OnlyResult(c: Contract, rs: seq<LayerResult>, r: LayerResult)
    requires !Repeated(c, multiset(rs)) && r in multiset(rs) && r.contract == c.id
    ensures r.layer in ByLayer(c, rs) && ByLayer(c, rs)[r.layer] == r
  {
    ByLayerHolds(c, rs, r.layer);
    var s := ByLayer(c, rs)[r.layer];
    assert SameLayer(c, r, s);
  }

  ghost predicate Troubled(es: seq<Evidence>)
  {
    (exists a, b :: a in es && b in es && Clash(a, b)) || (exists e :: e in es && SelfEvaluated(e))
  }

  lemma {:induction false} LatestHolds(es: seq<Evidence>)
    ensures forall id :: id in Latest(es) ==> Latest(es)[id] in es && Latest(es)[id].id == id
    ensures forall e | e in es :: e.id in Latest(es)
  {
    if es != [] { LatestHolds(es[..|es| - 1]); }
  }

  lemma FindingsAreErrors(latest: map<string, Evidence>, e: Evidence)
    ensures HasError(FindingsOn(latest, e)) <==> FindingsOn(latest, e) != []
  {
    AllErrors(FindingsOn(latest, e));
  }

  /** A record that clashes with any earlier one clashes with the latest of its id, unless that one clashes with an
      earlier one. */
  lemma TroubledStep(init: seq<Evidence>, last: Evidence)
    ensures Troubled(init + [last]) <==> Troubled(init) || FindingsOn(Latest(init), last) != []
  {
    var es, latest := init + [last], Latest(init);
    LatestHolds(init);
    assert last in es;
    assert forall e | e in init :: e in es;
    if FindingsOn(latest, last) != [] && !SelfEvaluated(last) {
      assert Clash(latest[last.id], last);
    }
    if Troubled(es) && !Troubled(init) && !SelfEvaluated(last) {
      var a, b :| a in es && b in es && Clash(a, b);
      var other := if a in init then a else b;
      assert other in init && Clash(other, last);
      assert !Clash(other, latest[last.id]);
    }
  }

  /** Comparing each record with the latest of its id finds a clash exactly when there is one anywhere. */
  lemma {:induction false} EvidenceIsOrderFree(es: seq<Evidence>)
    ensures HasError(EvidenceFindings(es)) <==> Troubled(es)
  {
    if es != [] {
      var init, last := es[..|es| - 1], es[|es| - 1];
      EvidenceIsOrderFree(init);
      ErrorsOfBoth(EvidenceFindings(init), FindingsOn(Latest(init), last));
      FindingsAreErrors(Latest(init), last);
      assert es == init + [last];
      TroubledStep(init, last);
    }
  }

  lemma AllErrors(fs: seq<Finding>)
    requires forall f | f in fs :: f.severity == "error"
    ensures HasError(fs) <==> fs != []
  {
    assert fs != [] ==> fs[0] in fs;
  }

  lemma {:induction false} InAllEvidence(rs: seq<LayerResult>, e: Evidence)
    ensures e in AllEvidence(rs) <==> exists r :: r in multiset(rs) && e in r.evidence
  {
    if rs != [] {
      InAllEvidence(rs[..|rs| - 1], e);
      LastOfMultiset(rs);
      assert rs[|rs| - 1] in multiset(rs);
    }
  }

  lemma {:induction false} InResultFindings(rs: seq<LayerResult>, f: Finding)
    ensures f in ResultFindings(rs) <==> exists r :: r in multiset(rs) && f in r.findings
  {
    if rs != [] {
      InResultFindings(rs[..|rs| - 1], f);
      LastOfMultiset(rs);
      assert rs[|rs| - 1] in multiset(rs);
    }
  }

  lemma NoWarningFails(fs: seq<Finding>)
    requires forall f | f in fs :: f.severity == "warning"
    ensures !HasError(fs)
  {
  }

  /** The evidence loops report an error exactly when one is there, wherever it stands. */
  lemma EvidenceErrors(rs: seq<LayerResult>)
    ensures Troubled(AllEvidence(rs)) <==>
      Conflicting(multiset(rs)) || exists r, e :: r in multiset(rs) && e in r.evidence && SelfEvaluated(e)
  {
    var es, ms := AllEvidence(rs), multiset(rs);
    forall e ensures e in es <==> exists r :: r in ms && e in r.evidence { InAllEvidence(rs, e); }
    if a, b :| a in es && b in es && Clash(a, b) {
      var r :| r in ms && a in r.evidence;
      var s :| s in ms && b in s.evidence;
      assert Conflicting(ms);
    }
    if Conflicting(ms) {
      var r, s, a, b :| r in ms && s in ms && a in r.evidence && b in s.evidence && Clash(a, b);
      assert a in es && b in es;
    }
  }

  lemma ResultErrors(rs: seq<LayerResult>)
    ensures HasError(ResultFindings(rs)) <==>
       exists r, f :: r in multiset(rs) && f in r.findings
        && f.severity == "error"
  {
    forall f ensures f in ResultFindings(rs) <==>
       exists r :: r in multiset(rs)
        && f in r.findings { InResultFindings(rs, f); }
  }

  ghost predicate LayerFails(c: Contract, ms: multiset<LayerResult>)
  {
    exists r :: r in ms && r.contract == c.id && (r.verdict == Failed || LacksWitness(r))
  }

  function ProvenanceErrors(byLayer: map<string, LayerResult>): seq<Finding>
  {
    ProvenanceFindings(byLayer, "structure", "ACC005")
    + ProvenanceFindings(byLayer, "dynamic", "ACC006")
    + ProvenanceFindings(byLayer, "outcome", "ACC007")
  }

  lemma ProvenanceErrorsOf(byLayer: map<string, LayerResult>)
    requires forall l | l in byLayer :: byLayer[l].layer == l
    ensures HasError(ProvenanceErrors(byLayer)) <==> exists l | l in byLayer :: LacksWitness(byLayer[l])
  {
    AllErrors(ProvenanceErrors(byLayer));
  }

  /** The kept results show a failing layer exactly when any result does, unless a layer repeats. */
  lemma LayersAreOrderFree(c: Contract, rs: seq<LayerResult>)
    requires !Repeated(c, multiset(rs))
    ensures AnyVerdict(ByLayer(c, rs), Failed) || HasError(ProvenanceErrors(ByLayer(c, rs)))
      <==> LayerFails(c, multiset(rs))
  {
    var byLayer := ByLayer(c, rs);
    forall l ensures l in byLayer ==>
      byLayer[l] in multiset(rs) && byLayer[l].contract == c.id
      && byLayer[l].layer == l {
      ByLayerHolds(c, rs, l);
    }
    ProvenanceErrorsOf(byLayer);
    forall r | r in multiset(rs) && r.contract == c.id ensures r.layer in byLayer && byLayer[r.layer] == r {
      OnlyResult(c, rs, r);
    }
  }

  lemma ErrorsOfAll(c: Contract, rs: seq<LayerResult>)
    ensures HasError(Findings(c, rs)) <==>
      || HasError(PlacementFindings(c, rs)) || HasError(EvidenceFindings(AllEvidence(rs)))
      || HasError(ProvenanceErrors(ByLayer(c, rs))) || HasError(ResultFindings(rs))
  {
    var byLayer := ByLayer(c, rs);
    var p, m, e, s, o := PlacementFindings(c, rs), MissingFindings(Missing(REQUIRED, byLayer)),
      EvidenceFindings(AllEvidence(rs)), StatusFindings(c), ResultFindings(rs);
    var w := ProvenanceErrors(byLayer);
    assert Findings(c, rs) == ((((p + m) + e) + w) + s) + o;
    ErrorsOfBoth(p, m);
    ErrorsOfBoth(p + m, e);
    ErrorsOfBoth((p + m) + e, w);
    ErrorsOfBoth(((p + m) + e) + w, s);
    ErrorsOfBoth((((p + m) + e) + w) + s, o);
    NoWarningFails(m);
    NoWarningFails(s);
  }

  /** The evaluator's hard failure, read off the kept results and the findings, does not depend on the order of the
      results. */
  lemma FailureIsOrderFree(c: Contract, rs: seq<LayerResult>)
    ensures AnyVerdict(ByLayer(c, rs), Failed) || HasError(Findings(c, rs)) <==> Fails(c, multiset(rs))
  {
    ErrorsOfAll(c, rs);
    PlacementIsOrderFree(c, rs);
    EvidenceIsOrderFree(AllEvidence(rs));
    EvidenceErrors(rs);
    ResultErrors(rs);
    if !Repeated(c, multiset(rs)) {
      LayersAreOrderFree(c, rs);
    }
    FailsSplits(c, multiset(rs));
  }

  lemma FailsSplits(c: Contract, ms: multiset<LayerResult>)
    ensures Fails(c, ms) <==>
      || (exists r :: r in ms && r.contract != c.id) || Repeated(c, ms) || LayerFails(c, ms) || Conflicting(ms)
      || (exists r, e :: r in ms && e in r.evidence && SelfEvaluated(e))
      || (exists r, f :: r in ms && f in r.findings && f.severity == "error")
  {
    forall r | r in ms ensures LacksWitness(r) <==> Unwitnessed(r) { WitnessIs(r); }
    forall r | r in ms && Condemns(c, r)
      ensures
        || r.contract != c.id || (r.contract == c.id && (r.verdict == Failed || LacksWitness(r)))
        || (exists e :: e in r.evidence && SelfEvaluated(e))
        || (exists f :: f in r.findings && f.severity == "error")
    {
    }
  }

  lemma {:induction false} InMissing(layers: seq<string>, byLayer: map<string, LayerResult>)
    ensures Missing(layers, byLayer) == [] <==> forall l | l in layers :: l in byLayer
  {
    if layers != [] { InMissing(layers[1..], byLayer); }
  }

  lemma MissingIsOrderFree(c: Contract, rs: seq<LayerResult>)
    ensures Missing(REQUIRED, ByLayer(c, rs)) == [] <==> forall l | l in REQUIRED :: Covered(c, multiset(rs), l)
    ensures Missing(REQUIRED, ByLayer(c, rs)) == [] <==>
      && Covered(c, multiset(rs), "structure") && Covered(c, multiset(rs), "dynamic")
      && Covered(c, multiset(rs), "outcome")
    ensures Missing(REQUIRED, ByLayer(c, rs)) == [] <==> forall l | l in REQUIRED :: l in ByLayer(c, rs)
  {
    InMissing(REQUIRED, ByLayer(c, rs));
    assert REQUIRED[0] == "structure" && REQUIRED[1] == "dynamic" && REQUIRED[2] == "outcome";
    forall l ensures l in ByLayer(c, rs) <==> Covered(c, multiset(rs), l) { ByLayerHolds(c, rs, l); }
  }

  /** Short of failure the kept results are all the results there are. */
  lemma IncompleteIsOrderFree(c: Contract, rs: seq<LayerResult>)
    requires !Fails(c, multiset(rs))
    ensures Missing(REQUIRED, ByLayer(c, rs)) != [] || AnyVerdict(ByLayer(c, rs), Inconclusive) || Unimplemented(c)
      <==> Incomplete(c, multiset(rs))
    ensures !Incomplete(c, multiset(rs)) ==> forall l | l in ByLayer(c, rs) :: ByLayer(c, rs)[l].verdict == Verified
  {
    var byLayer := ByLayer(c, rs);
    MissingIsOrderFree(c, rs);
    forall l ensures l in byLayer ==> byLayer[l] in multiset(rs) { ByLayerHolds(c, rs, l); }
    forall r | r in multiset(rs) ensures r.contract == c.id && r.verdict != Failed {
      assert !Condemns(c, r);
    }
    forall r | r in multiset(rs) ensures r.layer in byLayer && byLayer[r.layer] == r {
      OnlyResult(c, rs, r);
    }
  }

  /** A failed verdict stays failed whatever results are added, in whatever places. */
  lemma FailedIsAbsorbing(c: Contract, ms: multiset<LayerResult>, more: multiset<LayerResult>)
    requires VerdictOf(c, ms) == Failed
    ensures VerdictOf(c, ms + more) == Failed
  {
    var all := ms + more;
    if Repeated(c, ms) {
      var r, s :| r in ms && s in ms && SameLayer(c, r, s) && (r != s || ms[r] > 1);
      assert r in all && s in all && all[r] >= ms[r];
    } else if Conflicting(ms) {
      var r, s, a, b :| r in ms && s in ms && a in r.evidence && b in s.evidence && Clash(a, b);
      assert r in all && s in all;
    } else {
      var r :| r in ms && Condemns(c, r);
      assert r in all;
    }
  }
}
