/**
 The closure validator of the compact eval: a prioritized chain of gates over an artifact bundle, a
 fixture snapshot and a capability snapshot, and the plain conjunction it decides.
 */
module Closure {
  import opened Basics
  import opened Workflow

  // ----- Artifacts -----

  datatype Id =
    | Task | FixtureManifest | AcceptanceChecks | PlanDocument | WorkspaceDiff | PatchSummary | TestResults
    | CheckerVerdict | ArbiterVerdict | StageResult | EventLog | ResourceUsage | ModelUsage
    | ValidatorResult | ContextSnapshot | ArtifactManifest

  datatype Verdict = Positive | Negative | Stuck

  datatype Manifest = Manifest(fixtureId: string, expectedMutations: seq<string>, content: string)

  /** The fields of an artifact that closure looks at, by artifact. */
  datatype Record =
    | ManifestRecord(manifest: Manifest)
    | AcceptanceRecord(checkIds: seq<string>)
    | DiffRecord(added: seq<string>, modified: seq<string>, deleted: seq<string>)
    | PatchRecord(exitCodes: seq<int>, unresolvedIssues: seq<string>)
    | TestRecord(exitCode: int, failedCount: int, deterministic: bool, allowedByPolicy: bool)
    | CheckerRecord(checker: Verdict, checkerEvidence: seq<Id>, failedChecks: seq<string>, openIssues: seq<string>,
                    remediation: string, blocker: string)
    | ArbiterRecord(arbiter: Verdict, disposition: Disposition, evidence: seq<Id>, missing: seq<string>,
                    unauthorized: seq<string>, openChecks: seq<string>, hasStatus: bool)
    | ContextRecord(visibleCheckIds: seq<string>)
    | StageRecord(stage: Stage, terminal: Terminal)
    | OtherRecord

  /** `EvalCheckerVerdictArtifact._checker_verdict_valid`. */
  predicate CheckerValid(r: Record)
    requires r.CheckerRecord?
  {
    r.checkerEvidence != [] &&
    match r.checker
    case Positive => r.failedChecks == [] && r.openIssues == [] && r.remediation == "" && r.blocker == ""
    case Negative => r.openIssues != [] && r.remediation != ""
    case Stuck => r.blocker != ""
  }

  /** `EvalArbiterVerdictArtifact._arbiter_verdict_valid`. */
  predicate ArbiterValid(r: Record)
    requires r.ArbiterRecord?
  {
    r.evidence != [] &&
    match r.arbiter
    case Positive => r.disposition == Approved && r.missing == [] && r.unauthorized == [] && r.openChecks == []
    case Negative =>
      r.disposition == Rejected &&
      (r.missing != [] || r.unauthorized != [] || r.openChecks != [] || r.hasStatus)
    case Stuck => r.disposition == BlockedCandidate
  }

  /** The artifact model of an id accepts the record, as far as the fields here go. */
  predicate Fits(id: Id, r: Record) {
    match id
    case FixtureManifest => r.ManifestRecord?
    case AcceptanceChecks => r.AcceptanceRecord? && r.checkIds != []
    case WorkspaceDiff => r.DiffRecord?
    case PatchSummary => r.PatchRecord?
    case TestResults => r.TestRecord? && r.failedCount >= 0
    case CheckerVerdict => r.CheckerRecord? && CheckerValid(r)
    case ArbiterVerdict => r.ArbiterRecord? && ArbiterValid(r)
    case ContextSnapshot => r.ContextRecord?
    case StageResult => r.StageRecord?
    case _ => r.OtherRecord?
  }

  /** A bundle key: an artifact id, or other text. */
  datatype Key = Known(id: Id) | Unknown(text: string)

  /** A raw record; `otherwiseValid` stands for the checks on fields that closure does not look at. */
  datatype Raw = Raw(record: Record, otherwiseValid: bool)

  type Bundle = map<Key, Raw>

  predicate EntryValid(key: Key, raw: Raw) {
    key.Known? && raw.otherwiseValid && Fits(key.id, raw.record)
  }

  ghost predicate AllValid(bundle: Bundle) {
    forall key :: key in bundle ==> EntryValid(key, bundle[key])
  }

  /** What is wrong with a record as the artifact of an id. */
  ghost predicate Faulty(id: Id, r: Record) {
    match r
    case ManifestRecord(_) => id != FixtureManifest
    case AcceptanceRecord(checkIds) => id != AcceptanceChecks || checkIds == []
    case DiffRecord(_, _, _) => id != WorkspaceDiff
    case PatchRecord(_, _) => id != PatchSummary
    case TestRecord(_, failedCount, _, _) => id != TestResults || failedCount < 0
    case CheckerRecord(verdict, evidence, failedChecks, openIssues, remediation, blocker) =>
      || id != CheckerVerdict || evidence == []
      || (verdict == Positive && (failedChecks != [] || openIssues != [] || remediation != "" || blocker != ""))
      || (verdict == Negative && (openIssues == [] || remediation == ""))
      || (verdict == Stuck && blocker == "")
    case ArbiterRecord(verdict, disposition, evidence, missing, unauthorized, openChecks, hasStatus) =>
      || id != ArbiterVerdict || evidence == []
      || (verdict == Positive && (disposition != Approved || missing != [] || unauthorized != [] || openChecks != []))
      || (verdict == Negative && (disposition != Rejected || (missing == [] && unauthorized == [] && openChecks == [] &&
                                                              !hasStatus)))
      || (verdict == Stuck && disposition != BlockedCandidate)
    case ContextRecord(_) => id != ContextSnapshot
    case StageRecord(_, _) => id != StageResult
    case OtherRecord =>
      || id.FixtureManifest? || id.AcceptanceChecks? || id.WorkspaceDiff? || id.PatchSummary? || id.TestResults?
      || id.CheckerVerdict? || id.ArbiterVerdict? || id.ContextSnapshot? || id.StageResult?
  }

  lemma FaultyExact(id: Id, r: Record)
    ensures Fits(id, r) <==> !Faulty(id, r)
  {
  }

  /** A bundle is refused as it stands exactly for an entry that is unknown, invalid otherwise, or at fault. */
  lemma BundleRefused(bundle: Bundle)
    ensures !AllValid(bundle) <==>
            exists key :: key in bundle &&
                          (key.Unknown? || !bundle[key].otherwiseValid || Faulty(key.id, bundle[key].record))
  {
    forall key | key in bundle && key.Known?
      ensures Fits(key.id, bundle[key].record) <==> !Faulty(key.id, bundle[key].record)
    {
      FaultyExact(key.id, bundle[key].record);
    }
  }

  type Validated = map<Id, Record>

  /** The validated artifacts are exactly the valid entries of the bundle. */
  ghost predicate Validates(bundle: Bundle, validated: Validated) {
    forall id :: (id in validated <==> Known(id) in bundle && EntryValid(Known(id), bundle[Known(id)])) &&
                 (id in validated ==> validated[id] == bundle[Known(id)].record)
  }

  /** `_validate_present_closure_artifacts`. */
  method ValidatePresent(bundle: Bundle) returns (validated: Validated, rejected: seq<Key>)
    ensures Validates(bundle, validated)
    ensures rejected == [] <==> AllValid(bundle)
  {
    validated := map[];
    rejected := [];
    var rest := bundle.Keys;
    while rest != {}
      invariant rest <= bundle.Keys
      invariant forall id :: id in validated <==>
                Known(id) in bundle && Known(id) !in rest && EntryValid(Known(id), bundle[Known(id)])
      invariant forall id :: id in validated ==> validated[id] == bundle[Known(id)].record
      invariant rejected == [] <==> forall key :: key in bundle && key !in rest ==> EntryValid(key, bundle[key])
      decreases |rest|
    {
      var key :| key in rest;
      if EntryValid(key, bundle[key]) {
        validated := validated[key.id := bundle[key].record];
      } else {
        rejected := rejected + [key];
      }
      rest := rest - {key};
    }
  }

  // ----- Snapshots -----

  /** The fixture workspace snapshot, or data that does not validate as one. */
  datatype Fixture =
    | MalformedFixture
    | Snapshot(fixtureId: string, manifestSha256: string, unauthorizedPaths: seq<string>, violations: seq<string>,
               addedPaths: seq<string>, modifiedPaths: seq<string>, deletedPaths: seq<string>)

  /** One capability result; a result for an unknown stage names none. */
  datatype CapabilityResult = CapabilityResult(stage: Option<Stage>, allowed: bool)

  /** The capability results, or a snapshot whose entries are not recognized. */
  datatype Capabilities = Unrecognized | Results(results: seq<CapabilityResult>)

  predicate CoversStage(results: seq<CapabilityResult>, stage: Stage) {
    exists i :: 0 <= i < |results| && results[i].stage == Some(stage)
  }

  /** `_capability_snapshot_diagnostics` reports nothing. */
  predicate CapabilitiesPass(c: Capabilities) {
    && c.Results? && c.results != []
    && (forall i :: 0 <= i < |c.results| ==> c.results[i].allowed)
    && CoversStage(c.results, Planner) && CoversStage(c.results, Builder)
    && CoversStage(c.results, Checker) && CoversStage(c.results, Arbiter)
  }

  // ----- Gates -----

  datatype Kind = Success | Rejection | BlockedClosure | BadArtifacts | BadFixture | BadCapabilities | BadContext

  datatype Outcome = Outcome(kind: Kind, terminal: Option<Terminal>, disposition: Option<Disposition>,
                             evidence: seq<Id>, missing: seq<Id>)

  function Invalid(kind: Kind): Outcome { Outcome(kind, None, None, [], []) }

  const BASE: seq<Id> := [Task, FixtureManifest, AcceptanceChecks, PlanDocument, ArbiterVerdict, ContextSnapshot]

  const FULL: seq<Id> := [Task, FixtureManifest, AcceptanceChecks, PlanDocument, WorkspaceDiff, PatchSummary,
                          TestResults, CheckerVerdict, ArbiterVerdict, ContextSnapshot]

  const RELAXED: seq<Id> := [WorkspaceDiff, PatchSummary, TestResults, CheckerVerdict]

  function Missing(required: seq<Id>, validated: Validated): (r: seq<Id>)
    ensures r == [] <==> forall id :: id in required ==> id in validated
  {
    if required == [] then []
    else if required[0] in validated then Missing(required[1..], validated)
    else [required[0]] + Missing(required[1..], validated)
  }

  function RequiredIds(kind: Kind): seq<Id> {
    if kind == BlockedClosure then BASE else FULL
  }

  /** `_closure_outcome_kind`. */
  function Inferred(r: Record): (Kind, Terminal, Disposition)
    requires r.ArbiterRecord?
  {
    if r.arbiter == Stuck then (BlockedClosure, ArbiterBlocked, BlockedCandidate)
    else if r.arbiter == Negative then (Rejection, ArbiterRejected, Rejected)
    else if r.disposition == Rejected then (Rejection, ArbiterRejected, r.disposition)
    else (Success, ArbiterClosed, r.disposition)
  }

  predicate TerminalPathFails(r: Record, kind: Kind)
    requires r.ArbiterRecord?
  {
    || (r.arbiter == Stuck && (kind != BlockedClosure || r.disposition != BlockedCandidate))
    || (r.arbiter != Stuck && (kind == BlockedClosure || r.disposition == BlockedCandidate))
  }

  predicate CheckerGateFails(validated: Validated, kind: Kind) {
    CheckerVerdict in validated && kind != BlockedClosure && validated[CheckerVerdict].CheckerRecord? &&
    if kind == Success then validated[CheckerVerdict].checker != Positive
    else validated[CheckerVerdict].checker == Stuck
  }

  predicate TestsFailed(r: Record)
    requires r.TestRecord?
  {
    r.exitCode != 0 || r.failedCount != 0 || !r.deterministic || !r.allowedByPolicy
  }

  predicate CommandFailed(exitCodes: seq<int>) {
    exists i :: 0 <= i < |exitCodes| && exitCodes[i] != 0
  }

  datatype CommandDiagnostic = FailedTests | FailedCommands | UnresolvedIssues

  /** What the command gate reports. */
  function CommandProblems(validated: Validated, kind: Kind): seq<CommandDiagnostic> {
    if kind != Success then []
    else
      (if TestResults in validated && validated[TestResults].TestRecord? &&
       TestsFailed(validated[TestResults]) then [FailedTests] else []) +
      (if PatchSummary in validated && validated[PatchSummary].PatchRecord? &&
       CommandFailed(validated[PatchSummary].exitCodes)
       then [FailedCommands] else []) +
      (if PatchSummary in validated && validated[PatchSummary].PatchRecord? &&
       validated[PatchSummary].unresolvedIssues != []
       then [UnresolvedIssues] else [])
  }

  /** `_command_status_diagnostics`: the list is filled step by step. */
  method CommandStatus(validated: Validated, kind: Kind) returns (diagnostics: seq<CommandDiagnostic>)
    requires forall id :: id in validated ==> Fits(id, validated[id])
    ensures diagnostics == CommandProblems(validated, kind)
  {
    diagnostics := [];
    if kind != Success {
      return;
    }
    if TestResults in validated && TestsFailed(validated[TestResults]) {
      diagnostics := diagnostics + [FailedTests];
    }
    if PatchSummary in validated {
      var failed := false;
      var codes := validated[PatchSummary].exitCodes;
      for i := 0 to |codes|
        invariant failed <==> CommandFailed(codes[..i])
      {
        if codes[i] != 0 {
          assert codes[..i + 1][i] == codes[i];
          failed := true;
        } else {
          forall j | 0 <= j < i + 1 && codes[..i + 1][j] != 0 ensures j < i && codes[..i][j] != 0 { }
          forall j | 0 <= j < i && codes[..i][j] != 0 ensures codes[..i + 1][j] != 0 { }
        }
      }
      assert codes[..|codes|] == codes;
      if failed {
        diagnostics := diagnostics + [FailedCommands];
      }
      if validated[PatchSummary].unresolvedIssues != [] {
        diagnostics := diagnostics + [UnresolvedIssues];
      }
    }
  }

  predicate MutationGateFails(validated: Validated, kind: Kind) {
    kind == Success && FixtureManifest in validated && validated[FixtureManifest].ManifestRecord? &&
    validated[FixtureManifest].manifest.expectedMutations != [] &&
    (WorkspaceDiff !in validated ||
     (validated[WorkspaceDiff].DiffRecord? &&
      validated[WorkspaceDiff].added + validated[WorkspaceDiff].modified + validated[WorkspaceDiff].deleted == []))
  }

  predicate AcceptanceGateFails(r: Record, kind: Kind)
    requires r.ArbiterRecord?
  {
    kind == Success && r.openChecks != []
  }

  predicate StageResultGateFails(validated: Validated, terminal: Terminal) {
    StageResult in validated && validated[StageResult].StageRecord? &&
    (validated[StageResult].stage != Arbiter || !Legal(Arbiter, validated[StageResult].terminal) ||
     validated[StageResult].terminal != terminal)
  }

  predicate AnyGateFails(validated: Validated, r: Record, kind: Kind, terminal: Terminal)
    requires r.ArbiterRecord?
  {
    || CheckerGateFails(validated, kind)
    || CommandProblems(validated, kind) != []
    || MutationGateFails(validated, kind)
    || AcceptanceGateFails(r, kind)
    || StageResultGateFails(validated, terminal)
  }

  predicate FixtureMutated(f: Fixture)
    requires f.Snapshot?
  {
    f.addedPaths + f.modifiedPaths + f.deletedPaths != []
  }

  /** `_fixture_snapshot_diagnostics` reports nothing. */
  predicate FixturePasses(f: Fixture, validated: Validated, sha: Manifest -> string) {
    && f.Snapshot? && f.unauthorizedPaths == [] && f.violations == []
    && (FixtureManifest in validated && validated[FixtureManifest].ManifestRecord? ==>
          f.fixtureId == validated[FixtureManifest].manifest.fixtureId &&
          f.manifestSha256 == sha(validated[FixtureManifest].manifest))
  }

  /** `set(a) == set(b)`. */
  predicate SameIds(a: seq<string>, b: seq<string>) {
    (forall i :: 0 <= i < |a| ==> a[i] in b) && (forall i :: 0 <= i < |b| ==> b[i] in a)
  }

  /** `_context_boundary_diagnostics` reports nothing. */
  predicate ContextPasses(validated: Validated) {
    && AcceptanceChecks in validated && ContextSnapshot in validated
    && validated[AcceptanceChecks].AcceptanceRecord? && validated[ContextSnapshot].ContextRecord?
    && validated[AcceptanceChecks].checkIds != []
    && SameIds(validated[ContextSnapshot].visibleCheckIds, validated[AcceptanceChecks].checkIds)
  }

  predicate EvidenceResolves(r: Record, validated: Validated)
    requires r.ArbiterRecord?
  {
    r.evidence != [] && forall i :: 0 <= i < |r.evidence| ==> r.evidence[i] in validated
  }

  /** The shortened blocked path is taken when some builder or checker artifact is absent. */
  predicate Shortened(validated: Validated, kind: Kind) {
    kind == BlockedClosure && Missing(RELAXED, validated) != []
  }

  /** `validate_eval_closure`, once the artifacts of the bundle are validated. */
  function Decide(validated: Validated, f: Fixture, c: Capabilities, sha: Manifest -> string): Outcome
    requires ArbiterVerdict in validated ==> validated[ArbiterVerdict].ArbiterRecord?
  {
    if Missing(BASE, validated) != [] then Outcome(BadArtifacts, None, None, [], Missing(BASE, validated))
    else
      assert ArbiterVerdict in BASE;
      var r := validated[ArbiterVerdict];
      var (kind, terminal, disposition) := Inferred(r);
      if TerminalPathFails(r, kind) then Invalid(BadArtifacts)
      else if AnyGateFails(validated, r, kind, terminal) then Invalid(BadArtifacts)
      else if Missing(RequiredIds(kind), validated) != [] then
        Outcome(BadArtifacts, None, None, [], Missing(RequiredIds(kind), validated))
      else if Shortened(validated, kind) && f.MalformedFixture? then Invalid(BadFixture)
      else if Shortened(validated, kind) && FixtureMutated(f) then Invalid(BadArtifacts)
      else if !CapabilitiesPass(c) then Invalid(BadCapabilities)
      else if !FixturePasses(f, validated, sha) then Invalid(BadFixture)
      else if !ContextPasses(validated) then Invalid(BadContext)
      else if !EvidenceResolves(r, validated) then Invalid(BadArtifacts)
      else Outcome(kind, Some(terminal), Some(disposition), r.evidence, [])
  }

  /** `validate_eval_closure`. */
  method ValidateClosure(bundle: Bundle, f: Fixture, c: Capabilities, sha: Manifest -> string)
    returns (outcome: Outcome)
    ensures !AllValid(bundle) ==> outcome == Invalid(BadArtifacts)
    ensures AllValid(bundle) ==>
              exists validated ::
                Validates(bundle, validated) && AllFit(validated) && outcome == Decide(validated, f, c, sha)
  {
    var validated, rejected := ValidatePresent(bundle);
    if rejected != [] {
      return Invalid(BadArtifacts);
    }
    assert AllFit(validated);
    outcome := Decide(validated, f, c, sha);
  }

  ghost predicate AllFit(validated: Validated) {
    forall id :: id in validated ==> Fits(id, validated[id])
  }

  // ----- What the outcomes mean -----

  ghost predicate Present(validated: Validated, ids: seq<Id>) {
    forall id :: id in ids ==> id in validated
  }

  /** A stage result, when there is one, is the arbiter's and says the same. */
  ghost predicate StageResultAgrees(validated: Validated, terminal: Terminal) {
    StageResult in validated ==> validated[StageResult] == StageRecord(Arbiter, terminal)
  }

  ghost predicate HasResult(results: seq<CapabilityResult>, stage: Stage) {
    exists x :: x in results && x.stage == Some(stage)
  }

  /** Every stage has a capability result, and nothing was denied. */
  ghost predicate CapabilityBoundary(c: Capabilities) {
    && c.Results? && (forall x :: x in c.results ==> x.allowed)
    && (forall stage: Stage :: HasResult(c.results, stage))
  }

  /** The snapshot is of the manifest's fixture, and nothing unauthorized happened to it. */
  ghost predicate FixtureBoundary(validated: Validated, f: Fixture, sha: Manifest -> string)
    requires AllFit(validated) && Present(validated, BASE)
  {
    assert FixtureManifest in BASE;
    && f.Snapshot? && f.unauthorizedPaths == [] && f.violations == []
    && f.fixtureId == validated[FixtureManifest].manifest.fixtureId
    && f.manifestSha256 == sha(validated[FixtureManifest].manifest)
  }

  /** The context showed exactly the acceptance checks. */
  ghost predicate ContextBoundary(validated: Validated)
    requires AllFit(validated) && Present(validated, BASE)
  {
    assert ContextSnapshot in BASE && AcceptanceChecks in BASE;
    forall id :: id in validated[ContextSnapshot].visibleCheckIds <==> id in validated[AcceptanceChecks].checkIds
  }

  /** The arbiter's evidence lies inside the bundle. */
  ghost predicate EvidenceBoundary(validated: Validated)
    requires AllFit(validated) && Present(validated, BASE)
  {
    assert ArbiterVerdict in BASE;
    forall id :: id in validated[ArbiterVerdict].evidence ==> id in validated
  }

  /** The boundaries every valid closure keeps, whatever its verdict. */
  ghost predicate BoundariesKept(validated: Validated, f: Fixture, c: Capabilities, sha: Manifest -> string)
    requires AllFit(validated) && Present(validated, BASE)
  {
    && CapabilityBoundary(c) && FixtureBoundary(validated, f, sha)
    && ContextBoundary(validated) && EvidenceBoundary(validated)
  }

  /** Everything a successfully closed trial must show. */
  ghost predicate ClosedSuccess(validated: Validated, f: Fixture, c: Capabilities, sha: Manifest -> string)
    requires AllFit(validated)
  {
    && Present(validated, BASE) && Present(validated, FULL)
    && (assert WorkspaceDiff in FULL && PatchSummary in FULL && TestResults in FULL && CheckerVerdict in FULL &&
               ArbiterVerdict in FULL && FixtureManifest in FULL;
        var diff, patch, tests := validated[WorkspaceDiff], validated[PatchSummary], validated[TestResults];
        && validated[ArbiterVerdict].arbiter == Positive
        && validated[CheckerVerdict].checker == Positive
        && tests.exitCode == 0 && tests.failedCount == 0 && tests.deterministic && tests.allowedByPolicy
        && (forall code :: code in patch.exitCodes ==> code == 0) && patch.unresolvedIssues == []
        && (validated[FixtureManifest].manifest.expectedMutations != [] ==>
              diff.added != [] || diff.modified != [] || diff.deleted != []))
    && StageResultAgrees(validated, ArbiterClosed)
    && BoundariesKept(validated, f, c, sha)
  }

  /** A rejected candidate: all artifacts, a checker that was not blocked, a stage result that agrees. */
  ghost predicate ClosedRejection(validated: Validated, f: Fixture, c: Capabilities, sha: Manifest -> string)
    requires AllFit(validated)
  {
    && Present(validated, BASE) && Present(validated, FULL)
    && (assert CheckerVerdict in FULL && ArbiterVerdict in FULL;
        validated[ArbiterVerdict].arbiter == Negative && validated[CheckerVerdict].checker != Stuck)
    && StageResultAgrees(validated, ArbiterRejected)
    && BoundariesKept(validated, f, c, sha)
  }

  /** A blocked trial may lack builder and checker artifacts, but only on an unmodified fixture. */
  ghost predicate ClosedBlocked(validated: Validated, f: Fixture, c: Capabilities, sha: Manifest -> string)
    requires AllFit(validated)
  {
    && Present(validated, BASE)
    && (assert ArbiterVerdict in BASE; validated[ArbiterVerdict].arbiter == Stuck)
    && StageResultAgrees(validated, ArbiterBlocked)
    && BoundariesKept(validated, f, c, sha)
    && (Present(validated, RELAXED) || (f.addedPaths == [] && f.modifiedPaths == [] && f.deletedPaths == []))
  }

  /** On a validated arbiter verdict the terminal-path and open-acceptance gates never fire. */
  lemma DeadGates(r: Record)
    requires Fits(ArbiterVerdict, r)
    ensures !TerminalPathFails(r, Inferred(r).0)
    ensures !AcceptanceGateFails(r, Inferred(r).0)
    ensures r.evidence != []
    ensures Inferred(r) == match r.arbiter
                           case Positive => (Success, ArbiterClosed, Approved)
                           case Negative => (Rejection, ArbiterRejected, Rejected)
                           case Stuck => (BlockedClosure, ArbiterBlocked, BlockedCandidate)
  {
  }

  lemma CoversExact(results: seq<CapabilityResult>, stage: Stage)
    ensures CoversStage(results, stage) <==> HasResult(results, stage)
  {
    if HasResult(results, stage) {
      var x :| x in results && x.stage == Some(stage);
      var i :| 0 <= i < |results| && results[i] == x;
    }
  }

  lemma AllowedExact(results: seq<CapabilityResult>)
    ensures (forall x :: x in results ==> x.allowed) <==> (forall i :: 0 <= i < |results| ==> results[i].allowed)
  {
    if forall x :: x in results ==> x.allowed {
      forall i | 0 <= i < |results| ensures results[i].allowed { assert results[i] in results; }
    }
  }

  lemma CapabilitiesExact(c: Capabilities)
    ensures CapabilitiesPass(c) <==> CapabilityBoundary(c)
  {
    if c.Results? {
      AllowedExact(c.results);
      forall stage: Stage
        ensures CoversStage(c.results, stage) <==> HasResult(c.results, stage)
        ensures CapabilitiesPass(c) ==> CoversStage(c.results, stage)
      {
        CoversExact(c.results, stage);
        match stage case Planner => case Builder => case Checker => case Arbiter =>
      }
      if forall stage: Stage :: HasResult(c.results, stage) {
        assert HasResult(c.results, Planner) && HasResult(c.results, Builder);
        assert HasResult(c.results, Checker) && HasResult(c.results, Arbiter);
      }
    }
  }

  lemma SameIdsExact(a: seq<string>, b: seq<string>)
    ensures SameIds(a, b) <==> forall id :: id in a <==> id in b
  {
    if forall id :: id in a <==> id in b {
      forall i | 0 <= i < |a| ensures a[i] in b { assert a[i] in a; }
      forall i | 0 <= i < |b| ensures b[i] in a { assert b[i] in b; }
    }
  }

  /** The last four gates together keep the boundaries. */
  lemma BoundariesExact(validated: Validated, f: Fixture, c: Capabilities, sha: Manifest -> string)
    requires AllFit(validated) && Present(validated, BASE)
    ensures ArbiterVerdict in validated && validated[ArbiterVerdict].ArbiterRecord?
    ensures CapabilitiesPass(c) <==> CapabilityBoundary(c)
    ensures FixturePasses(f, validated, sha) <==> FixtureBoundary(validated, f, sha)
    ensures ContextPasses(validated) <==> ContextBoundary(validated)
    ensures EvidenceResolves(validated[ArbiterVerdict], validated) <==> EvidenceBoundary(validated)
  {
    assert ArbiterVerdict in BASE && FixtureManifest in BASE && ContextSnapshot in BASE && AcceptanceChecks in BASE;
    CapabilitiesExact(c);
    SameIdsExact(validated[ContextSnapshot].visibleCheckIds, validated[AcceptanceChecks].checkIds);
    DeadGates(validated[ArbiterVerdict]);
    EvidenceExact(validated[ArbiterVerdict], validated);
  }

  lemma EvidenceExact(r: Record, validated: Validated)
    requires r.ArbiterRecord?
    ensures EvidenceResolves(r, validated) <==> r.evidence != [] && forall id :: id in r.evidence ==> id in validated
  {
    if forall id :: id in r.evidence ==> id in validated {
      forall i | 0 <= i < |r.evidence| ensures r.evidence[i] in validated { assert r.evidence[i] in r.evidence; }
    }
  }

  lemma StageResultExact(validated: Validated, terminal: Terminal)
    requires AllFit(validated) && Legal(Arbiter, terminal)
    ensures StageResultGateFails(validated, terminal) <==> !StageResultAgrees(validated, terminal)
  {
  }

  lemma CommandsExact(validated: Validated)
    requires AllFit(validated) && TestResults in validated && PatchSummary in validated
    ensures CommandProblems(validated, Success) == [] <==>
            !TestsFailed(validated[TestResults]) &&
            (forall code :: code in validated[PatchSummary].exitCodes ==> code == 0) &&
            validated[PatchSummary].unresolvedIssues == []
  {
    var codes := validated[PatchSummary].exitCodes;
    if CommandFailed(codes) {
      var i :| 0 <= i < |codes| && codes[i] != 0;
      assert codes[i] in codes;
    } else {
      forall code | code in codes ensures code == 0 {
        var i :| 0 <= i < |codes| && codes[i] == code;
      }
    }
  }

  lemma MutationExact(validated: Validated)
    requires AllFit(validated) && FixtureManifest in validated && WorkspaceDiff in validated
    ensures MutationGateFails(validated, Success) <==>
            validated[FixtureManifest].manifest.expectedMutations != [] && validated[WorkspaceDiff].added == [] &&
            validated[WorkspaceDiff].modified == [] && validated[WorkspaceDiff].deleted == []
  {
    var d := validated[WorkspaceDiff];
    assert d.added + d.modified + d.deleted == [] <==> |d.added| + |d.modified| + |d.deleted| == 0;
  }

  /** What the gates come to for each kind, once the artifacts the kind requires are there. */
  lemma SuccessGates(validated: Validated, r: Record)
    requires AllFit(validated) && Present(validated, FULL) && ArbiterVerdict in validated &&
             r == validated[ArbiterVerdict]
    requires r.arbiter == Positive
    ensures WorkspaceDiff in validated && PatchSummary in validated && TestResults in validated &&
            CheckerVerdict in validated && FixtureManifest in validated
    ensures !AnyGateFails(validated, r, Success, ArbiterClosed) <==>
            validated[CheckerVerdict].checker == Positive && !TestsFailed(validated[TestResults]) &&
            (forall code :: code in validated[PatchSummary].exitCodes ==> code == 0) &&
            validated[PatchSummary].unresolvedIssues == [] &&
            (validated[FixtureManifest].manifest.expectedMutations != [] ==>
               validated[WorkspaceDiff].added != [] || validated[WorkspaceDiff].modified != [] ||
               validated[WorkspaceDiff].deleted != []) &&
            StageResultAgrees(validated, ArbiterClosed)
  {
    assert WorkspaceDiff in FULL && PatchSummary in FULL && TestResults in FULL && CheckerVerdict in FULL &&
        FixtureManifest in FULL;
    DeadGates(r);
    CommandsExact(validated);
    MutationExact(validated);
    StageResultExact(validated, ArbiterClosed);
  }

  lemma OtherGates(validated: Validated, r: Record, kind: Kind, terminal: Terminal)
    requires AllFit(validated) && r.ArbiterRecord? && (kind == Rejection || kind == BlockedClosure) &&
             Legal(Arbiter, terminal)
    ensures !AnyGateFails(validated, r, kind, terminal) <==>
            (kind == Rejection && CheckerVerdict in validated ==> validated[CheckerVerdict].checker != Stuck) &&
            StageResultAgrees(validated, terminal)
  {
    StageResultExact(validated, terminal);
  }

  predicate Valid(kind: Kind) { kind == Success || kind == Rejection || kind == BlockedClosure }

  /** The kind a closure is decided as, from the arbiter's verdict alone. */
  lemma DecidedKind(validated: Validated, f: Fixture, c: Capabilities, sha: Manifest -> string)
    requires AllFit(validated) && Present(validated, BASE)
    ensures ArbiterVerdict in validated && validated[ArbiterVerdict].ArbiterRecord?
    ensures var r := validated[ArbiterVerdict];
            var (kind, terminal, disposition) := Inferred(r);
            var passed := !AnyGateFails(validated, r, kind, terminal) && Present(validated, RequiredIds(kind)) &&
                          (Shortened(validated, kind) ==> f.Snapshot? && !FixtureMutated(f)) &&
                          BoundariesKept(validated, f, c, sha);
            if passed then
              Decide(validated, f, c, sha) == Outcome(kind, Some(terminal), Some(disposition), r.evidence, [])
            else !Valid(Decide(validated, f, c, sha).kind)
  {
    assert ArbiterVerdict in BASE;
    DeadGates(validated[ArbiterVerdict]);
    BoundariesExact(validated, f, c, sha);
  }

  /** The closure is a valid success exactly when the plain conjunction holds. */
  lemma SuccessExact(validated: Validated, f: Fixture, c: Capabilities, sha: Manifest -> string)
    requires AllFit(validated)
    ensures Decide(validated, f, c, sha).kind == Success <==> ClosedSuccess(validated, f, c, sha)
    ensures Decide(validated, f, c, sha).kind == Success ==>
              Decide(validated, f, c, sha) ==
              Outcome(Success, Some(ArbiterClosed), Some(Approved), validated[ArbiterVerdict].evidence, [])
  {
    if Present(validated, BASE) {
      DecidedKind(validated, f, c, sha);
      var r := validated[ArbiterVerdict];
      DeadGates(r);
      if r.arbiter == Positive && Present(validated, FULL) { SuccessGates(validated, r); }
    }
  }

  lemma RejectionExact(validated: Validated, f: Fixture, c: Capabilities, sha: Manifest -> string)
    requires AllFit(validated)
    ensures Decide(validated, f, c, sha).kind == Rejection <==> ClosedRejection(validated, f, c, sha)
    ensures Decide(validated, f, c, sha).kind == Rejection ==>
              Decide(validated, f, c, sha) ==
              Outcome(Rejection, Some(ArbiterRejected), Some(Rejected), validated[ArbiterVerdict].evidence, [])
  {
    if Present(validated, BASE) {
      DecidedKind(validated, f, c, sha);
      var r := validated[ArbiterVerdict];
      DeadGates(r);
      OtherGates(validated, r, Rejection, ArbiterRejected);
      assert CheckerVerdict in FULL;
    }
  }

  lemma BlockedExact(validated: Validated, f: Fixture, c: Capabilities, sha: Manifest -> string)
    requires AllFit(validated)
    ensures Decide(validated, f, c, sha).kind == BlockedClosure <==> ClosedBlocked(validated, f, c, sha)
    ensures Decide(validated, f, c, sha).kind == BlockedClosure ==>
              Decide(validated, f, c, sha) ==
              Outcome(BlockedClosure, Some(ArbiterBlocked), Some(BlockedCandidate), validated[ArbiterVerdict].evidence,
                      [])
  {
    if Present(validated, BASE) {
      DecidedKind(validated, f, c, sha);
      var r := validated[ArbiterVerdict];
      DeadGates(r);
      OtherGates(validated, r, BlockedClosure, ArbiterBlocked);
      if f.Snapshot? {
        assert FixtureMutated(f) <==> |f.addedPaths| + |f.modifiedPaths| + |f.deletedPaths| > 0;
      }
    }
  }

  // ----- Why a closure is invalid -----

  ghost predicate VerdictIs(validated: Validated, verdict: Verdict)
    requires AllFit(validated)
  {
    ArbiterVerdict in validated && validated[ArbiterVerdict].arbiter == verdict
  }

  /** The artifacts there are bear out a positive verdict. */
  ghost predicate BearOutSuccess(validated: Validated)
    requires AllFit(validated)
  {
    && (CheckerVerdict in validated ==> validated[CheckerVerdict].checker == Positive)
    && (TestResults in validated ==>
          validated[TestResults].exitCode == 0 && validated[TestResults].failedCount == 0 &&
          validated[TestResults].deterministic && validated[TestResults].allowedByPolicy)
    && (PatchSummary in validated ==>
          (forall code :: code in validated[PatchSummary].exitCodes ==> code == 0) &&
          validated[PatchSummary].unresolvedIssues == [])
    && (FixtureManifest in validated && validated[FixtureManifest].manifest.expectedMutations != [] ==>
          WorkspaceDiff in validated &&
          (validated[WorkspaceDiff].added != [] || validated[WorkspaceDiff].modified != [] ||
           validated[WorkspaceDiff].deleted != []))
    && StageResultAgrees(validated, ArbiterClosed)
  }

  /** The artifacts there are bear out the arbiter's verdict. */
  ghost predicate BearOut(validated: Validated)
    requires AllFit(validated)
  {
    && (VerdictIs(validated, Positive) ==> BearOutSuccess(validated))
    && (VerdictIs(validated, Negative) ==>
          (CheckerVerdict in validated ==> validated[CheckerVerdict].checker != Stuck) &&
          StageResultAgrees(validated, ArbiterRejected))
    && (VerdictIs(validated, Stuck) ==> StageResultAgrees(validated, ArbiterBlocked))
  }

  /** A blocked trial that stopped before its builder and checker artifacts were there. */
  ghost predicate StoppedShort(validated: Validated)
    requires AllFit(validated)
  {
    VerdictIs(validated, Stuck) && !Present(validated, RELAXED)
  }

  ghost predicate Untouched(f: Fixture) {
    f.Snapshot? && f.addedPaths == [] && f.modifiedPaths == [] && f.deletedPaths == []
  }

  /** All that is asked of the artifacts before any boundary is looked at. */
  ghost predicate ArtifactsInOrder(validated: Validated)
    requires AllFit(validated)
  {
    && Present(validated, BASE) && BearOut(validated)
    && (VerdictIs(validated, Stuck) || Present(validated, FULL))
  }

  /** ... and of the workspace, when the trial stopped short. */
  ghost predicate PathInOrder(validated: Validated, f: Fixture)
    requires AllFit(validated)
  {
    ArtifactsInOrder(validated) && (StoppedShort(validated) ==> Untouched(f))
  }

  lemma PositiveGates(validated: Validated, r: Record)
    requires AllFit(validated) && Present(validated, BASE) && ArbiterVerdict in validated
    requires r == validated[ArbiterVerdict] && r.arbiter == Positive
    ensures AnyGateFails(validated, r, Success, ArbiterClosed) <==> !BearOutSuccess(validated)
  {
    assert FixtureManifest in BASE;
    DeadGates(r);
    StageResultExact(validated, ArbiterClosed);
    PatchGate(validated);
    if WorkspaceDiff in validated { MutationExact(validated); }
  }

  lemma PatchGate(validated: Validated)
    requires AllFit(validated)
    ensures CommandProblems(validated, Success) == [] <==>
            (TestResults in validated ==> !TestsFailed(validated[TestResults])) &&
            (PatchSummary in validated ==>
               (forall code :: code in validated[PatchSummary].exitCodes ==> code == 0) &&
               validated[PatchSummary].unresolvedIssues == [])
  {
    if PatchSummary in validated { CodesExact(validated[PatchSummary].exitCodes); }
  }

  lemma CodesExact(codes: seq<int>)
    ensures CommandFailed(codes) <==> exists code :: code in codes && code != 0
  {
    if CommandFailed(codes) {
      var i :| 0 <= i < |codes| && codes[i] != 0;
      assert codes[i] in codes;
    }
    if code :| code in codes && code != 0 {
      var i :| 0 <= i < |codes| && codes[i] == code;
    }
  }

  /** The gates on the artifacts fail exactly when the artifacts do not bear out the verdict. */
  lemma GatesExact(validated: Validated, r: Record)
    requires AllFit(validated) && Present(validated, BASE) && ArbiterVerdict in validated
    requires r == validated[ArbiterVerdict] && r.ArbiterRecord?
    ensures !TerminalPathFails(r, Inferred(r).0)
    ensures AnyGateFails(validated, r, Inferred(r).0, Inferred(r).1) <==> !BearOut(validated)
  {
    DeadGates(r);
    match r.arbiter
    case Positive => PositiveGates(validated, r);
    case Negative => OtherGates(validated, r, Rejection, ArbiterRejected);
    case Stuck => OtherGates(validated, r, BlockedClosure, ArbiterBlocked);
  }

  lemma UntouchedExact(f: Fixture)
    requires f.Snapshot?
    ensures FixtureMutated(f) <==> !Untouched(f)
  {
    assert FixtureMutated(f) <==> |f.addedPaths| + |f.modifiedPaths| + |f.deletedPaths| > 0;
  }

  /** What is decided before any boundary is looked at. */
  lemma DecidedEarly(validated: Validated, f: Fixture, c: Capabilities, sha: Manifest -> string)
    requires AllFit(validated) && !ArtifactsInOrder(validated)
    ensures Decide(validated, f, c, sha) ==
            if !Present(validated, BASE) then Outcome(BadArtifacts, None, None, [], Missing(BASE, validated))
            else if !BearOut(validated) then Invalid(BadArtifacts)
            else Outcome(BadArtifacts, None, None, [], Missing(FULL, validated))
  {
    if Present(validated, BASE) {
      assert ArbiterVerdict in BASE;
      var r := validated[ArbiterVerdict];
      DeadGates(r);
      GatesExact(validated, r);
    }
  }

  /** What the boundaries decide, in their order. */
  lemma DecidedLate(validated: Validated, f: Fixture, c: Capabilities, sha: Manifest -> string)
    requires AllFit(validated) && ArtifactsInOrder(validated)
    ensures var d := Decide(validated, f, c, sha);
            if StoppedShort(validated) && !f.Snapshot? then d == Invalid(BadFixture)
            else if StoppedShort(validated) && !Untouched(f) then d == Invalid(BadArtifacts)
            else if !CapabilityBoundary(c) then d == Invalid(BadCapabilities)
            else if !FixtureBoundary(validated, f, sha) then d == Invalid(BadFixture)
            else if !ContextBoundary(validated) then d == Invalid(BadContext)
            else if !EvidenceBoundary(validated) then d == Invalid(BadArtifacts)
            else Valid(d.kind)
  {
    BoundariesExact(validated, f, c, sha);
    var r := validated[ArbiterVerdict];
    DeadGates(r);
    GatesExact(validated, r);
    if f.Snapshot? { UntouchedExact(f); }
  }

  /** `absent` lists the required ids that are not there, in the required order. */
  ghost predicate Absent(absent: seq<Id>, required: seq<Id>, validated: Validated) {
    && (forall id :: id in absent <==> id in required && id !in validated)
    && forall a, b :: 0 <= a < b < |absent| ==> Before(required, absent[a], absent[b])
  }

  ghost predicate Before(required: seq<Id>, x: Id, y: Id) {
    exists i, j :: 0 <= i < j < |required| && required[i] == x && required[j] == y
  }

  lemma BeforeMore(x: Id, rest: seq<Id>, a: Id, b: Id)
    requires Before(rest, a, b)
    ensures Before([x] + rest, a, b)
  {
    var i, j :| 0 <= i < j < |rest| && rest[i] == a && rest[j] == b;
    assert ([x] + rest)[i + 1] == a && ([x] + rest)[j + 1] == b;
  }

  lemma BeforeFirst(x: Id, rest: seq<Id>, b: Id)
    requires b in rest
    ensures Before([x] + rest, x, b)
  {
    var j :| 0 <= j < |rest| && rest[j] == b;
    assert ([x] + rest)[0] == x && ([x] + rest)[j + 1] == b;
  }

  lemma OneMoreAbsent(x: Id, rest: seq<Id>, m: seq<Id>, validated: Validated)
    requires Absent(m, rest, validated)
    ensures Absent(if x in validated then m else [x] + m, [x] + rest, validated)
  {
    forall a, b | 0 <= a < b < |m| ensures Before([x] + rest, m[a], m[b]) { BeforeMore(x, rest, m[a], m[b]); }
    forall b | 0 <= b < |m| ensures Before([x] + rest, x, m[b]) {
      assert m[b] in m;
      BeforeFirst(x, rest, m[b]);
    }
  }

  lemma {:induction false} MissingExact(required: seq<Id>, validated: Validated)
    ensures Absent(Missing(required, validated), required, validated)
  {
    if required != [] {
      MissingExact(required[1..], validated);
      OneMoreAbsent(required[0], required[1..], Missing(required[1..], validated), validated);
      assert required == [required[0]] + required[1..];
    }
  }

  /** The capability boundary is reported exactly when everything before it holds and it does not. */
  lemma BadCapabilitiesExact(validated: Validated, f: Fixture, c: Capabilities, sha: Manifest -> string)
    requires AllFit(validated)
    ensures Decide(validated, f, c, sha) == Invalid(BadCapabilities) <==>
            PathInOrder(validated, f) && !CapabilityBoundary(c)
    ensures Decide(validated, f, c, sha).kind == BadCapabilities ==>
              Decide(validated, f, c, sha) == Invalid(BadCapabilities)
  {
    if ArtifactsInOrder(validated) {
      DecidedLate(validated, f, c, sha);
    } else {
      DecidedEarly(validated, f, c, sha);
    }
  }

  /** The fixture boundary: the snapshot is malformed where it is needed early, or is the first to fail later. */
  lemma BadFixtureExact(validated: Validated, f: Fixture, c: Capabilities, sha: Manifest -> string)
    requires AllFit(validated)
    ensures Decide(validated, f, c, sha) == Invalid(BadFixture) <==>
            ArtifactsInOrder(validated) &&
            if StoppedShort(validated) && !f.Snapshot? then true
            else (StoppedShort(validated) ==> Untouched(f)) && CapabilityBoundary(c) &&
                 !FixtureBoundary(validated, f, sha)
    ensures Decide(validated, f, c, sha).kind == BadFixture ==> Decide(validated, f, c, sha) == Invalid(BadFixture)
  {
    if ArtifactsInOrder(validated) {
      DecidedLate(validated, f, c, sha);
    } else {
      DecidedEarly(validated, f, c, sha);
    }
  }

  /** The context boundary: only the context and perhaps the evidence are at fault. */
  lemma BadContextExact(validated: Validated, f: Fixture, c: Capabilities, sha: Manifest -> string)
    requires AllFit(validated)
    ensures Decide(validated, f, c, sha) == Invalid(BadContext) <==>
            PathInOrder(validated, f) && CapabilityBoundary(c) && FixtureBoundary(validated, f, sha) &&
            !ContextBoundary(validated)
    ensures Decide(validated, f, c, sha).kind == BadContext ==> Decide(validated, f, c, sha) == Invalid(BadContext)
  {
    if ArtifactsInOrder(validated) {
      DecidedLate(validated, f, c, sha);
    } else {
      DecidedEarly(validated, f, c, sha);
    }
  }

  /** The artifact boundary, and which required artifacts it names as missing. */
  lemma BadArtifactsExact(validated: Validated, f: Fixture, c: Capabilities, sha: Manifest -> string)
    requires AllFit(validated)
    ensures var d := Decide(validated, f, c, sha);
            d.kind == BadArtifacts <==>
            || !ArtifactsInOrder(validated)
            || (StoppedShort(validated) && f.Snapshot? && !Untouched(f))
            || (PathInOrder(validated, f) && CapabilityBoundary(c) && FixtureBoundary(validated, f, sha) &&
                ContextBoundary(validated) && !EvidenceBoundary(validated))
    ensures var d := Decide(validated, f, c, sha);
            d.kind == BadArtifacts ==>
              && d.terminal.None? && d.disposition.None? && d.evidence == []
              && if !Present(validated, BASE) then Absent(d.missing, BASE, validated)
                 else if BearOut(validated) && !ArtifactsInOrder(validated) then Absent(d.missing, FULL, validated)
                 else d.missing == []
  {
    if ArtifactsInOrder(validated) {
      DecidedLate(validated, f, c, sha);
    } else {
      DecidedEarly(validated, f, c, sha);
    }
    MissingExact(BASE, validated);
    MissingExact(FULL, validated);
  }
}
