/** The offline scorer: one trial classified by precedence, and the contract its result must satisfy. */
module Scorer {
  import opened Basics
  import opened Workflow

  datatype Outcome =
    | ValidCompletion | FalseClosure | CorrectlyBlocked | FalseBlocked
    | RuntimeFailure | ProviderFailure | InvalidTrial

  datatype Label =
    | VisibleCheckFailed | HiddenCheckFailed | ArtifactMissing | ArtifactMalformed | ExpectedMutationAbsent
    | UnauthorizedMutation | CapabilityViolation | FalseSuccessTerminal | ProviderDefect | InfrastructureDefect

  datatype Fixture = Fixture(id: string, hash: string, noSourceChange: bool, expectedOutcome: Outcome)

  datatype Check = Check(id: string, passed: bool)

  /** A terminal result given as text; text that names none is none. An empty explanation is no explanation. */
  datatype Input = Input(
    fixtureId: string,
    fixtureHash: string,
    required: seq<string>,
    provided: seq<string>,
    malformed: seq<string>,
    terminals: seq<Option<Terminal>>,
    capabilityViolation: bool,
    visible: seq<Check>,
    hidden: seq<Check>,
    mutationPresent: bool,
    unauthorizedMutation: bool,
    evidenceValid: bool,
    runtimeFailure: bool,
    providerFailure: bool,
    explanation: string)

  datatype Result = Result(
    outcome: Outcome,
    primarySuccess: bool,
    falseClosure: bool,
    falseSuccess: bool,
    correctlyBlocked: bool,
    capabilityViolation: bool,
    artifactComplete: bool,
    missing: seq<string>,
    malformed: seq<string>,
    labels: seq<Label>,
    explanation: string)

  // ----- The parts of the verdict -----

  predicate AnyFailed(checks: seq<Check>) {
    exists i :: 0 <= i < |checks| && !checks[i].passed
  }

  function MissingArtifacts(required: seq<string>, provided: seq<string>): (r: seq<string>)
    ensures forall id :: id in r <==> id in required && id !in provided
  {
    if required == [] then []
    else (if required[0] in provided then [] else [required[0]]) + MissingArtifacts(required[1..], provided)
  }

  predicate SuccessTerminal(t: Option<Terminal>) {
    t == Some(PlanReady) || t == Some(BuilderComplete) || t == Some(CheckerApproved) || t == Some(ArbiterClosed)
  }

  predicate BlockedTerminal(t: Option<Terminal>) {
    t == Some(PlanBlocked) || t == Some(BuilderBlocked) || t == Some(CheckerBlocked) || t == Some(ArbiterBlocked)
  }

  predicate ClaimsSuccess(x: Input) { exists i :: 0 <= i < |x.terminals| && SuccessTerminal(x.terminals[i]) }

  predicate ClaimsClosure(x: Input) { Some(ArbiterClosed) in x.terminals }

  predicate ClaimsBlocked(x: Input) { exists i :: 0 <= i < |x.terminals| && BlockedTerminal(x.terminals[i]) }

  /** What is wrong with the evidence of a trial. */
  datatype Defects = Defects(
    visibleFailed: bool,
    hiddenFailed: bool,
    missing: seq<string>,
    malformed: seq<string>,
    mutationAbsent: bool,
    unauthorizedMutation: bool,
    capabilityViolation: bool,
    invalidEvidence: bool)

  function DefectsOf(f: Fixture, x: Input): Defects {
    Defects(AnyFailed(x.visible), AnyFailed(x.hidden), MissingArtifacts(x.required, x.provided), x.malformed,
            !f.noSourceChange && !x.mutationPresent, x.unauthorizedMutation, x.capabilityViolation, !x.evidenceValid)
  }

  predicate AnyDefect(d: Defects) {
    || d.visibleFailed || d.hiddenFailed || d.missing != [] || d.malformed != []
    || d.mutationAbsent || d.unauthorizedMutation || d.capabilityViolation || d.invalidEvidence
  }

  /** `_success_terminal_unsupported`. */
  predicate SuccessUnsupported(x: Input, d: Defects) {
    ClaimsSuccess(x) && (AnyDefect(d) || x.runtimeFailure || x.providerFailure)
  }

  function When(condition: bool, tag: Label): seq<Label> {
    if condition then [tag] else []
  }

  /** The labels for what the checks and the artifacts show. */
  function EvidenceLabels(d: Defects): seq<Label> {
    When(d.visibleFailed, VisibleCheckFailed) + When(d.hiddenFailed, HiddenCheckFailed)
    + When(d.missing != [], ArtifactMissing) + When(d.malformed != [], ArtifactMalformed)
  }

  /** The labels for what the trial did. */
  function ConductLabels(d: Defects): seq<Label> {
    When(d.mutationAbsent, ExpectedMutationAbsent) + When(d.unauthorizedMutation, UnauthorizedMutation)
    + When(d.capabilityViolation, CapabilityViolation)
  }

  /** The failure labels, in their fixed order. */
  function LabelsOf(d: Defects, successUnsupported: bool, providerFailure: bool): seq<Label> {
    EvidenceLabels(d) + ConductLabels(d)
    + When(successUnsupported || d.invalidEvidence, FalseSuccessTerminal) + When(providerFailure, ProviderDefect)
  }

  /** One conditional `labels.append`. */
  method Note(labels: seq<Label>, condition: bool, tag: Label) returns (r: seq<Label>)
    ensures r == labels + When(condition, tag)
  {
    r := labels;
    if condition {
      r := r + [tag];
    }
  }

  lemma Regroup(s: seq<Label>, a: seq<Label>, b: seq<Label>, c: seq<Label>)
    ensures s + a + b + c == s + (a + b + c)
  {
  }

  /** `_eval_failure_labels`: labels are appended one by one. */
  method FailureLabels(d: Defects, successUnsupported: bool, providerFailure: bool) returns (labels: seq<Label>)
    ensures labels == LabelsOf(d, successUnsupported, providerFailure)
  {
    labels := Note([], d.visibleFailed, VisibleCheckFailed);
    labels := Note(labels, d.hiddenFailed, HiddenCheckFailed);
    labels := Note(labels, d.missing != [], ArtifactMissing);
    labels := Note(labels, d.malformed != [], ArtifactMalformed);
    assert labels == EvidenceLabels(d);
    Regroup(labels, When(d.mutationAbsent, ExpectedMutationAbsent),
            When(d.unauthorizedMutation, UnauthorizedMutation), When(d.capabilityViolation, CapabilityViolation));
    labels := Note(labels, d.mutationAbsent, ExpectedMutationAbsent);
    labels := Note(labels, d.unauthorizedMutation, UnauthorizedMutation);
    labels := Note(labels, d.capabilityViolation, CapabilityViolation);
    assert labels == EvidenceLabels(d) + ConductLabels(d);
    labels := Note(labels, successUnsupported || d.invalidEvidence, FalseSuccessTerminal);
    labels := Note(labels, providerFailure, ProviderDefect);
  }

  // ----- The scorer -----

  function InvalidResult(x: Input, explanation: string): Result {
    Result(InvalidTrial, false, false, false, false, x.capabilityViolation, true, [], [], [InfrastructureDefect],
           explanation)
  }

  /** The outcome, by precedence. */
  function OutcomeOf(f: Fixture, x: Input, falseClosure: bool): Outcome {
    if x.providerFailure then ProviderFailure
    else if x.runtimeFailure then RuntimeFailure
    else if falseClosure then FalseClosure
    else if ClaimsBlocked(x) && f.expectedOutcome == CorrectlyBlocked then CorrectlyBlocked
    else if ClaimsBlocked(x) then FalseBlocked
    else ValidCompletion
  }

  /** `score_eval_trial`, without its diagnostic texts. */
  function Score(f: Fixture, x: Input): Result {
    if x.fixtureId != f.id then InvalidResult(x, "fixture_id")
    else if x.fixtureHash != f.hash then InvalidResult(x, "fixture_hash")
    else if x.explanation != "" then InvalidResult(x, x.explanation)
    else
      var d := DefectsOf(f, x);
      var labels := LabelsOf(d, SuccessUnsupported(x, d), x.providerFailure);
      var unsupported := FalseSuccessTerminal in labels;
      var falseClosure := ClaimsClosure(x) && AnyDefect(d);
      var outcome := OutcomeOf(f, x, falseClosure);
      Result(outcome, outcome == ValidCompletion && !AnyDefect(d) && !unsupported, falseClosure, unsupported,
             outcome == CorrectlyBlocked, d.capabilityViolation,
             d.missing == [] && d.malformed == [], d.missing, d.malformed,
             labels, "")
  }

  /** `EvalScorerResult._scorer_result_valid`, without its hash checks. */
  predicate ResultValid(r: Result) {
    var evidence := || r.falseClosure || r.falseSuccess || r.correctlyBlocked || r.capabilityViolation
                    || !r.artifactComplete || r.missing != [] || r.malformed != [] || r.labels != [];
    && (r.outcome == InvalidTrial <==> r.explanation != "")
    && (r.outcome == ValidCompletion ==> (r.primarySuccess <==> !evidence) && !r.falseClosure)
    && (r.falseClosure && CapabilityViolation in r.labels ==> r.capabilityViolation)
  }

  // ----- Properties -----

  lemma WhenIn(condition: bool, given: Label, tag: Label)
    ensures tag in When(condition, given) <==> condition && tag == given
  {
  }

  lemma EvidenceLabelIn(d: Defects, tag: Label)
    ensures tag in EvidenceLabels(d) <==>
            || (tag == VisibleCheckFailed && d.visibleFailed) || (tag == HiddenCheckFailed && d.hiddenFailed)
            || (tag == ArtifactMissing && d.missing != []) || (tag == ArtifactMalformed && d.malformed != [])
  {
    WhenIn(d.visibleFailed, VisibleCheckFailed, tag);
    WhenIn(d.hiddenFailed, HiddenCheckFailed, tag);
    WhenIn(d.missing != [], ArtifactMissing, tag);
    WhenIn(d.malformed != [], ArtifactMalformed, tag);
  }

  lemma ConductLabelIn(d: Defects, tag: Label)
    ensures tag in ConductLabels(d) <==>
            || (tag == ExpectedMutationAbsent && d.mutationAbsent)
            || (tag == UnauthorizedMutation && d.unauthorizedMutation)
            || (tag == CapabilityViolation && d.capabilityViolation)
  {
    WhenIn(d.mutationAbsent, ExpectedMutationAbsent, tag);
    WhenIn(d.unauthorizedMutation, UnauthorizedMutation, tag);
    WhenIn(d.capabilityViolation, CapabilityViolation, tag);
  }

  /** Which labels are given, exactly. */
  lemma LabelsExact(d: Defects, unsupported: bool, providerFailure: bool, tag: Label)
    ensures tag in LabelsOf(d, unsupported, providerFailure) <==>
            match tag
            case VisibleCheckFailed => d.visibleFailed
            case HiddenCheckFailed => d.hiddenFailed
            case ArtifactMissing => d.missing != []
            case ArtifactMalformed => d.malformed != []
            case ExpectedMutationAbsent => d.mutationAbsent
            case UnauthorizedMutation => d.unauthorizedMutation
            case CapabilityViolation => d.capabilityViolation
            case FalseSuccessTerminal => unsupported || d.invalidEvidence
            case ProviderDefect => providerFailure
            case InfrastructureDefect => false
  {
    EvidenceLabelIn(d, tag);
    ConductLabelIn(d, tag);
    WhenIn(unsupported || d.invalidEvidence, FalseSuccessTerminal, tag);
    WhenIn(providerFailure, ProviderDefect, tag);
    assert tag in LabelsOf(d, unsupported, providerFailure) <==>
           || tag in EvidenceLabels(d) || tag in ConductLabels(d)
           || tag in When(unsupported || d.invalidEvidence, FalseSuccessTerminal)
           || tag in When(providerFailure, ProviderDefect);
  }

  /** No label is given exactly when nothing is wrong. */
  lemma NoLabels(d: Defects, unsupported: bool, providerFailure: bool)
    ensures LabelsOf(d, unsupported, providerFailure) == [] <==> !AnyDefect(d) && !unsupported && !providerFailure
  {
  }

  /** A trial whose input can be scored: identities match and nothing invalidates it. */
  predicate Scorable(f: Fixture, x: Input) {
    x.fixtureId == f.id && x.fixtureHash == f.hash && x.explanation == ""
  }

  /** Primary success holds exactly for a scorable trial without defect, failure or blocked terminal. */
  lemma PrimarySuccessExact(f: Fixture, x: Input)
    ensures Score(f, x).primarySuccess <==>
            Scorable(f, x) && !AnyDefect(DefectsOf(f, x)) && !x.runtimeFailure && !x.providerFailure &&
            !ClaimsBlocked(x)
  {
    var d := DefectsOf(f, x);
    LabelsExact(d, SuccessUnsupported(x, d), x.providerFailure, FalseSuccessTerminal);
  }

  /** What a scored trial's result says of its evidence. */
  lemma ScoredFlags(f: Fixture, x: Input)
    requires Scorable(f, x)
    ensures var r, d := Score(f, x), DefectsOf(f, x);
            (r.labels == [] <==> !AnyDefect(d) && !SuccessUnsupported(x, d) && !x.providerFailure) &&
            (r.falseSuccess <==> SuccessUnsupported(x, d) || d.invalidEvidence) &&
            (CapabilityViolation in r.labels ==> r.capabilityViolation)
  {
    var d := DefectsOf(f, x);
    NoLabels(d, SuccessUnsupported(x, d), x.providerFailure);
    LabelsExact(d, SuccessUnsupported(x, d), x.providerFailure, FalseSuccessTerminal);
    LabelsExact(d, SuccessUnsupported(x, d), x.providerFailure, CapabilityViolation);
  }

  /** The scorer's result always satisfies its own validator. */
  lemma ScoreIsValid(f: Fixture, x: Input)
    ensures ResultValid(Score(f, x))
  {
    if Scorable(f, x) {
      ScoredFlags(f, x);
      OutcomeExact(f, x);
      PrimarySuccessExact(f, x);
    }
  }

  /** Each outcome is reached in exactly one way. */
  lemma OutcomeExact(f: Fixture, x: Input)
    ensures var closure := ClaimsClosure(x) && AnyDefect(DefectsOf(f, x));
            var running := Scorable(f, x) && !x.providerFailure && !x.runtimeFailure;
            match Score(f, x).outcome
            case InvalidTrial => !Scorable(f, x)
            case ProviderFailure => Scorable(f, x) && x.providerFailure
            case RuntimeFailure => Scorable(f, x) && !x.providerFailure && x.runtimeFailure
            case FalseClosure => running && closure
            case CorrectlyBlocked => running && !closure && ClaimsBlocked(x) && f.expectedOutcome == CorrectlyBlocked
            case FalseBlocked => running && !closure && ClaimsBlocked(x) && f.expectedOutcome != CorrectlyBlocked
            case ValidCompletion => running && !closure && !ClaimsBlocked(x)
  {
  }

  /** Some check of the list did not pass. */
  ghost predicate Fails(checks: seq<Check>) {
    exists c :: c in checks && !c.passed
  }

  /** Something is wrong with the evidence, read off the input. */
  ghost predicate Defective(f: Fixture, x: Input) {
    || Fails(x.visible) || Fails(x.hidden) || (exists id :: id in x.required && id !in x.provided)
    || (exists id :: id in x.malformed) || (!f.noSourceChange && !x.mutationPresent)
    || x.unauthorizedMutation || x.capabilityViolation || !x.evidenceValid
  }

  lemma FailsExact(checks: seq<Check>)
    ensures AnyFailed(checks) <==> Fails(checks)
  {
    if Fails(checks) {
      var c :| c in checks && !c.passed;
      var i :| 0 <= i < |checks| && checks[i] == c;
    }
  }

  lemma DefectiveExact(f: Fixture, x: Input)
    ensures AnyDefect(DefectsOf(f, x)) <==> Defective(f, x)
  {
    FailsExact(x.visible);
    FailsExact(x.hidden);
    var missing := MissingArtifacts(x.required, x.provided);
    if missing != [] { assert missing[0] in missing; }
    if x.malformed != [] { assert x.malformed[0] in x.malformed; }
  }

  /** The flags of the result, read off the fixture and the input. */
  lemma FlagsExact(f: Fixture, x: Input)
    ensures var r := Score(f, x);
            && (r.falseClosure <==> Scorable(f, x) && Some(ArbiterClosed) in x.terminals && Defective(f, x))
            && (r.correctlyBlocked <==>
                  Scorable(f, x) && f.expectedOutcome == CorrectlyBlocked && ClaimsBlocked(x) &&
                  !x.providerFailure && !x.runtimeFailure && !(ClaimsClosure(x) && Defective(f, x)))
            && (r.artifactComplete <==>
                  (Scorable(f, x) ==> (forall id :: id in x.required ==> id in x.provided) && x.malformed == []))
            && r.capabilityViolation == x.capabilityViolation
            && (r.falseSuccess <==>
                  Scorable(f, x) &&
                  (!x.evidenceValid ||
                   (ClaimsSuccess(x) && (Defective(f, x) || x.runtimeFailure || x.providerFailure))))
            && (Scorable(f, x) ==> r.malformed == x.malformed && r.explanation == "")
  {
    DefectiveExact(f, x);
    OutcomeExact(f, x);
    if Scorable(f, x) {
      ScoredFlags(f, x);
      var missing := MissingArtifacts(x.required, x.provided);
      if missing != [] { assert missing[0] in missing; }
    }
  }

  /** What a label stands for, read off the fixture and the input. */
  ghost predicate Earned(f: Fixture, x: Input, tag: Label) {
    match tag
    case VisibleCheckFailed => Fails(x.visible)
    case HiddenCheckFailed => Fails(x.hidden)
    case ArtifactMissing => exists id :: id in x.required && id !in x.provided
    case ArtifactMalformed => x.malformed != []
    case ExpectedMutationAbsent => !f.noSourceChange && !x.mutationPresent
    case UnauthorizedMutation => x.unauthorizedMutation
    case CapabilityViolation => x.capabilityViolation
    case FalseSuccessTerminal =>
      !x.evidenceValid || (ClaimsSuccess(x) && (Defective(f, x) || x.runtimeFailure || x.providerFailure))
    case ProviderDefect => x.providerFailure
    case InfrastructureDefect => false
  }

  lemma DefectsMean(f: Fixture, x: Input, d: Defects)
    requires d == DefectsOf(f, x)
    ensures (d.visibleFailed <==> Fails(x.visible)) && (d.hiddenFailed <==> Fails(x.hidden))
    ensures d.missing != [] <==> exists id :: id in x.required && id !in x.provided
    ensures d.malformed == x.malformed && (d.mutationAbsent <==> !f.noSourceChange && !x.mutationPresent)
    ensures d.unauthorizedMutation == x.unauthorizedMutation && d.capabilityViolation == x.capabilityViolation
    ensures d.invalidEvidence <==> !x.evidenceValid
  {
    FailsExact(x.visible);
    FailsExact(x.hidden);
    if d.missing != [] { assert d.missing[0] in d.missing; }
  }

  lemma UnsupportedMeans(f: Fixture, x: Input, d: Defects)
    requires d == DefectsOf(f, x)
    ensures SuccessUnsupported(x, d) <==> ClaimsSuccess(x) && (Defective(f, x) || x.runtimeFailure || x.providerFailure)
  {
    DefectiveExact(f, x);
  }

  lemma LabelsOfResult(f: Fixture, x: Input, d: Defects)
    requires Scorable(f, x) && d == DefectsOf(f, x)
    ensures Score(f, x).labels == LabelsOf(d, SuccessUnsupported(x, d), x.providerFailure)
  {
  }

  lemma EarnedLabels(f: Fixture, x: Input, d: Defects, unsupported: bool, tag: Label)
    requires d == DefectsOf(f, x) && unsupported == SuccessUnsupported(x, d)
    ensures tag in LabelsOf(d, unsupported, x.providerFailure) <==> Earned(f, x, tag)
  {
    DefectsMean(f, x, d);
    UnsupportedMeans(f, x, d);
    LabelsExact(d, unsupported, x.providerFailure, tag);
  }

  /** Each label of the result is given exactly when it is earned; an unscorable trial has one label of its own. */
  lemma ResultLabels(f: Fixture, x: Input, tag: Label)
    ensures tag in Score(f, x).labels <==> if Scorable(f, x) then Earned(f, x, tag) else tag == InfrastructureDefect
  {
    if Scorable(f, x) {
      var d := DefectsOf(f, x);
      EarnedLabels(f, x, d, SuccessUnsupported(x, d), tag);
      LabelsOfResult(f, x, d);
    }
  }

  /** The candidate is neither rejected nor blocked. */
  predicate GoesOn(d: Decision) {
    d.Completed? || (d.Continue? && (d.disposition == NoCandidate || d.disposition == Approved))
  }

  /** Work stops, or goes to the arbiter, without a candidate that was judged. */
  predicate StopsBlocked(d: Decision) {
    || (d.Blocked? && (d.disposition == NoCandidate || d.disposition == BlockedCandidate))
    || (d.Continue? && d.disposition == BlockedCandidate)
  }

  /** The terminals the scorer takes for success and for a block are those the workflow treats as such. */
  lemma ClaimsFollowWorkflow(stage: Stage, t: Terminal, builder: int, checker: int)
    requires Legal(stage, t)
    ensures SuccessTerminal(Some(t)) <==> GoesOn(Transition(stage, t, builder, checker))
    ensures BlockedTerminal(Some(t)) <==> StopsBlocked(Transition(stage, t, builder, checker))
  {
  }

  // ----- The order of lists -----

  /** The place of a label in the taxonomy. */
  function Place(tag: Label): nat {
    match tag
    case VisibleCheckFailed => 0
    case HiddenCheckFailed => 1
    case ArtifactMissing => 2
    case ArtifactMalformed => 3
    case ExpectedMutationAbsent => 4
    case UnauthorizedMutation => 5
    case CapabilityViolation => 6
    case FalseSuccessTerminal => 7
    case ProviderDefect => 8
    case InfrastructureDefect => 9
  }

  /** Labels strictly ascending, all placed from `low` up to but not including `high`. */
  ghost predicate Ordered(labels: seq<Label>, low: nat, high: nat) {
    && (forall i :: 0 <= i < |labels| ==> low <= Place(labels[i]) < high)
    && forall i, j :: 0 <= i < j < |labels| ==> Place(labels[i]) < Place(labels[j])
  }

  lemma OrderedBoth(a: seq<Label>, b: seq<Label>, low: nat, middle: nat, high: nat)
    requires low <= middle <= high && Ordered(a, low, middle) && Ordered(b, middle, high)
    ensures Ordered(a + b, low, high)
  {
  }

  lemma OrderedWhen(condition: bool, tag: Label)
    ensures Ordered(When(condition, tag), Place(tag), Place(tag) + 1)
  {
  }

  lemma EvidenceOrdered(d: Defects)
    ensures Ordered(EvidenceLabels(d), 0, 4)
  {
    var a, b := When(d.visibleFailed, VisibleCheckFailed), When(d.hiddenFailed, HiddenCheckFailed);
    var c := When(d.missing != [], ArtifactMissing);
    OrderedWhen(d.visibleFailed, VisibleCheckFailed);
    OrderedWhen(d.hiddenFailed, HiddenCheckFailed);
    OrderedWhen(d.missing != [], ArtifactMissing);
    OrderedWhen(d.malformed != [], ArtifactMalformed);
    OrderedBoth(a, b, 0, 1, 2);
    OrderedBoth(a + b, c, 0, 2, 3);
    OrderedBoth(a + b + c, When(d.malformed != [], ArtifactMalformed), 0, 3, 4);
  }

  lemma ConductOrdered(d: Defects)
    ensures Ordered(ConductLabels(d), 4, 7)
  {
    var a, b := When(d.mutationAbsent, ExpectedMutationAbsent), When(d.unauthorizedMutation, UnauthorizedMutation);
    OrderedWhen(d.mutationAbsent, ExpectedMutationAbsent);
    OrderedWhen(d.unauthorizedMutation, UnauthorizedMutation);
    OrderedWhen(d.capabilityViolation, CapabilityViolation);
    OrderedBoth(a, b, 4, 5, 6);
    OrderedBoth(a + b, When(d.capabilityViolation, CapabilityViolation), 4, 6, 7);
  }

  /** The labels stand in the order of the taxonomy, each at most once. */
  lemma LabelsOrdered(d: Defects, unsupported: bool, providerFailure: bool)
    ensures Ordered(LabelsOf(d, unsupported, providerFailure), 0, 9)
  {
    var a := EvidenceLabels(d) + ConductLabels(d);
    var b := When(unsupported || d.invalidEvidence, FalseSuccessTerminal);
    EvidenceOrdered(d);
    ConductOrdered(d);
    OrderedWhen(unsupported || d.invalidEvidence, FalseSuccessTerminal);
    OrderedWhen(providerFailure, ProviderDefect);
    OrderedBoth(EvidenceLabels(d), ConductLabels(d), 0, 4, 7);
    OrderedBoth(a, b, 0, 7, 8);
    OrderedBoth(a + b, When(providerFailure, ProviderDefect), 0, 8, 9);
  }

  ghost predicate Increasing(places: seq<nat>) {
    forall m, n :: 0 <= m < n < |places| ==> places[m] < places[n]
  }

  /** `missing` holds what stands at the places. */
  ghost predicate StandAt(required: seq<string>, missing: seq<string>, places: seq<nat>) {
    |places| == |missing| && forall m :: 0 <= m < |places| ==> IsAt(required, places[m], missing[m])
  }

  predicate IsAt(required: seq<string>, k: nat, id: string) { k < |required| && required[k] == id }

  ghost predicate Absentees(required: seq<string>, provided: seq<string>, places: seq<nat>) {
    forall k: nat :: k < |required| ==> (k in places <==> required[k] !in provided)
  }

  /** The missing artifacts are the required ones not provided, at their places in the required order. */
  ghost predicate MissingAt(required: seq<string>, provided: seq<string>, missing: seq<string>, places: seq<nat>) {
    Increasing(places) && StandAt(required, missing, places) && Absentees(required, provided, places)
  }

  function Shifted(places: seq<nat>): (r: seq<nat>)
    ensures |r| == |places| && forall i :: 0 <= i < |r| ==> r[i] == places[i] + 1
  {
    seq(|places|, i requires 0 <= i < |places| => places[i] + 1)
  }

  lemma ShiftedIn(places: seq<nat>, k: nat)
    ensures k + 1 in Shifted(places) <==> k in places
  {
    var shifted := Shifted(places);
    if k + 1 in shifted {
      var m :| 0 <= m < |shifted| && shifted[m] == k + 1;
      assert places[m] == k;
    }
    if k in places {
      var m :| 0 <= m < |places| && places[m] == k;
      assert shifted[m] == k + 1;
    }
  }

  lemma ShiftedStand(x: string, rest: seq<string>, missing: seq<string>, places: seq<nat>)
    requires Increasing(places) && StandAt(rest, missing, places)
    ensures Increasing(Shifted(places)) && StandAt([x] + rest, missing, Shifted(places))
    ensures Increasing([0] + Shifted(places)) && StandAt([x] + rest, [x] + missing, [0] + Shifted(places))
  {
    var shifted, all := Shifted(places), [x] + rest;
    forall m | 0 <= m < |shifted| ensures IsAt(all, shifted[m], missing[m]) {
      assert IsAt(rest, places[m], missing[m]);
      assert all[places[m] + 1] == rest[places[m]];
    }
    assert IsAt(all, 0, x);
  }

  lemma ShiftedAbsentees(x: string, rest: seq<string>, provided: seq<string>, places: seq<nat>)
    requires Absentees(rest, provided, places)
    ensures Absentees([x] + rest, provided, if x in provided then Shifted(places) else [0] + Shifted(places))
  {
    var all, shifted := [x] + rest, Shifted(places);
    var more := if x in provided then shifted else [0] + shifted;
    forall k: nat | k < |all| ensures k in more <==> all[k] !in provided {
      ZeroFirst(shifted, k);
      if k > 0 {
        ShiftedIn(places, k - 1);
        assert all[k] == rest[k - 1];
      }
    }
  }

  lemma ZeroFirst(shifted: seq<nat>, k: nat)
    ensures k in [0] + shifted <==> k == 0 || k in shifted
  {
  }

  lemma {:induction false} MissingInOrder(required: seq<string>, provided: seq<string>) returns (places: seq<nat>)
    ensures MissingAt(required, provided, MissingArtifacts(required, provided), places)
  {
    if required == [] {
      places := [];
    } else {
      var x, rest := required[0], required[1..];
      var missing := MissingArtifacts(rest, provided);
      var inner := MissingInOrder(rest, provided);
      assert required == [x] + rest;
      ShiftedStand(x, rest, missing, inner);
      ShiftedAbsentees(x, rest, provided, inner);
      if x in provided {
        places := Shifted(inner);
        assert [] + missing == missing;
      } else {
        places := [0] + Shifted(inner);
      }
    }
  }

  /** The missing artifacts of a scored trial are listed in the required order. */
  lemma ResultMissing(f: Fixture, x: Input)
    requires Scorable(f, x)
    ensures exists places: seq<nat> :: MissingAt(x.required, x.provided, Score(f, x).missing, places)
  {
    var places := MissingInOrder(x.required, x.provided);
    assert Score(f, x).missing == MissingArtifacts(x.required, x.provided);
    assert MissingAt(x.required, x.provided, Score(f, x).missing, places);
  }

  // ----- Worse evidence never helps -----

  /** The same checks, some of which may have gone from passing to failing. */
  ghost predicate ChecksNoBetter(a: seq<Check>, b: seq<Check>) {
    |a| == |b| && forall i :: 0 <= i < |a| ==> b[i].id == a[i].id && (b[i].passed ==> a[i].passed)
  }

  /** `y` is `x` with evidence that is nowhere better: nothing fixed, provided, validated or withdrawn. */
  ghost predicate NoBetter(x: Input, y: Input) {
    && y.fixtureId == x.fixtureId && y.fixtureHash == x.fixtureHash && (y.explanation == "" ==> x.explanation == "")
    && ChecksNoBetter(x.visible, y.visible) && ChecksNoBetter(x.hidden, y.hidden)
    && (forall id :: id in x.required ==> id in y.required) && (forall id :: id in y.provided ==> id in x.provided)
    && (forall id :: id in x.malformed ==> id in y.malformed)
    && (forall t :: t in x.terminals ==> t in y.terminals)
    && (y.mutationPresent ==> x.mutationPresent) && (y.evidenceValid ==> x.evidenceValid)
    && (x.unauthorizedMutation ==> y.unauthorizedMutation) && (x.capabilityViolation ==> y.capabilityViolation)
    && (x.runtimeFailure ==> y.runtimeFailure) && (x.providerFailure ==> y.providerFailure)
  }

  lemma FailedStays(a: seq<Check>, b: seq<Check>)
    requires ChecksNoBetter(a, b) && AnyFailed(a)
    ensures AnyFailed(b)
  {
    var i :| 0 <= i < |a| && !a[i].passed;
    assert !b[i].passed;
  }

  lemma MissingStays(x: Input, y: Input)
    requires (forall id :: id in x.required ==> id in y.required) &&
             (forall id :: id in y.provided ==> id in x.provided)
    requires MissingArtifacts(x.required, x.provided) != []
    ensures MissingArtifacts(y.required, y.provided) != []
  {
    var id := MissingArtifacts(x.required, x.provided)[0];
    assert id in MissingArtifacts(x.required, x.provided);
    assert id in MissingArtifacts(y.required, y.provided);
  }

  lemma BlockedStays(x: Input, y: Input)
    requires (forall t :: t in x.terminals ==> t in y.terminals) && ClaimsBlocked(x)
    ensures ClaimsBlocked(y)
  {
    var i :| 0 <= i < |x.terminals| && BlockedTerminal(x.terminals[i]);
    assert x.terminals[i] in y.terminals;
    var j :| 0 <= j < |y.terminals| && y.terminals[j] == x.terminals[i];
  }

  lemma DefectStays(f: Fixture, x: Input, y: Input)
    requires NoBetter(x, y) && AnyDefect(DefectsOf(f, x))
    ensures AnyDefect(DefectsOf(f, y))
  {
    if AnyFailed(x.visible) { FailedStays(x.visible, y.visible); }
    if AnyFailed(x.hidden) { FailedStays(x.hidden, y.hidden); }
    if MissingArtifacts(x.required, x.provided) != [] { MissingStays(x, y); }
    if x.malformed != [] { assert x.malformed[0] in y.malformed; }
  }

  /** Making any evidence worse, such as failing a check that passed, never creates primary success. */
  lemma WorseNeverSucceeds(f: Fixture, x: Input, y: Input)
    requires NoBetter(x, y) && Score(f, y).primarySuccess
    ensures Score(f, x).primarySuccess
  {
    PrimarySuccessExact(f, x);
    PrimarySuccessExact(f, y);
    if AnyDefect(DefectsOf(f, x)) { DefectStays(f, x, y); }
    if ClaimsBlocked(x) { BlockedStays(x, y); }
  }
}
