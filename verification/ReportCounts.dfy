/**
 What the numbers of a report count, by position: which records, which arms, which plans.

 A cell is one arm of one record. Every count of the primary metrics and of the arm and category summaries is
 the number of cells, or of plans, with a plain property.
 */
module ReportCounts {
  import opened Basics
  import opened Reports
  import opened Scorer

  /** The cells with the property. */
  function Cells(records: seq<Record>, p: (Record, Arm) -> bool): set<(nat, Arm)> {
    set i: nat, a: Arm | i < |records| && p(records[i], a) :: (i, a)
  }

  function One(b: bool): nat { if b then 1 else 0 }

  lemma CellsAppend(records: seq<Record>, r: Record, p: (Record, Arm) -> bool)
    ensures |Cells(records + [r], p)| == |Cells(records, p)| + One(p(r, Pi)) + One(p(r, Millforge))
  {
    var n, all := |records|, records + [r];
    var pi := if p(r, Pi) then {(n, Pi)} else {};
    var mf := if p(r, Millforge) then {(n, Millforge)} else {};
    forall c: (nat, Arm) ensures c in Cells(all, p) <==> c in Cells(records, p) || c in pi || c in mf {
      var (i, a) := c;
      if i < n {
        assert all[i] == records[i];
      } else if i == n {
        match a case Pi => case Millforge =>
      }
    }
    assert Cells(all, p) == Cells(records, p) + pi + mf;
    assert Cells(records, p) !! pi && Cells(records, p) + pi !! mf;
  }

  lemma NoCells(p: (Record, Arm) -> bool)
    ensures |Cells([], p)| == 0
  {
    assert Cells([], p) == {};
  }

  lemma Last(records: seq<Record>)
    requires records != []
    ensures records[..|records| - 1] + [records[|records| - 1]] == records
  {
  }

  predicate HasOutcome(r: Record, a: Arm, o: Outcome) { ResultOf(r, a).outcome == o }

  lemma {:induction false} OutcomesCounted(records: seq<Record>, o: Outcome)
    ensures Count(Outcomes(records), o) == |Cells(records, (r, a) => HasOutcome(r, a, o))|
  {
    var p := (r, a) => HasOutcome(r, a, o);
    NoCells(p);
    if records != [] {
      var front, r := records[..|records| - 1], records[|records| - 1];
      OutcomesCounted(front, o);
      Last(records);
      CellsAppend(front, r, p);
      CountTwo(Outcomes(front), r.pi.outcome, r.millforge.outcome, o);
    }
  }

  predicate ArmHasOutcome(r: Record, a: Arm, arm: Arm, o: Outcome) { a == arm && HasOutcome(r, a, o) }

  lemma {:induction false} ArmOutcomesCounted(records: seq<Record>, arm: Arm, o: Outcome)
    ensures Count(ArmOutcomes(records, arm), o) == |Cells(records, (r, a) => ArmHasOutcome(r, a, arm, o))|
  {
    var p := (r, a) => ArmHasOutcome(r, a, arm, o);
    NoCells(p);
    if records != [] {
      var front, r := records[..|records| - 1], records[|records| - 1];
      ArmOutcomesCounted(front, arm, o);
      Last(records);
      CellsAppend(front, r, p);
      CountOne(ArmOutcomes(front, arm), ResultOf(r, arm).outcome, o);
    }
  }

  predicate ArmComplete(r: Record, a: Arm, arm: Arm) { a == arm && ResultOf(r, a).artifactComplete }

  lemma {:induction false} CompleteCounted(records: seq<Record>, arm: Arm)
    ensures CompleteArtifacts(records, arm) == |Cells(records, (r, a) => ArmComplete(r, a, arm))|
  {
    var p := (r, a) => ArmComplete(r, a, arm);
    NoCells(p);
    if records != [] {
      var front, r := records[..|records| - 1], records[|records| - 1];
      CompleteCounted(front, arm);
      Last(records);
      CellsAppend(front, r, p);
    }
  }

  predicate HasFlag(r: Record, a: Arm, flag: Flag) {
    match flag
    case FalseSuccess => ResultOf(r, a).falseSuccess
    case Complete => ResultOf(r, a).artifactComplete
    case Violation => ResultOf(r, a).capabilityViolation
  }

  lemma {:induction false} FlagsCounted(records: seq<Record>, flag: Flag)
    ensures FlagCount(records, flag) == |Cells(records, (r, a) => HasFlag(r, a, flag))|
  {
    var p := (r, a) => HasFlag(r, a, flag);
    NoCells(p);
    if records != [] {
      var front, r := records[..|records| - 1], records[|records| - 1];
      FlagsCounted(front, flag);
      Last(records);
      CellsAppend(front, r, p);
    }
  }

  predicate CategoryHasOutcome(r: Record, a: Arm, c: string, o: Outcome) { r.category == c && HasOutcome(r, a, o) }

  predicate InCategory(r: Record, a: Arm, c: string) { r.category == c }

  lemma {:induction false} CategoryCounted(records: seq<Record>, c: string, o: Outcome)
    ensures Count(CategoryOutcomes(records, c), o) == |Cells(records, (r, a) => CategoryHasOutcome(r, a, c, o))|
    ensures |CategoryOutcomes(records, c)| == |Cells(records, (r, a) => InCategory(r, a, c))|
  {
    var p := (r, a) => CategoryHasOutcome(r, a, c, o);
    var q := (r, a) => InCategory(r, a, c);
    NoCells(p);
    NoCells(q);
    if records != [] {
      var front, r := records[..|records| - 1], records[|records| - 1];
      CategoryCounted(front, c, o);
      Last(records);
      CellsAppend(front, r, p);
      CellsAppend(front, r, q);
      CategoryStep(front, r, c, o);
    }
  }

  // ----- Plans -----

  /** The plans with the property, by position. */
  function Places(plans: seq<Plan>, p: Plan -> bool): set<nat> {
    set i: nat | i < |plans| && p(plans[i])
  }

  lemma PlacesAppend(plans: seq<Plan>, plan: Plan, p: Plan -> bool)
    ensures |Places(plans + [plan], p)| == |Places(plans, p)| + One(p(plan))
  {
    var n, all := |plans|, plans + [plan];
    var more := if p(plan) then {n} else {};
    assert forall i: nat :: i < n ==> all[i] == plans[i];
    assert Places(all, p) == Places(plans, p) + more;
    assert Places(plans, p) !! more;
  }

  predicate PlannedFor(plan: Plan, c: string) { plan.category == c }

  predicate Unrecorded(plan: Plan, hashes: set<string>) { plan.planHash !in hashes }

  lemma {:induction false} PlannedCounted(plans: seq<Plan>, c: string)
    ensures PlannedIn(plans, c) == |Places(plans, plan => PlannedFor(plan, c))|
  {
    var p := plan => PlannedFor(plan, c);
    if plans == [] {
      assert Places(plans, p) == {};
    } else {
      var front, plan := plans[..|plans| - 1], plans[|plans| - 1];
      PlannedCounted(front, c);
      assert plans == front + [plan];
      PlacesAppend(front, plan, p);
    }
  }

  lemma {:induction false} PendingCounted(plans: seq<Plan>, hashes: set<string>)
    ensures PlansWith(plans, hashes) <= |plans|
    ensures |plans| - PlansWith(plans, hashes) == |Places(plans, plan => Unrecorded(plan, hashes))|
  {
    var p := plan => Unrecorded(plan, hashes);
    if plans == [] {
      assert Places(plans, p) == {};
    } else {
      var front, plan := plans[..|plans| - 1], plans[|plans| - 1];
      PendingCounted(front, hashes);
      assert plans == front + [plan];
      PlacesAppend(front, plan, p);
    }
  }

  function HashPlaces(pending: seq<string>, hashes: set<string>): set<nat> {
    set i: nat | i < |pending| && pending[i] in hashes
  }

  lemma {:induction false} ResumedCounted(pending: seq<string>, hashes: set<string>)
    ensures HashesIn(pending, hashes) == |HashPlaces(pending, hashes)|
  {
    if pending == [] {
      assert HashPlaces(pending, hashes) == {};
    } else {
      var n := |pending| - 1;
      var front := pending[..n];
      ResumedCounted(front, hashes);
      var more := if pending[n] in hashes then {n} else {};
      assert HashPlaces(pending, hashes) == HashPlaces(front, hashes) + more;
      assert HashPlaces(front, hashes) !! more;
    }
  }

  /** The pending trials: the plans nothing was recorded of, or those the resume index lists. */
  function PendingPlaces(plans: seq<Plan>, records: seq<Record>, index: Option<ResumeIndex>): set<nat> {
    match index
    case None => Places(plans, plan => Unrecorded(plan, CompletedHashes(records)))
    case Some(i) => HashPlaces(i.pending, PlanHashes(plans))
  }

  lemma PendingExact(plans: seq<Plan>, records: seq<Record>, index: Option<ResumeIndex>)
    ensures PendingTrials(plans, records, index) == |PendingPlaces(plans, records, index)|
  {
    match index
    case None => PendingCounted(plans, CompletedHashes(records));
    case Some(i) => ResumedCounted(i.pending, PlanHashes(plans));
  }

  // ----- The paired comparison -----

  /** The last record of a trial stands at `i`. */
  ghost predicate LastRecord(records: seq<Record>, i: int, trialId: string) {
    0 <= i < |records| && records[i].trialId == trialId &&
    forall j :: i < j < |records| ==> records[j].trialId != trialId
  }

  ghost predicate Recorded(plan: Plan, records: seq<Record>) {
    exists i :: LastRecord(records, i, plan.trialId)
  }

  ghost predicate Succeeded(plan: Plan, records: seq<Record>, arm: Arm) {
    exists i :: LastRecord(records, i, plan.trialId) && ResultOf(records[i], arm).primarySuccess
  }

  lemma {:induction false} RecordIsLast(records: seq<Record>, trialId: string, i: int)
    requires LastRecord(records, i, trialId)
    ensures RecordOf(records, trialId) == Some(records[i])
    decreases |records|
  {
    if i < |records| - 1 { RecordIsLast(records[..|records| - 1], trialId, i); }
  }

  lemma {:induction false} RecordStands(records: seq<Record>, trialId: string) returns (i: int)
    requires RecordOf(records, trialId).Some?
    ensures LastRecord(records, i, trialId)
    decreases |records|
  {
    i := |records| - 1;
    if records[i].trialId != trialId { i := RecordStands(records[..i], trialId); }
  }

  lemma PlanPaired(plan: Plan, records: seq<Record>, arm: Arm)
    ensures RecordOf(records, plan.trialId).Some? <==> Recorded(plan, records)
    ensures Success(RecordOf(records, plan.trialId), arm) == One(Succeeded(plan, records, arm))
  {
    if RecordOf(records, plan.trialId).Some? { var i := RecordStands(records, plan.trialId); }
    forall i | LastRecord(records, i, plan.trialId) ensures RecordOf(records, plan.trialId) == Some(records[i]) {
      RecordIsLast(records, plan.trialId, i);
    }
  }

  lemma {:induction false} PairsCounted(plans: seq<Plan>, records: seq<Record>, arm: Arm)
    ensures PairedCount(plans, records) == |Places(plans, plan => Recorded(plan, records))|
    ensures PairedSuccesses(plans, records, arm) == |Places(plans, plan => Succeeded(plan, records, arm))|
    decreases |plans|
  {
    var p, q := plan => Recorded(plan, records), plan => Succeeded(plan, records, arm);
    if plans == [] {
      assert Places(plans, p) == {} && Places(plans, q) == {};
    } else {
      var front, plan := plans[..|plans| - 1], plans[|plans| - 1];
      PairsCounted(front, records, arm);
      PlanPaired(plan, records, arm);
      assert plans == front + [plan];
      PlacesAppend(front, plan, p);
      PlacesAppend(front, plan, q);
    }
  }

  /** The comparison counts the plans whose last record succeeded, arm by arm, of those that have a record. */
  lemma ComparisonCounted(plans: seq<Plan>, records: seq<Record>)
    ensures var c := Compare(plans, records);
            && c.left == |Places(plans, plan => Succeeded(plan, records, Pi))|
            && c.right == |Places(plans, plan => Succeeded(plan, records, Millforge))|
            && c.paired == |Places(plans, plan => Recorded(plan, records))|
            && c.difference == c.right - c.left
  {
    PairsCounted(plans, records, Pi);
    PairsCounted(plans, records, Millforge);
  }

  // ----- The report -----

  function CountOf(records: seq<Record>, o: Outcome): nat { |Cells(records, (r, a) => HasOutcome(r, a, o))| }

  function FlaggedCells(records: seq<Record>, flag: Flag): nat { |Cells(records, (r, a) => HasFlag(r, a, flag))| }

  /** What a primary metric counts, and out of what. */
  function Meant(id: MetricId, plans: seq<Plan>, records: seq<Record>, index: Option<ResumeIndex>): Metric {
    var appended, planned := 2 * |records|, 2 * |plans|;
    match id
    case Completions => Metric(id, CountOf(records, ValidCompletion), appended)
    case FalseClosures => Metric(id, CountOf(records, FalseClosure), appended)
    case FalseSuccesses => Metric(id, FlaggedCells(records, FalseSuccess), appended)
    case ArtifactsComplete => Metric(id, FlaggedCells(records, Complete), appended)
    case CapabilityViolations => Metric(id, FlaggedCells(records, Violation), appended)
    case RightlyBlocked => Metric(id, CountOf(records, CorrectlyBlocked), appended)
    case WronglyBlocked => Metric(id, CountOf(records, FalseBlocked), appended)
    case InvalidTrials => Metric(id, CountOf(records, InvalidTrial), appended)
    case RuntimeFailures => Metric(id, CountOf(records, RuntimeFailure), planned)
    case ProviderFailures => Metric(id, CountOf(records, ProviderFailure), planned)
    case MissingTrials => Metric(id, |MissingPairs(plans, records)|, |plans|)
    case PendingOnes => Metric(id, |PendingPlaces(plans, records, index)|, |plans|)
    case Incomplete => Metric(id, |PendingPlaces(plans, records, index)|, |plans|)
  }

  lemma OutcomeMetrics(records: seq<Record>)
    ensures forall o :: Count(Outcomes(records), o) == CountOf(records, o)
    ensures forall flag :: FlagCount(records, flag) == FlaggedCells(records, flag)
  {
    forall o ensures Count(Outcomes(records), o) == CountOf(records, o) { OutcomesCounted(records, o); }
    forall flag ensures FlagCount(records, flag) == FlaggedCells(records, flag) { FlagsCounted(records, flag); }
  }

  lemma MeantId(id: MetricId, plans: seq<Plan>, records: seq<Record>, index: Option<ResumeIndex>)
    ensures Meant(id, plans, records, index).id == id
  {
  }

  lemma AppendedExact(plans: seq<Plan>, records: seq<Record>, index: Option<ResumeIndex>)
    ensures AppendedMetrics(records) ==
            [Meant(Completions, plans, records, index), Meant(FalseClosures, plans, records, index),
             Meant(FalseSuccesses, plans, records, index), Meant(ArtifactsComplete, plans, records, index),
             Meant(CapabilityViolations, plans, records, index), Meant(RightlyBlocked, plans, records, index),
             Meant(WronglyBlocked, plans, records, index), Meant(InvalidTrials, plans, records, index)]
  {
    OutcomeMetrics(records);
  }

  lemma PlannedExact(plans: seq<Plan>, records: seq<Record>, index: Option<ResumeIndex>, runtime: nat, provider: nat,
                     missing: nat, pending: nat)
    requires runtime == CountOf(records, RuntimeFailure) && provider == CountOf(records, ProviderFailure)
    requires missing == |MissingPairs(plans, records)| && pending == |PendingPlaces(plans, records, index)|
    ensures PlannedMetrics(|plans|, runtime, provider, missing, pending) ==
            [Meant(RuntimeFailures, plans, records, index), Meant(ProviderFailures, plans, records, index),
             Meant(MissingTrials, plans, records, index), Meant(PendingOnes, plans, records, index),
             Meant(Incomplete, plans, records, index)]
  {
    FailuresMeant(plans, records, index, runtime, provider);
    RestMeant(plans, records, index, missing, pending);
  }

  lemma FailuresMeant(plans: seq<Plan>, records: seq<Record>, index: Option<ResumeIndex>, runtime: nat, provider: nat)
    requires runtime == CountOf(records, RuntimeFailure) && provider == CountOf(records, ProviderFailure)
    ensures Meant(RuntimeFailures, plans, records, index) == Metric(RuntimeFailures, runtime, 2 * |plans|)
    ensures Meant(ProviderFailures, plans, records, index) == Metric(ProviderFailures, provider, 2 * |plans|)
  {
  }

  lemma RestMeant(plans: seq<Plan>, records: seq<Record>, index: Option<ResumeIndex>, missing: nat, pending: nat)
    requires missing == |MissingPairs(plans, records)| && pending == |PendingPlaces(plans, records, index)|
    ensures Meant(MissingTrials, plans, records, index) == Metric(MissingTrials, missing, |plans|)
    ensures Meant(PendingOnes, plans, records, index) == Metric(PendingOnes, pending, |plans|)
    ensures Meant(Incomplete, plans, records, index) == Metric(Incomplete, pending, |plans|)
  {
  }

  /** The metric is one of the report's. */
  ghost predicate Reported(id: MetricId, plans: seq<Plan>, records: seq<Record>, index: Option<ResumeIndex>) {
    Meant(id, plans, records, index) in PrimaryMetrics(plans, records, index)
  }

  lemma PrimaryParts(plans: seq<Plan>, records: seq<Record>, index: Option<ResumeIndex>, planned: seq<Metric>)
    requires planned == PlannedMetrics(|plans|, CountOf(records, RuntimeFailure), CountOf(records, ProviderFailure),
                                       |MissingPairs(plans, records)|, |PendingPlaces(plans, records, index)|)
    ensures PrimaryMetrics(plans, records, index) == AppendedMetrics(records) + planned
  {
    OutcomeMetrics(records);
    PendingExact(plans, records, index);
  }

  lemma PlannedList(plans: seq<Plan>, records: seq<Record>, index: Option<ResumeIndex>) returns (planned: seq<Metric>)
    ensures planned == [Meant(RuntimeFailures, plans, records, index), Meant(ProviderFailures, plans, records, index),
                        Meant(MissingTrials, plans, records, index), Meant(PendingOnes, plans, records, index),
                        Meant(Incomplete, plans, records, index)]
    ensures PrimaryMetrics(plans, records, index) == AppendedMetrics(records) + planned
  {
    var runtime, provider := CountOf(records, RuntimeFailure), CountOf(records, ProviderFailure);
    var missing, pending := |MissingPairs(plans, records)|, |PendingPlaces(plans, records, index)|;
    planned := PlannedMetrics(|plans|, runtime, provider, missing, pending);
    PlannedExact(plans, records, index, runtime, provider, missing, pending);
    PrimaryParts(plans, records, index, planned);
  }

  lemma NothingElseReported(plans: seq<Plan>, records: seq<Record>, index: Option<ResumeIndex>)
    ensures forall m :: m in PrimaryMetrics(plans, records, index) ==> m == Meant(m.id, plans, records, index)
  {
    AppendedExact(plans, records, index);
    var planned := PlannedList(plans, records, index);
    forall m | m in PrimaryMetrics(plans, records, index) ensures m == Meant(m.id, plans, records, index) {
      var id :| m == Meant(id, plans, records, index);
      MeantId(id, plans, records, index);
    }
  }

  /** Every primary metric of the report counts what its id says, out of what it should. */
  lemma PrimaryExact(plans: seq<Plan>, records: seq<Record>, index: Option<ResumeIndex>)
    ensures forall m :: m in PrimaryMetrics(plans, records, index) ==> m == Meant(m.id, plans, records, index)
    ensures forall id :: Reported(id, plans, records, index)
    ensures |PrimaryMetrics(plans, records, index)| == 13
  {
    NothingElseReported(plans, records, index);
    AppendedExact(plans, records, index);
    var planned := PlannedList(plans, records, index);
    forall id ensures Reported(id, plans, records, index) {
      match id
      case RuntimeFailures => assert Meant(id, plans, records, index) in planned;
      case ProviderFailures => assert Meant(id, plans, records, index) in planned;
      case MissingTrials => assert Meant(id, plans, records, index) in planned;
      case PendingOnes => assert Meant(id, plans, records, index) in planned;
      case Incomplete => assert Meant(id, plans, records, index) in planned;
      case _ => assert Meant(id, plans, records, index) in AppendedMetrics(records);
    }
  }

  /** The numbers of one arm count the cells of that arm. */
  lemma ArmExact(plans: seq<Plan>, records: seq<Record>, arm: Arm)
    ensures var s := SummaryOfArm(plans, records, arm);
            && s.completions == |Cells(records, (r, a) => ArmHasOutcome(r, a, arm, ValidCompletion))|
            && s.invalid == |Cells(records, (r, a) => ArmHasOutcome(r, a, arm, InvalidTrial))|
            && s.runtimeFailures == |Cells(records, (r, a) => ArmHasOutcome(r, a, arm, RuntimeFailure))|
            && s.providerFailures == |Cells(records, (r, a) => ArmHasOutcome(r, a, arm, ProviderFailure))|
            && s.artifactComplete == |Cells(records, (r, a) => ArmComplete(r, a, arm))|
            && s.arm == arm && s.appended == |records| && s.planned == |plans|
  {
    ArmOutcomesCounted(records, arm, ValidCompletion);
    ArmOutcomesCounted(records, arm, InvalidTrial);
    ArmOutcomesCounted(records, arm, RuntimeFailure);
    ArmOutcomesCounted(records, arm, ProviderFailure);
    CompleteCounted(records, arm);
  }

  /** The numbers of one category count its cells and its plans. */
  lemma CategoryExact(plans: seq<Plan>, records: seq<Record>, c: string)
    ensures var s := SummaryOfCategory(plans, records, c);
            && s.completions == |Cells(records, (r, a) => CategoryHasOutcome(r, a, c, ValidCompletion))|
            && s.invalid == |Cells(records, (r, a) => CategoryHasOutcome(r, a, c, InvalidTrial))|
            && s.appended == |Cells(records, (r, a) => InCategory(r, a, c))|
            && s.planned == |Places(plans, plan => PlannedFor(plan, c))|
            && s.incomplete == (if s.appended / 2 < s.planned then s.planned - s.appended / 2 else 0)
            && s.category == c
  {
    CategoryCounted(records, c, ValidCompletion);
    CategoryCounted(records, c, InvalidTrial);
    PlannedCounted(plans, c);
  }
}
