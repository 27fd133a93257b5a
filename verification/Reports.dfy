/**
 Aggregating trial records into a report: outcome counts, per-arm and per-category summaries, paired
 comparisons and pending trials, and what these numbers conserve.
 */
module Reports {
  import opened Basics
  import opened Ordering
  import opened Scorer

  // ----- Inputs -----

  /** What a report reads from the scorer's result of one arm. */
  datatype ArmResult = ArmResult(
    outcome: Outcome, primarySuccess: bool, falseSuccess: bool, artifactComplete: bool, capabilityViolation: bool)

  datatype Arm = Pi | Millforge

  /**
   One record: exactly one result of each arm. `campaign` stands for the campaign's hashes, `pair` for
   the fixture id and trial index, `identity` for the snapshot and arm order it was made with.
   */
  datatype Record = Record(
    trialId: string,
    planHash: string,
    recordHash: string,
    campaign: string,
    pair: string,
    identity: string,
    category: string,
    pi: ArmResult,
    millforge: ArmResult)

  datatype Plan = Plan(trialId: string, planHash: string, campaign: string, pair: string, identity: string,
                       category: string)

  datatype ResumeIndex = ResumeIndex(campaign: string, completed: seq<string>, pending: seq<string>)

  /** The last plan listed under a trial id. */
  function PlanOf(plans: seq<Plan>, trialId: string): (r: Option<Plan>)
    ensures r.Some? ==> r.value in plans && r.value.trialId == trialId
    ensures r.None? ==> forall p :: p in plans ==> p.trialId != trialId
  {
    if plans == [] then None
    else
      var last := plans[|plans| - 1];
      assert plans == plans[..|plans| - 1] + [last];
      if last.trialId == trialId then Some(last) else PlanOf(plans[..|plans| - 1], trialId)
  }

  predicate DistinctTrials(plans: seq<Plan>) {
    forall i, j :: 0 <= i < j < |plans| ==> plans[i].trialId != plans[j].trialId
  }

  /** The record was made from the plan of its trial, in this campaign. */
  predicate RecordMatches(campaign: string, plans: seq<Plan>, r: Record) {
    var plan := PlanOf(plans, r.trialId);
    plan.Some? && r.campaign == campaign && r.planHash == plan.value.planHash
    && r.pair == plan.value.pair && r.identity == plan.value.identity
  }

  function PlanHashes(plans: seq<Plan>): (s: set<string>)
    ensures forall h :: h in s <==> exists p :: p in plans && p.planHash == h
  {
    set p | p in plans :: p.planHash
  }

  function CompletedHashes(records: seq<Record>): (s: set<string>)
    ensures forall h :: h in s <==> exists r :: r in records && r.planHash == h
  {
    set r | r in records :: r.planHash
  }

  function RecordHashes(records: seq<Record>): (s: set<string>)
    ensures forall h :: h in s <==> exists r :: r in records && r.recordHash == h
  {
    set r | r in records :: r.recordHash
  }

  predicate ResumeMatches(campaign: string, plans: seq<Plan>, records: seq<Record>, index: ResumeIndex) {
    && index.campaign == campaign
    && (forall i :: 0 <= i < |index.completed| ==> index.completed[i] in RecordHashes(records))
    && (forall i :: 0 <= i < |index.pending| ==> index.pending[i] in PlanHashes(plans))
    && (forall i :: 0 <= i < |index.pending| ==> index.pending[i] !in CompletedHashes(records))
    && CompletedHashes(records) <= PlanHashes(plans)
  }

  ghost predicate InputsValid(campaign: string, plans: seq<Plan>, records: seq<Record>, index: Option<ResumeIndex>) {
    && plans != [] && (forall p :: p in plans ==> p.campaign == campaign) && DistinctTrials(plans)
    && (forall r :: r in records ==> RecordMatches(campaign, plans, r))
    && (index.Some? ==> ResumeMatches(campaign, plans, records, index.value))
  }

  /** `_validate_report_inputs`. */
  method ValidateInputs(campaign: string, plans: seq<Plan>, records: seq<Record>, index: Option<ResumeIndex>)
    returns (ok: bool)
    ensures ok <==> InputsValid(campaign, plans, records, index)
  {
    if plans == [] {
      return false;
    }
    for i := 0 to |plans|
      invariant forall p :: p in plans[..i] ==> p.campaign == campaign
    {
      assert plans[..i + 1] == plans[..i] + [plans[i]];
      if plans[i].campaign != campaign {
        assert plans[i] in plans;
        return false;
      }
    }
    assert plans[..|plans|] == plans;
    if !DistinctTrials(plans) {
      return false;
    }
    for i := 0 to |records|
      invariant forall r :: r in records[..i] ==> RecordMatches(campaign, plans, r)
    {
      assert records[..i + 1] == records[..i] + [records[i]];
      if !RecordMatches(campaign, plans, records[i]) {
        assert records[i] in records;
        return false;
      }
    }
    assert records[..|records|] == records;
    return index.None? || ResumeMatches(campaign, plans, records, index.value);
  }

  // ----- Outcome counts -----

  function Outcomes(records: seq<Record>): (r: seq<Outcome>)
    ensures |r| == 2 * |records|
  {
    if records == [] then []
    else
      Outcomes(records[..|records| - 1]) +
      [records[|records| - 1].pi.outcome, records[|records| - 1].millforge.outcome]
  }

  function ResultOf(r: Record, arm: Arm): ArmResult {
    match arm
    case Pi => r.pi
    case Millforge => r.millforge
  }

  function ArmOutcomes(records: seq<Record>, arm: Arm): (r: seq<Outcome>)
    ensures |r| == |records|
  {
    if records == [] then []
    else ArmOutcomes(records[..|records| - 1], arm) + [ResultOf(records[|records| - 1], arm).outcome]
  }

  /** `outcomes.count(o)`. */
  function Count(outcomes: seq<Outcome>, o: Outcome): (n: nat)
    ensures n <= |outcomes|
  {
    if outcomes == [] then 0
    else Count(outcomes[..|outcomes| - 1], o) + if outcomes[|outcomes| - 1] == o then 1 else 0
  }

  lemma CountOne(outcomes: seq<Outcome>, x: Outcome, o: Outcome)
    ensures Count(outcomes + [x], o) == Count(outcomes, o) + if x == o then 1 else 0
  {
    assert (outcomes + [x])[..|outcomes|] == outcomes;
  }

  lemma CountTwo(outcomes: seq<Outcome>, x: Outcome, y: Outcome, o: Outcome)
    ensures Count(outcomes + [x, y], o) == Count(outcomes, o) + (if x == o then 1 else 0) + (if y == o then 1 else 0)
  {
    assert outcomes + [x, y] == outcomes + [x] + [y];
    CountOne(outcomes, x, o);
    CountOne(outcomes + [x], y, o);
  }

  function SevenCounts(outcomes: seq<Outcome>): nat {
    Count(outcomes, ValidCompletion) + Count(outcomes, FalseClosure) + Count(outcomes, CorrectlyBlocked)
    + Count(outcomes, FalseBlocked) + Count(outcomes, RuntimeFailure) + Count(outcomes, ProviderFailure)
    + Count(outcomes, InvalidTrial)
  }

  lemma {:induction false} SevenCountsCover(outcomes: seq<Outcome>)
    ensures SevenCounts(outcomes) == |outcomes|
  {
    if outcomes != [] {
      var front, x := outcomes[..|outcomes| - 1], outcomes[|outcomes| - 1];
      SevenCountsCover(front);
    }
  }

  /** The seven outcome counts of a campaign add up to two for every record. */
  lemma OutcomesConserved(records: seq<Record>)
    ensures SevenCounts(Outcomes(records)) == 2 * |records|
  {
    SevenCountsCover(Outcomes(records));
  }

  // ----- Arms -----

  /** The counts of one arm, and the denominators they are given against. */
  datatype ArmSummary = ArmSummary(
    arm: Arm, completions: nat, invalid: nat, runtimeFailures: nat, providerFailures: nat, artifactComplete: nat,
    appended: nat, planned: nat)

  function CompleteArtifacts(records: seq<Record>, arm: Arm): (n: nat)
    ensures n <= |records|
  {
    if records == [] then 0
    else
      CompleteArtifacts(records[..|records| - 1], arm) +
      if ResultOf(records[|records| - 1], arm).artifactComplete then 1 else 0
  }

  function SummaryOfArm(plans: seq<Plan>, records: seq<Record>, arm: Arm): ArmSummary {
    var outcomes := ArmOutcomes(records, arm);
    ArmSummary(arm, Count(outcomes, ValidCompletion), Count(outcomes, InvalidTrial), Count(outcomes, RuntimeFailure),
               Count(outcomes, ProviderFailure), CompleteArtifacts(records, arm), |outcomes|, |plans|)
  }

  const ARMS: seq<Arm> := [Pi, Millforge]

  /** `_arm_summaries`. */
  method ArmSummaries(plans: seq<Plan>, records: seq<Record>) returns (summaries: seq<ArmSummary>)
    ensures summaries == [SummaryOfArm(plans, records, Pi), SummaryOfArm(plans, records, Millforge)]
  {
    summaries := [];
    for i := 0 to |ARMS|
      invariant |summaries| == i && forall j :: 0 <= j < i ==> summaries[j] == SummaryOfArm(plans, records, ARMS[j])
    {
      var outcomes: seq<Outcome> := [];
      var complete := 0;
      for k := 0 to |records|
        invariant outcomes == ArmOutcomes(records[..k], ARMS[i]) && complete == CompleteArtifacts(records[..k], ARMS[i])
      {
        assert records[..k + 1][..k] == records[..k];
        outcomes := outcomes + [ResultOf(records[k], ARMS[i]).outcome];
        complete := complete + if ResultOf(records[k], ARMS[i]).artifactComplete then 1 else 0;
      }
      assert records[..|records|] == records;
      summaries := summaries + [ArmSummary(ARMS[i], Count(outcomes, ValidCompletion), Count(outcomes, InvalidTrial),
                                           Count(outcomes, RuntimeFailure), Count(outcomes, ProviderFailure), complete,
                                           |outcomes|, |plans|)];
    }
  }

  lemma {:induction false} ArmsSplit(records: seq<Record>, o: Outcome)
    ensures Count(Outcomes(records), o) ==
            Count(ArmOutcomes(records, Pi), o) + Count(ArmOutcomes(records, Millforge), o)
  {
    if records != [] {
      var front, last := records[..|records| - 1], records[|records| - 1];
      ArmsSplit(front, o);
      CountTwo(Outcomes(front), last.pi.outcome, last.millforge.outcome, o);
      CountOne(ArmOutcomes(front, Pi), last.pi.outcome, o);
      CountOne(ArmOutcomes(front, Millforge), last.millforge.outcome, o);
    }
  }

  /** The two arms' completion, invalid and appended counts add up to the campaign's. */
  lemma ArmsConserved(plans: seq<Plan>, records: seq<Record>)
    ensures var pi, mf := SummaryOfArm(plans, records, Pi), SummaryOfArm(plans, records, Millforge);
            pi.completions + mf.completions == Count(Outcomes(records), ValidCompletion) &&
            pi.invalid + mf.invalid == Count(Outcomes(records), InvalidTrial) &&
            pi.runtimeFailures + mf.runtimeFailures == Count(Outcomes(records), RuntimeFailure) &&
            pi.providerFailures + mf.providerFailures == Count(Outcomes(records), ProviderFailure) &&
            pi.appended + mf.appended == 2 * |records|
  {
    ArmsSplit(records, ValidCompletion);
    ArmsSplit(records, InvalidTrial);
    ArmsSplit(records, RuntimeFailure);
    ArmsSplit(records, ProviderFailure);
  }

  // ----- Categories -----

  datatype CategorySummary = CategorySummary(
    category: string, completions: nat, invalid: nat, incomplete: nat, appended: nat, planned: nat)

  function CategoryOutcomes(records: seq<Record>, c: string): seq<Outcome> {
    if records == [] then []
    else
      CategoryOutcomes(records[..|records| - 1], c) +
      if records[|records| - 1].category == c then
        [records[|records| - 1].pi.outcome, records[|records| - 1].millforge.outcome]
      else []
  }

  function PlannedIn(plans: seq<Plan>, c: string): nat {
    if plans == [] then 0 else PlannedIn(plans[..|plans| - 1], c) + if plans[|plans| - 1].category == c then 1 else 0
  }

  function SummaryOfCategory(plans: seq<Plan>, records: seq<Record>, c: string): CategorySummary {
    var outcomes := CategoryOutcomes(records, c);
    var planned := PlannedIn(plans, c);
    CategorySummary(c, Count(outcomes, ValidCompletion), Count(outcomes, InvalidTrial),
                    if planned <= |outcomes| / 2 then 0 else planned - |outcomes| / 2, |outcomes|, planned)
  }

  /** The categories of the plans and of the records. */
  ghost predicate Categories(plans: seq<Plan>, records: seq<Record>, c: string) {
    (exists p :: p in plans && p.category == c) || (exists r :: r in records && r.category == c)
  }

  ghost predicate Filed(byCategory: map<string, seq<Outcome>>, plans: seq<Plan>, records: seq<Record>) {
    && (forall c :: c in byCategory <==> Categories(plans, records, c))
    && (forall c :: c in byCategory ==> byCategory[c] == CategoryOutcomes(records, c))
  }

  lemma {:induction false} NoOutcomes(records: seq<Record>, c: string)
    requires forall r :: r in records ==> r.category != c
    ensures CategoryOutcomes(records, c) == []
  {
    if records != [] { NoOutcomes(records[..|records| - 1], c); }
  }

  lemma FileOne(byCategory: map<string, seq<Outcome>>, plans: seq<Plan>, records: seq<Record>, r: Record,
                before: seq<Outcome>)
    requires Filed(byCategory, plans, records)
    requires before == if r.category in byCategory then byCategory[r.category] else []
    ensures Filed(byCategory[r.category := before + [r.pi.outcome, r.millforge.outcome]], plans, records + [r])
  {
    assert (records + [r])[..|records|] == records;
    forall c ensures Categories(plans, records + [r], c) <==> Categories(plans, records, c) || c == r.category {
      assert Categories(plans, records, c) ==> Categories(plans, records + [r], c);
    }
    if r.category !in byCategory {
      forall x | x in records ensures x.category != r.category { assert Categories(plans, records, x.category); }
      NoOutcomes(records, r.category);
    }
  }

  /** Every planned category, without outcomes yet. */
  method PlannedCategories(plans: seq<Plan>) returns (byCategory: map<string, seq<Outcome>>)
    ensures Filed(byCategory, plans, [])
  {
    byCategory := map p | p in plans :: p.category := [];
  }

  /** The dict of outcomes by category, filled record by record. */
  method OutcomesByCategory(plans: seq<Plan>, records: seq<Record>) returns (byCategory: map<string, seq<Outcome>>)
    ensures forall c :: c in byCategory <==> Categories(plans, records, c)
    ensures forall c :: c in byCategory ==> byCategory[c] == CategoryOutcomes(records, c)
  {
    byCategory := PlannedCategories(plans);
    for i := 0 to |records|
      invariant Filed(byCategory, plans, records[..i])
    {
      var r := records[i];
      var before := if r.category in byCategory then byCategory[r.category] else [];
      FileOne(byCategory, plans, records[..i], r, before);
      assert records[..i + 1] == records[..i] + [r];
      byCategory := byCategory[r.category := before + [r.pi.outcome, r.millforge.outcome]];
    }
    assert records[..|records|] == records;
  }

  /** `_category_summaries`. */
  method CategorySummaries(plans: seq<Plan>, records: seq<Record>)
    returns (summaries: seq<CategorySummary>, names: seq<string>)
    ensures Ascending(names, Codes) && forall c :: c in names <==> Categories(plans, records, c)
    ensures |summaries| == |names| && forall i :: 0 <= i < |names| ==>
            summaries[i] == SummaryOfCategory(plans, records, names[i])
  {
    var byCategory := OutcomesByCategory(plans, records);
    names := SortedSet(byCategory.Keys);
    summaries := [];
    for i := 0 to |names|
      invariant |summaries| == i && forall j :: 0 <= j < i ==>
                summaries[j] == SummaryOfCategory(plans, records, names[j])
    {
      var c := names[i];
      assert c in names;
      var outcomes := byCategory[c];
      var planned := PlannedIn(plans, c);
      summaries := summaries + [CategorySummary(c, Count(outcomes, ValidCompletion), Count(outcomes, InvalidTrial),
                                                if planned <= |outcomes| / 2 then 0 else planned - |outcomes| / 2,
                                                |outcomes|, planned)];
    }
  }

  /** A count summed over a list of categories. */
  function Summed(names: seq<string>, records: seq<Record>, o: Outcome): nat {
    if names == [] then 0 else Count(CategoryOutcomes(records, names[0]), o) + Summed(names[1..], records, o)
  }

  function SummedAppended(names: seq<string>, records: seq<Record>): nat {
    if names == [] then 0 else |CategoryOutcomes(records, names[0])| + SummedAppended(names[1..], records)
  }

  function Hits(r: Record, o: Outcome): nat {
    (if r.pi.outcome == o then 1 else 0) + (if r.millforge.outcome == o then 1 else 0)
  }

  lemma CategoryStep(records: seq<Record>, r: Record, c: string, o: Outcome)
    ensures Count(CategoryOutcomes(records + [r], c), o) ==
            Count(CategoryOutcomes(records, c), o) + if r.category == c then Hits(r, o) else 0
    ensures |CategoryOutcomes(records + [r], c)| == |CategoryOutcomes(records, c)| + if r.category == c then 2 else 0
  {
    assert (records + [r])[..|records|] == records;
    if r.category == c {
      CountTwo(CategoryOutcomes(records, c), r.pi.outcome, r.millforge.outcome, o);
    } else {
      assert CategoryOutcomes(records, c) + [] == CategoryOutcomes(records, c);
    }
  }

  /** One more record counts in exactly one of the listed categories, its own. */
  lemma {:induction false} SummedStep(names: seq<string>, records: seq<Record>, r: Record, o: Outcome)
    requires Distinct(names)
    ensures Summed(names, records + [r], o) == Summed(names, records, o) + if r.category in names then Hits(r, o) else 0
    ensures SummedAppended(names, records + [r]) ==
            SummedAppended(names, records) + if r.category in names then 2 else 0
  {
    if names != [] {
      CategoryStep(records, r, names[0], o);
      SummedStep(names[1..], records, r, o);
      assert names == [names[0]] + names[1..];
    }
  }

  lemma {:induction false} SummedEmpty(names: seq<string>, o: Outcome)
    ensures Summed(names, [], o) == 0 && SummedAppended(names, []) == 0
  {
    if names != [] { SummedEmpty(names[1..], o); }
  }

  /** Counts by category add up to the campaign's, when the listed categories cover every record. */
  lemma {:induction false} CategoriesConserved(names: seq<string>, records: seq<Record>, o: Outcome)
    requires Distinct(names) && forall r :: r in records ==> r.category in names
    ensures Summed(names, records, o) == Count(Outcomes(records), o)
    ensures SummedAppended(names, records) == 2 * |records|
  {
    if records == [] {
      SummedEmpty(names, o);
    } else {
      var front, last := records[..|records| - 1], records[|records| - 1];
      assert records == front + [last];
      CategoriesConserved(names, front, o);
      SummedStep(names, front, last, o);
      CountTwo(Outcomes(front), last.pi.outcome, last.millforge.outcome, o);
    }
  }

  /** The categories a report lists count every record, each once. */
  lemma ReportedCategoriesConserved(plans: seq<Plan>, records: seq<Record>, names: seq<string>, o: Outcome)
    requires Ascending(names, Codes) && forall c :: c in names <==> Categories(plans, records, c)
    ensures Summed(names, records, o) == Count(Outcomes(records), o) && SummedAppended(names, records) == 2 * |records|
  {
    assert Distinct(names) by {
      forall i, j | 0 <= i < j < |names| ensures names[i] != names[j] {
        LessIrreflexive(Codes(names[i]));
      }
    }
    forall r | r in records ensures r.category in names { assert Categories(plans, records, r.category); }
    CategoriesConserved(names, records, o);
  }

  // ----- Pending trials and pairs -----

  /** How many plans have a hash among the given ones. */
  function PlansWith(plans: seq<Plan>, hashes: set<string>): (n: nat)
    ensures n <= |plans|
  {
    if plans == [] then 0
    else PlansWith(plans[..|plans| - 1], hashes) + if plans[|plans| - 1].planHash in hashes then 1 else 0
  }

  function HashesIn(list: seq<string>, hashes: set<string>): nat {
    if list == [] then 0
    else HashesIn(list[..|list| - 1], hashes) + if list[|list| - 1] in hashes then 1 else 0
  }

  /** `_pending_trial_count`. */
  function PendingTrials(plans: seq<Plan>, records: seq<Record>, index: Option<ResumeIndex>): nat {
    match index
    case None => |plans| - PlansWith(plans, CompletedHashes(records))
    case Some(i) => HashesIn(i.pending, PlanHashes(plans))
  }

  ghost predicate DistinctHashes(plans: seq<Plan>) {
    forall i, j :: 0 <= i < j < |plans| ==> plans[i].planHash != plans[j].planHash
  }

  ghost predicate OnePerTrial(records: seq<Record>) {
    forall i, j :: 0 <= i < j < |records| ==> records[i].trialId != records[j].trialId
  }

  lemma LastHash(plans: seq<Plan>)
    requires DistinctHashes(plans) && plans != []
    ensures var front, h := plans[..|plans| - 1], plans[|plans| - 1].planHash;
            DistinctHashes(front) && h !in PlanHashes(front) && PlanHashes(plans) == PlanHashes(front) + {h}
  {
    var front, last := plans[..|plans| - 1], plans[|plans| - 1];
    assert plans == front + [last];
    forall p | p in front ensures p.planHash != last.planHash {
      var i :| 0 <= i < |front| && front[i] == p;
      assert plans[i].planHash != plans[|plans| - 1].planHash;
    }
  }

  /** One more hash, that of exactly one plan, counts one more plan. */
  lemma {:induction false} OneMorePlan(plans: seq<Plan>, hashes: set<string>, h: string)
    requires DistinctHashes(plans) && h !in hashes
    ensures PlansWith(plans, hashes + {h}) == PlansWith(plans, hashes) + if h in PlanHashes(plans) then 1 else 0
  {
    if plans != [] {
      LastHash(plans);
      OneMorePlan(plans[..|plans| - 1], hashes, h);
    }
  }

  /** Plans with different hashes are of different trials, so records of different trials have different hashes. */
  lemma HashTellsTrial(campaign: string, plans: seq<Plan>, a: Record, b: Record)
    requires DistinctHashes(plans) && RecordMatches(campaign, plans, a) && RecordMatches(campaign, plans, b)
    requires a.trialId != b.trialId
    ensures a.planHash != b.planHash
  {
    var p, q := PlanOf(plans, a.trialId).value, PlanOf(plans, b.trialId).value;
    var i :| 0 <= i < |plans| && plans[i] == p;
    var j :| 0 <= j < |plans| && plans[j] == q;
    assert i != j;
  }

  lemma {:induction false} CompletedPlans(campaign: string, plans: seq<Plan>, records: seq<Record>)
    requires DistinctHashes(plans) && OnePerTrial(records)
    requires forall r :: r in records ==> RecordMatches(campaign, plans, r)
    ensures PlansWith(plans, CompletedHashes(records)) == |records|
  {
    if records == [] {
      assert CompletedHashes(records) == {};
      NoPlans(plans);
    } else {
      var front, last := records[..|records| - 1], records[|records| - 1];
      assert records == front + [last];
      CompletedPlans(campaign, plans, front);
      forall r | r in front ensures r.planHash != last.planHash {
        var i :| 0 <= i < |front| && front[i] == r;
        assert records[i].trialId != records[|records| - 1].trialId;
        HashTellsTrial(campaign, plans, r, last);
      }
      assert CompletedHashes(records) == CompletedHashes(front) + {last.planHash};
      OneMorePlan(plans, CompletedHashes(front), last.planHash);
    }
  }

  lemma {:induction false} NoPlans(plans: seq<Plan>)
    ensures PlansWith(plans, {}) == 0
  {
    if plans != [] { NoPlans(plans[..|plans| - 1]); }
  }

  /** Without a resume index, pending trials and records together are the plans. */
  lemma PendingConserved(campaign: string, plans: seq<Plan>, records: seq<Record>)
    requires InputsValid(campaign, plans, records, None) && DistinctHashes(plans) && OnePerTrial(records)
    ensures PendingTrials(plans, records, None) + |records| == |plans|
  {
    CompletedPlans(campaign, plans, records);
  }

  lemma {:induction false} DisjointPlans(plans: seq<Plan>, a: set<string>, b: set<string>)
    requires a !! b
    ensures PlansWith(plans, a) + PlansWith(plans, b) <= |plans|
  {
    if plans != [] { DisjointPlans(plans[..|plans| - 1], a, b); }
  }

  lemma {:induction false} ListedPlans(plans: seq<Plan>, list: seq<string>)
    requires DistinctHashes(plans) && forall i, j :: 0 <= i < j < |list| ==> list[i] != list[j]
    ensures HashesIn(list, PlanHashes(plans)) == PlansWith(plans, set h | h in list)
  {
    if list == [] {
      assert (set h | h in list) == {};
      NoPlans(plans);
    } else {
      var front, last := list[..|list| - 1], list[|list| - 1];
      assert list == front + [last];
      ListedPlans(plans, front);
      var before := set h | h in front;
      assert (set h | h in list) == before + {last};
      OneMorePlan(plans, before, last);
    }
  }

  /**
   With a resume index, whose own contract keeps its pending hashes distinct, pending trials and records
   never exceed the plans.
   */
  lemma ResumedPendingBounded(campaign: string, plans: seq<Plan>, records: seq<Record>, index: ResumeIndex)
    requires InputsValid(campaign, plans, records, Some(index)) && DistinctHashes(plans) && OnePerTrial(records)
    requires Distinct(index.pending)
    ensures PendingTrials(plans, records, Some(index)) + |records| <= |plans|
  {
    CompletedPlans(campaign, plans, records);
    ListedPlans(plans, index.pending);
    var pending := set h | h in index.pending;
    forall h | h in pending ensures h !in CompletedHashes(records) {
      var i :| 0 <= i < |index.pending| && index.pending[i] == h;
    }
    DisjointPlans(plans, pending, CompletedHashes(records));
  }

  // ----- Paired comparison -----

  /** The last record of a trial. */
  function RecordOf(records: seq<Record>, trialId: string): (r: Option<Record>)
    ensures r.Some? ==> r.value in records && r.value.trialId == trialId
  {
    if records == [] then None
    else if records[|records| - 1].trialId == trialId then Some(records[|records| - 1])
    else RecordOf(records[..|records| - 1], trialId)
  }

  function Success(r: Option<Record>, arm: Arm): nat {
    if r.Some? && ResultOf(r.value, arm).primarySuccess then 1 else 0
  }

  /** The records of the planned trials that have one, plan by plan: how many, and how many succeed on an arm. */
  function PairedCount(plans: seq<Plan>, records: seq<Record>): nat {
    if plans == [] then 0
    else
      PairedCount(plans[..|plans| - 1], records) +
      if RecordOf(records, plans[|plans| - 1].trialId).Some? then 1 else 0
  }

  function PairedSuccesses(plans: seq<Plan>, records: seq<Record>, arm: Arm): nat {
    if plans == [] then 0
    else
      PairedSuccesses(plans[..|plans| - 1], records, arm) +
      Success(RecordOf(records, plans[|plans| - 1].trialId), arm)
  }

  datatype PairedComparison = PairedComparison(left: nat, right: nat, paired: nat, difference: int)

  /** `_paired_comparisons`. */
  function Compare(plans: seq<Plan>, records: seq<Record>): PairedComparison {
    var left, right := PairedSuccesses(plans, records, Pi), PairedSuccesses(plans, records, Millforge);
    PairedComparison(left, right, PairedCount(plans, records), right - left)
  }

  function Successes(records: seq<Record>, arm: Arm): nat {
    if records == [] then 0
    else
      Successes(records[..|records| - 1], arm) +
      if ResultOf(records[|records| - 1], arm).primarySuccess then 1 else 0
  }

  /** A record of a new trial is paired with exactly one plan. */
  lemma {:induction false} OneMorePair(plans: seq<Plan>, records: seq<Record>, r: Record, arm: Arm)
    requires DistinctTrials(plans) && RecordOf(records, r.trialId).None?
    ensures PairedCount(plans, records + [r]) ==
            PairedCount(plans, records) + if PlanOf(plans, r.trialId).Some? then 1 else 0
    ensures PairedSuccesses(plans, records + [r], arm) ==
            PairedSuccesses(plans, records, arm) + if PlanOf(plans, r.trialId).Some? then Success(Some(r), arm) else 0
  {
    if plans != [] {
      var front, last := plans[..|plans| - 1], plans[|plans| - 1];
      OneMorePair(front, records, r, arm);
      assert (records + [r])[..|records|] == records;
      if last.trialId == r.trialId {
        forall p | p in front ensures p.trialId != r.trialId {
          var i :| 0 <= i < |front| && front[i] == p;
          assert plans[i].trialId != plans[|plans| - 1].trialId;
        }
        assert PlanOf(front, r.trialId).None?;
      }
    }
  }

  lemma {:induction false} NoPairs(plans: seq<Plan>, arm: Arm)
    ensures PairedCount(plans, []) == 0 && PairedSuccesses(plans, [], arm) == 0
  {
    if plans != [] { NoPairs(plans[..|plans| - 1], arm); }
  }

  /** The last of records with one per trial is of a trial no other record has. */
  lemma NewTrial(records: seq<Record>)
    requires OnePerTrial(records) && records != []
    ensures RecordOf(records[..|records| - 1], records[|records| - 1].trialId).None?
  {
    var front := records[..|records| - 1];
    assert forall r :: r in front ==> exists i :: 0 <= i < |front| && records[i] == r;
  }

  /** With one record per trial, every record is paired: the comparison counts all of them, each once. */
  lemma {:induction false} PairsConserved(campaign: string, plans: seq<Plan>, records: seq<Record>, arm: Arm)
    requires DistinctTrials(plans) && OnePerTrial(records)
    requires forall r :: r in records ==> RecordMatches(campaign, plans, r)
    ensures PairedCount(plans, records) == |records|
    ensures PairedSuccesses(plans, records, arm) == Successes(records, arm)
  {
    if records == [] {
      NoPairs(plans, arm);
    } else {
      var front, last := records[..|records| - 1], records[|records| - 1];
      assert records == front + [last];
      PairsConserved(campaign, plans, front, arm);
      NewTrial(records);
      assert RecordMatches(campaign, plans, last);
      OneMorePair(plans, front, last, arm);
    }
  }

  /** The paired comparison is about all records, and its difference is that of the arms' successes. */
  lemma ComparisonExact(campaign: string, plans: seq<Plan>, records: seq<Record>)
    requires InputsValid(campaign, plans, records, None) && OnePerTrial(records)
    ensures Compare(plans, records) ==
            PairedComparison(Successes(records, Pi), Successes(records, Millforge), |records|,
                             Successes(records, Millforge) - Successes(records, Pi))
  {
    PairsConserved(campaign, plans, records, Pi);
    PairsConserved(campaign, plans, records, Millforge);
  }

  // ----- Missing pairs -----

  function RecordedPairs(records: seq<Record>): set<string> {
    set r | r in records :: r.pair
  }

  function PlannedPairs(plans: seq<Plan>): set<string> {
    set p | p in plans :: p.pair
  }

  /** `_missing_pair_keys`. */
  function MissingPairs(plans: seq<Plan>, records: seq<Record>): set<string> {
    PlannedPairs(plans) - RecordedPairs(records)
  }

  ghost predicate DistinctPairs(plans: seq<Plan>) {
    forall i, j :: 0 <= i < j < |plans| ==> plans[i].pair != plans[j].pair
  }

  lemma {:induction false} PlannedPairsSize(plans: seq<Plan>)
    ensures |PlannedPairs(plans)| <= |plans|
    ensures DistinctPairs(plans) ==> |PlannedPairs(plans)| == |plans|
  {
    if plans == [] {
      assert PlannedPairs(plans) == {};
    } else {
      var front, last := plans[..|plans| - 1], plans[|plans| - 1];
      assert plans == front + [last];
      PlannedPairsSize(front);
      assert PlannedPairs(plans) == PlannedPairs(front) + {last.pair};
    }
  }

  lemma {:induction false} RecordedPairsSize(campaign: string, plans: seq<Plan>, records: seq<Record>)
    requires DistinctPairs(plans) && OnePerTrial(records)
    requires forall r :: r in records ==> RecordMatches(campaign, plans, r)
    ensures |RecordedPairs(records)| == |records| && RecordedPairs(records) <= PlannedPairs(plans)
  {
    if records == [] {
      assert RecordedPairs(records) == {};
    } else {
      var front, last := records[..|records| - 1], records[|records| - 1];
      assert records == front + [last];
      RecordedPairsSize(campaign, plans, front);
      assert RecordMatches(campaign, plans, last);
      forall r | r in front ensures r.pair != last.pair {
        var i :| 0 <= i < |front| && front[i] == r;
        assert records[i].trialId != records[|records| - 1].trialId;
        PairTellsTrial(campaign, plans, r, last);
      }
      assert RecordedPairs(records) == RecordedPairs(front) + {last.pair};
    }
  }

  lemma PairTellsTrial(campaign: string, plans: seq<Plan>, a: Record, b: Record)
    requires DistinctPairs(plans) && RecordMatches(campaign, plans, a) && RecordMatches(campaign, plans, b)
    requires a.trialId != b.trialId
    ensures a.pair != b.pair
  {
    var p, q := PlanOf(plans, a.trialId).value, PlanOf(plans, b.trialId).value;
    var i :| 0 <= i < |plans| && plans[i] == p;
    var j :| 0 <= j < |plans| && plans[j] == q;
    assert i != j;
  }

  /** With one record per trial and one trial per pair, missing pairs and records together are the plans. */
  lemma MissingConserved(campaign: string, plans: seq<Plan>, records: seq<Record>)
    requires InputsValid(campaign, plans, records, None) && DistinctPairs(plans) && OnePerTrial(records)
    ensures |MissingPairs(plans, records)| + |records| == |plans|
  {
    PlannedPairsSize(plans);
    RecordedPairsSize(campaign, plans, records);
    assert MissingPairs(plans, records) + RecordedPairs(records) == PlannedPairs(plans);
  }

  // ----- Metrics -----

  datatype MetricId =
    | Completions | FalseClosures | FalseSuccesses | ArtifactsComplete | CapabilityViolations | RightlyBlocked
    | WronglyBlocked | RuntimeFailures | ProviderFailures | InvalidTrials | MissingTrials | PendingOnes | Incomplete

  /** A count and its denominator. The metric model raises when the count exceeds the denominator. */
  datatype Metric = Metric(id: MetricId, count: nat, denominator: nat)

  predicate Within(metrics: seq<Metric>) {
    forall i :: 0 <= i < |metrics| ==> metrics[i].count <= metrics[i].denominator
  }

  datatype Flag = FalseSuccess | Complete | Violation

  predicate Flagged(r: ArmResult, flag: Flag) {
    match flag
    case FalseSuccess => r.falseSuccess
    case Complete => r.artifactComplete
    case Violation => r.capabilityViolation
  }

  function FlagCount(records: seq<Record>, flag: Flag): (n: nat)
    ensures n <= 2 * |records|
  {
    if records == [] then 0
    else
      FlagCount(records[..|records| - 1], flag)
      + (if Flagged(records[|records| - 1].pi, flag) then 1 else 0)
      + (if Flagged(records[|records| - 1].millforge, flag) then 1 else 0)
  }

  /** The metrics whose denominator is the appended records' arms. */
  function AppendedMetrics(records: seq<Record>): seq<Metric> {
    var outcomes, n := Outcomes(records), 2 * |records|;
    [Metric(Completions, Count(outcomes, ValidCompletion), n), Metric(FalseClosures, Count(outcomes, FalseClosure), n),
     Metric(FalseSuccesses, FlagCount(records, FalseSuccess), n),
     Metric(ArtifactsComplete, FlagCount(records, Complete), n),
     Metric(CapabilityViolations, FlagCount(records, Violation), n),
     Metric(RightlyBlocked, Count(outcomes, CorrectlyBlocked), n),
     Metric(WronglyBlocked, Count(outcomes, FalseBlocked), n), Metric(InvalidTrials, Count(outcomes, InvalidTrial), n)]
  }

  /** The metrics whose denominator is the planned trials, or their arms. */
  function PlannedMetrics(plans: nat, runtime: nat, provider: nat, missing: nat, pending: nat): seq<Metric> {
    [Metric(RuntimeFailures, runtime, 2 * plans), Metric(ProviderFailures, provider, 2 * plans),
     Metric(MissingTrials, missing, plans), Metric(PendingOnes, pending, plans), Metric(Incomplete, pending, plans)]
  }

  /** The counted metrics of `_primary_metrics`. */
  function PrimaryMetrics(plans: seq<Plan>, records: seq<Record>, index: Option<ResumeIndex>): seq<Metric> {
    AppendedMetrics(records) +
    PlannedMetrics(|plans|, Count(Outcomes(records), RuntimeFailure), Count(Outcomes(records), ProviderFailure),
                   |MissingPairs(plans, records)|, PendingTrials(plans, records, index))
  }

  function ArmMetrics(s: ArmSummary): seq<Metric> {
    [Metric(Completions, s.completions, s.appended), Metric(InvalidTrials, s.invalid, s.appended),
     Metric(RuntimeFailures, s.runtimeFailures, s.planned), Metric(ProviderFailures, s.providerFailures, s.planned),
     Metric(ArtifactsComplete, s.artifactComplete, s.appended)]
  }

  function CategoryMetrics(s: CategorySummary): seq<Metric> {
    [Metric(Completions, s.completions, s.appended), Metric(InvalidTrials, s.invalid, s.appended),
     Metric(Incomplete, s.incomplete, s.planned)]
  }

  /** No metric of the report raises. */
  ghost predicate MetricsBuilt(plans: seq<Plan>, records: seq<Record>, index: Option<ResumeIndex>) {
    && Within(PrimaryMetrics(plans, records, index))
    && Within(ArmMetrics(SummaryOfArm(plans, records, Pi))) &&
        Within(ArmMetrics(SummaryOfArm(plans, records, Millforge)))
    && (forall c :: Categories(plans, records, c) ==> Within(CategoryMetrics(SummaryOfCategory(plans, records, c))))
  }

  predicate FailuresPlanned(plans: seq<Plan>, records: seq<Record>, arm: Arm) {
    && Count(ArmOutcomes(records, arm), RuntimeFailure) <= |plans|
    && Count(ArmOutcomes(records, arm), ProviderFailure) <= |plans|
  }

  lemma WithinBoth(a: seq<Metric>, b: seq<Metric>)
    ensures Within(a + b) <==> Within(a) && Within(b)
  {
    if Within(a + b) {
      forall i | 0 <= i < |a| ensures a[i].count <= a[i].denominator { assert (a + b)[i] == a[i]; }
      forall i | 0 <= i < |b| ensures b[i].count <= b[i].denominator { assert (a + b)[|a| + i] == b[i]; }
    }
  }

  lemma AppendedWithin(records: seq<Record>)
    ensures Within(AppendedMetrics(records))
  {
    assert |Outcomes(records)| == 2 * |records|;
  }

  lemma PlannedWithin(plans: nat, runtime: nat, provider: nat, missing: nat, pending: nat)
    requires missing <= plans
    ensures Within(PlannedMetrics(plans, runtime, provider, missing, pending)) <==>
            runtime <= 2 * plans && provider <= 2 * plans && pending <= plans
  {
    var m := PlannedMetrics(plans, runtime, provider, missing, pending);
    assert m[0] == Metric(RuntimeFailures, runtime, 2 * plans) && m[1] == Metric(ProviderFailures, provider, 2 * plans);
    assert m[3] == Metric(PendingOnes, pending, plans);
  }

  lemma PrimaryWithin(plans: seq<Plan>, records: seq<Record>, index: Option<ResumeIndex>)
    ensures Within(PrimaryMetrics(plans, records, index)) <==>
            Count(Outcomes(records), RuntimeFailure) <= 2 * |plans| &&
            Count(Outcomes(records), ProviderFailure) <= 2 * |plans| && PendingTrials(plans, records, index) <= |plans|
  {
    PlannedPairsSize(plans);
    var missing := MissingPairs(plans, records);
    assert missing + (PlannedPairs(plans) * RecordedPairs(records)) == PlannedPairs(plans);
    AppendedWithin(records);
    var runtime, provider := Count(Outcomes(records), RuntimeFailure), Count(Outcomes(records), ProviderFailure);
    var pending := PendingTrials(plans, records, index);
    PlannedWithin(|plans|, runtime, provider, |missing|, pending);
    WithinBoth(AppendedMetrics(records), PlannedMetrics(|plans|, runtime, provider, |missing|, pending));
  }

  lemma CategoryWithin(plans: seq<Plan>, records: seq<Record>, c: string)
    ensures Within(CategoryMetrics(SummaryOfCategory(plans, records, c)))
  {
  }

  lemma ArmWithin(plans: seq<Plan>, records: seq<Record>, arm: Arm)
    ensures Within(ArmMetrics(SummaryOfArm(plans, records, arm))) <==> FailuresPlanned(plans, records, arm)
  {
    var m := ArmMetrics(SummaryOfArm(plans, records, arm));
    assert m[2].count <= m[2].denominator <==> Count(ArmOutcomes(records, arm), RuntimeFailure) <= |plans|;
    assert m[3].count <= m[3].denominator <==> Count(ArmOutcomes(records, arm), ProviderFailure) <= |plans|;
  }

  /**
   Every count is within its denominator exactly when neither arm failed more often than trials were planned and no
   more trials are pending than planned. Validation alone does not give this: `DuplicateRecordsRaise`.
   */
  lemma MetricsBuiltExactly(plans: seq<Plan>, records: seq<Record>, index: Option<ResumeIndex>)
    ensures MetricsBuilt(plans, records, index) <==>
            FailuresPlanned(plans, records, Pi) && FailuresPlanned(plans, records, Millforge) &&
            PendingTrials(plans, records, index) <= |plans|
  {
    PrimaryWithin(plans, records, index);
    ArmWithin(plans, records, Pi);
    ArmWithin(plans, records, Millforge);
    ArmsSplit(records, RuntimeFailure);
    ArmsSplit(records, ProviderFailure);
    forall c | Categories(plans, records, c) ensures Within(CategoryMetrics(SummaryOfCategory(plans, records, c))) {
      CategoryWithin(plans, records, c);
    }
  }

  /** One record per trial is enough for every count to be within its denominator. */
  lemma CountsWithinDenominators(campaign: string, plans: seq<Plan>, records: seq<Record>, index: Option<ResumeIndex>)
    requires InputsValid(campaign, plans, records, index) && OnePerTrial(records)
    requires index.Some? ==> DistinctHashes(plans) && Distinct(index.value.pending)
    ensures MetricsBuilt(plans, records, index) && |records| <= |plans|
  {
    PairsConserved(campaign, plans, records, Pi);
    PairedWithinPlans(plans, records);
    if index.Some? {
      ResumedPendingBounded(campaign, plans, records, index.value);
    }
    MetricsBuiltExactly(plans, records, index);
  }

  lemma {:induction false} PairedWithinPlans(plans: seq<Plan>, records: seq<Record>)
    ensures PairedCount(plans, records) <= |plans|
  {
    if plans != [] { PairedWithinPlans(plans[..|plans| - 1], records); }
  }

  lemma FailureCounts(records: seq<Record>, r: Record)
    requires r.pi.outcome == RuntimeFailure
    ensures Count(ArmOutcomes(records + [r], Pi), RuntimeFailure) == Count(ArmOutcomes(records, Pi), RuntimeFailure) + 1
  {
    assert (records + [r])[..|records|] == records;
    CountOne(ArmOutcomes(records, Pi), r.pi.outcome, RuntimeFailure);
  }

  lemma TwoFailures(r: Record, records: seq<Record>)
    requires r.pi.outcome == RuntimeFailure && records == [] + [r] + [r]
    ensures Count(ArmOutcomes(records, Pi), RuntimeFailure) >= 2
  {
    FailureCounts([], r);
    FailureCounts([] + [r], r);
  }

  lemma TooManyFailures(plans: seq<Plan>, records: seq<Record>)
    requires Count(ArmOutcomes(records, Pi), RuntimeFailure) > |plans|
    ensures !MetricsBuilt(plans, records, None)
  {
    MetricsBuiltExactly(plans, records, None);
  }

  lemma TwiceIsValid(campaign: string, plans: seq<Plan>, records: seq<Record>, plan: Plan, r: Record)
    requires plans == [plan] && (forall x :: x in records ==> x == r)
    requires plan.campaign == campaign && RecordMatches(campaign, plans, r)
    ensures InputsValid(campaign, plans, records, None)
  {
  }

  lemma OnlyPlan(plans: seq<Plan>, plan: Plan)
    requires plans == [plan]
    ensures PlanOf(plans, plan.trialId) == Some(plan)
  {
  }

  /** Validated inputs whose report raises: one trial, recorded twice, failing at run time both times. */
  lemma DuplicateRecordsRaise(campaign: string, plan: Plan, r: Record)
    requires plan.campaign == campaign == r.campaign && r.trialId == plan.trialId && r.planHash == plan.planHash
    requires r.pair == plan.pair && r.identity == plan.identity && r.pi.outcome == RuntimeFailure
    ensures InputsValid(campaign, [plan], [r, r], None) && !MetricsBuilt([plan], [r, r], None)
  {
    var plans, records := [plan], [r, r];
    OnlyPlan(plans, plan);
    TwiceIsValid(campaign, plans, records, plan, r);
    TwoFailures(r, records);
    TooManyFailures(plans, records);
  }
}
