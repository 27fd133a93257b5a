/**
 The compact eval workflow: four stages with attempt counters, and the decision that follows each
 stage's terminal result.
 */
module Workflow {
  import opened Basics

  datatype Stage = Planner | Builder | Checker | Arbiter

  datatype Terminal =
    | PlanReady | PlanBlocked
    | BuilderComplete | BuilderBlocked
    | CheckerApproved | CheckerRejected | CheckerBlocked
    | ArbiterClosed | ArbiterRejected | ArbiterBlocked

  datatype Disposition = NoCandidate | Approved | Rejected | BlockedCandidate

  datatype Code = UnknownStage | UnknownResult | BadAttempts | BadRetries | OmittedStage | NotArbiter

  datatype Decision =
    | Continue(next: Stage, disposition: Disposition)
    | Completed
    | Blocked(disposition: Disposition)
    | Invalid(code: Code)

  // ----- The graph (its validator leaves no other choice of results and limits) -----

  predicate Legal(stage: Stage, result: Terminal) {
    match stage
    case Planner => result.PlanReady? || result.PlanBlocked?
    case Builder => result.BuilderComplete? || result.BuilderBlocked?
    case Checker => result.CheckerApproved? || result.CheckerRejected? || result.CheckerBlocked?
    case Arbiter => result.ArbiterClosed? || result.ArbiterRejected? || result.ArbiterBlocked?
  }

  function Limit(stage: Stage): nat {
    match stage
    case Planner => 1
    case Builder => 2
    case Checker => 2
    case Arbiter => 1
  }

  const STAGES: seq<Stage> := [Planner, Builder, Checker, Arbiter]

  // ----- Attempt states -----

  /** A raw value: an integer, or something that is not one (booleans included). */
  datatype Raw = Number(n: int) | NotNumber

  /** A retry entry under a stage id, or under text that names no stage. */
  datatype Retry = Retry(stage: Option<Stage>, count: Raw)

  datatype Retries = NotMapping | Mapping(entries: seq<Retry>)

  /** A raw attempt mapping; an absent count is 0. */
  datatype Attempts = Attempts(planner: Raw, builder: Raw, checker: Raw, arbiter: Raw, retries: Retries)

  function RawCount(attempts: Attempts, stage: Stage): Raw {
    match stage
    case Planner => attempts.planner
    case Builder => attempts.builder
    case Checker => attempts.checker
    case Arbiter => attempts.arbiter
  }

  predicate RetryOk(retry: Retry) {
    retry.stage.Some? && retry.count.Number? && 0 <= retry.count.n <= 1
  }

  predicate RetriesOk(retries: Retries) {
    retries.Mapping? && forall i :: 0 <= i < |retries.entries| ==> RetryOk(retries.entries[i])
  }

  predicate CountOk(attempts: Attempts, stage: Stage) {
    RawCount(attempts, stage).Number? && 0 <= RawCount(attempts, stage).n <= Limit(stage)
  }

  predicate CountsOk(attempts: Attempts) {
    CountOk(attempts, Planner) && CountOk(attempts, Builder) && CountOk(attempts, Checker) && CountOk(attempts, Arbiter)
  }

  /** The stages this one presupposes have run: none is skipped, and the arbiter comes last. */
  predicate HistoryOk(stage: Stage, planner: int, builder: int, checker: int, arbiter: int) {
    match stage
    case Planner => planner >= 1 && arbiter == 0
    case Builder => builder >= 1 && planner == 1 && arbiter == 0
    case Checker => checker >= 1 && planner == 1 && builder >= 1 && arbiter == 0
    case Arbiter => arbiter >= 1 && planner == 1 && (builder >= 1 || checker >= 1)
  }

  /** `_attempt_state_diagnostic`: retries first, then the counts one by one, then the history. */
  method AttemptDiagnostic(stage: Stage, attempts: Attempts) returns (code: Option<Code>)
    ensures code == AttemptError(stage, attempts)
  {
    if attempts.retries.NotMapping? {
      return Some(BadRetries);
    }
    var entries := attempts.retries.entries;
    for i := 0 to |entries|
      invariant forall j :: 0 <= j < i ==> RetryOk(entries[j])
    {
      if entries[i].stage.None? {
        return Some(BadRetries);
      }
      if !entries[i].count.Number? {
        return Some(BadRetries);
      }
      if entries[i].count.n < 0 || entries[i].count.n > 1 {
        return Some(BadRetries);
      }
    }
    var counts: map<Stage, int> := map[];
    for i := 0 to |STAGES|
      invariant forall j :: 0 <= j < i ==> CountOk(attempts, STAGES[j])
      invariant forall j :: 0 <= j < i ==> STAGES[j] in counts && counts[STAGES[j]] == RawCount(attempts, STAGES[j]).n
    {
      var count := RawCount(attempts, STAGES[i]);
      if !count.Number? {
        return Some(BadAttempts);
      }
      if count.n < 0 || count.n > Limit(STAGES[i]) {
        return Some(BadAttempts);
      }
      counts := counts[STAGES[i] := count.n];
    }
    assert STAGES[0] == Planner && STAGES[1] == Builder && STAGES[2] == Checker && STAGES[3] == Arbiter;
    if counts[stage] < 1 {
      return Some(BadAttempts);
    }
    if stage != Planner && counts[Planner] != 1 {
      return Some(OmittedStage);
    }
    if stage == Checker && counts[Builder] < 1 {
      return Some(OmittedStage);
    }
    if stage == Arbiter {
      if counts[Builder] < 1 && counts[Checker] < 1 {
        return Some(OmittedStage);
      }
    }
    if stage != Arbiter && counts[Arbiter] > 0 {
      return Some(BadAttempts);
    }
    return None;
  }

  /** The diagnostic of an attempt state, by what is wrong with it. */
  function AttemptError(stage: Stage, attempts: Attempts): Option<Code> {
    if !RetriesOk(attempts.retries) then Some(BadRetries)
    else if !CountsOk(attempts) || RawCount(attempts, stage).n < 1 then Some(BadAttempts)
    else if stage != Planner && attempts.planner.n != 1 then Some(OmittedStage)
    else if stage == Checker && attempts.builder.n < 1 then Some(OmittedStage)
    else if stage == Arbiter && attempts.builder.n < 1 && attempts.checker.n < 1 then Some(OmittedStage)
    else if stage != Arbiter && attempts.arbiter.n > 0 then Some(BadAttempts)
    else None
  }

  /** The attempt states from which this stage may be resolved. */
  predicate Resolvable(stage: Stage, attempts: Attempts) {
    RetriesOk(attempts.retries) && CountsOk(attempts) &&
    HistoryOk(stage, attempts.planner.n, attempts.builder.n, attempts.checker.n, attempts.arbiter.n)
  }

  // ----- The transition -----

  /** Where a legal result leads, given the attempts of the builder and the checker. */
  function Transition(stage: Stage, result: Terminal, builder: int, checker: int): Decision {
    match stage
    case Planner => if result == PlanReady then Continue(Builder, NoCandidate) else Blocked(NoCandidate)
    case Builder =>
      if result == BuilderComplete then Continue(Checker, NoCandidate) else Continue(Arbiter, BlockedCandidate)
    case Checker =>
      if result == CheckerApproved then Continue(Arbiter, Approved)
      else if result == CheckerBlocked then Continue(Arbiter, BlockedCandidate)
      else if builder < 2 && checker < 2 then Continue(Builder, Rejected)
      else Continue(Arbiter, Rejected)
    case Arbiter =>
      if result == ArbiterClosed then Completed
      else Blocked(if result == ArbiterRejected then Rejected else BlockedCandidate)
  }

  /** `resolve_eval_transition`; an unknown stage id or result is none. */
  function Resolve(current: Option<Stage>, terminal: Option<Terminal>, attempts: Attempts): Decision {
    if current.None? then Invalid(UnknownStage)
    else if terminal.None? then Invalid(UnknownResult)
    else
      var stage, result := current.value, terminal.value;
      if stage != Arbiter && result == ArbiterClosed then Invalid(NotArbiter)
      else if !Legal(stage, result) then Invalid(UnknownResult)
      else
        match AttemptError(stage, attempts)
        case Some(code) => Invalid(code)
        case None => Transition(stage, result, attempts.builder.n, attempts.checker.n)
  }

  // ----- Which diagnostic an invalid transition gets -----

  /** The retries are a mapping of stages to 0 or 1. */
  ghost predicate RetriesFit(attempts: Attempts) {
    && attempts.retries.Mapping?
    && forall r :: r in attempts.retries.entries ==> r.stage.Some? && (r.count == Number(0) || r.count == Number(1))
  }

  /** The count of a stage is one of 0 to `most`. */
  ghost predicate From0To(count: Raw, most: int) {
    count.Number? && 0 <= count.n <= most
  }

  /** One planner, two builder, two checker attempts and one of the arbiter at most. */
  ghost predicate CountsFit(attempts: Attempts) {
    && From0To(attempts.planner, 1) && From0To(attempts.builder, 2)
    && From0To(attempts.checker, 2) && From0To(attempts.arbiter, 1)
  }

  /** A stage that must come before this one never ran. */
  ghost predicate StageOmitted(stage: Stage, attempts: Attempts)
    requires CountsFit(attempts)
  {
    match stage
    case Planner => false
    case Builder => attempts.planner.n == 0
    case Checker => attempts.planner.n == 0 || attempts.builder.n == 0
    case Arbiter => attempts.planner.n == 0 || (attempts.builder.n == 0 && attempts.checker.n == 0)
  }

  /** The stage itself is not counted, or the arbiter already is, with nothing omitted. */
  ghost predicate CountsContradict(stage: Stage, attempts: Attempts)
    requires CountsFit(attempts)
  {
    || RawCount(attempts, stage) == Number(0)
    || (stage != Arbiter && attempts.arbiter.n == 1 && !StageOmitted(stage, attempts))
  }

  lemma RetriesFitExact(attempts: Attempts)
    ensures RetriesOk(attempts.retries) <==> RetriesFit(attempts)
  {
    if attempts.retries.Mapping? {
      var entries := attempts.retries.entries;
      if RetriesOk(attempts.retries) {
        forall r | r in entries ensures r.stage.Some? && (r.count == Number(0) || r.count == Number(1)) {
          var i :| 0 <= i < |entries| && entries[i] == r;
          assert RetryOk(entries[i]);
        }
      }
      if RetriesFit(attempts) {
        forall i | 0 <= i < |entries| ensures RetryOk(entries[i]) { assert entries[i] in entries; }
      }
    }
  }

  /** The diagnostic of an attempt state, in plain facts. */
  lemma AttemptCodes(stage: Stage, attempts: Attempts)
    ensures AttemptError(stage, attempts) == Some(BadRetries) <==> !RetriesFit(attempts)
    ensures AttemptError(stage, attempts) == Some(BadAttempts) <==>
            RetriesFit(attempts) && (!CountsFit(attempts) || CountsContradict(stage, attempts))
    ensures AttemptError(stage, attempts) == Some(OmittedStage) <==>
            RetriesFit(attempts) && CountsFit(attempts) && RawCount(attempts, stage) != Number(0) &&
            StageOmitted(stage, attempts)
    ensures AttemptError(stage, attempts).None? <==>
            RetriesFit(attempts) && CountsFit(attempts) && !CountsContradict(stage, attempts) &&
            !StageOmitted(stage, attempts)
  {
    RetriesFitExact(attempts);
    assert CountsOk(attempts) <==> CountsFit(attempts);
    match stage
    case Planner =>
    case Builder =>
    case Checker =>
    case Arbiter =>
  }

  /** Each diagnostic of `resolve_eval_transition` is given in exactly one case. */
  lemma CodesExact(current: Option<Stage>, terminal: Option<Terminal>, attempts: Attempts)
    ensures var d := Resolve(current, terminal, attempts);
            && (d == Invalid(UnknownStage) <==> current.None?)
            && (d == Invalid(NotArbiter) <==>
                  current.Some? && current.value != Arbiter && terminal == Some(ArbiterClosed))
            && (d == Invalid(UnknownResult) <==>
                  current.Some? && d != Invalid(NotArbiter) &&
                  (terminal.None? || !Legal(current.value, terminal.value)))
    ensures current.Some? && terminal.Some? && Legal(current.value, terminal.value) ==>
              forall code :: Resolve(current, terminal, attempts) == Invalid(code) <==>
                             AttemptError(current.value, attempts) == Some(code)
  {
    if current.Some? && terminal.Some? && Legal(current.value, terminal.value) {
      assert AttemptError(current.value, attempts).None? ==>
          !Transition(current.value, terminal.value, attempts.builder.n, attempts.checker.n).Invalid?;
    }
  }

  // ----- The published table -----

  datatype Condition = Always | BelowLimits | AtLimits

  datatype Row = Row(stage: Stage, result: Terminal, condition: Condition, decision: Decision)

  const TABLE: seq<Row> := [
    Row(Planner, PlanReady, Always, Continue(Builder, NoCandidate)),
    Row(Planner, PlanBlocked, Always, Blocked(NoCandidate)),
    Row(Builder, BuilderComplete, Always, Continue(Checker, NoCandidate)),
    Row(Builder, BuilderBlocked, Always, Continue(Arbiter, BlockedCandidate)),
    Row(Checker, CheckerApproved, Always, Continue(Arbiter, Approved)),
    Row(Checker, CheckerRejected, BelowLimits, Continue(Builder, Rejected)),
    Row(Checker, CheckerRejected, AtLimits, Continue(Arbiter, Rejected)),
    Row(Checker, CheckerBlocked, Always, Continue(Arbiter, BlockedCandidate)),
    Row(Arbiter, ArbiterClosed, Always, Completed),
    Row(Arbiter, ArbiterRejected, Always, Blocked(Rejected)),
    Row(Arbiter, ArbiterBlocked, Always, Blocked(BlockedCandidate))
  ]

  predicate Matches(row: Row, stage: Stage, result: Terminal, builder: int, checker: int) {
    && row.stage == stage && row.result == result
    && match row.condition
       case Always => true
       case BelowLimits => builder < 2 && checker < 2
       case AtLimits => builder >= 2 || checker >= 2
  }

  /** Exactly the rows of the table, told apart by stage and result. */
  lemma TableRow(stage: Stage, result: Terminal, builder: int, checker: int) returns (i: nat)
    requires Legal(stage, result)
    ensures i < |TABLE| && Matches(TABLE[i], stage, result, builder, checker)
    ensures forall j :: 0 <= j < |TABLE| && Matches(TABLE[j], stage, result, builder, checker) ==> j == i
  {
    i := match result
         case PlanReady => 0
         case PlanBlocked => 1
         case BuilderComplete => 2
         case BuilderBlocked => 3
         case CheckerApproved => 4
         case CheckerRejected => if builder < 2 && checker < 2 then 5 else 6
         case CheckerBlocked => 7
         case ArbiterClosed => 8
         case ArbiterRejected => 9
         case ArbiterBlocked => 10;
  }

  /**
   A decision is valid exactly when the result is legal for the stage and the attempt state is
   resolvable; it is then the decision of the one row of the published table that matches.
   */
  lemma DecisionsFollowTable(stage: Stage, result: Terminal, attempts: Attempts)
    ensures !Resolve(Some(stage), Some(result), attempts).Invalid? <==>
            Legal(stage, result) && Resolvable(stage, attempts)
    ensures !Resolve(Some(stage), Some(result), attempts).Invalid? ==>
              forall row :: row in TABLE && Matches(row, stage, result, attempts.builder.n, attempts.checker.n) ==>
                row.decision == Resolve(Some(stage), Some(result), attempts)
    ensures !Resolve(Some(stage), Some(result), attempts).Invalid? ==>
              exists row :: row in TABLE && Matches(row, stage, result, attempts.builder.n, attempts.checker.n)
  {
    ResolvableExact(stage, attempts);
    if Legal(stage, result) && Resolvable(stage, attempts) {
      ResolvesTo(stage, result, attempts);
      var i := TableRow(stage, result, attempts.builder.n, attempts.checker.n);
      assert TABLE[i] in TABLE;
      assert TABLE[i].decision == Resolve(Some(stage), Some(result), attempts);
    }
  }

  // ----- Runs -----

  datatype Counts = Counts(planner: nat, builder: nat, checker: nat, arbiter: nat)

  /** One stage execution: its terminal result, and the retries recorded by then. */
  datatype Execution = Execution(result: Terminal, retries: Retries)

  /** Where a run stands: the stage to execute next, or the decision it ended with. */
  datatype Status = Running(stage: Stage) | Ended(decision: Decision)

  datatype State = State(status: Status, counts: Counts)

  function Start(): State { State(Running(Planner), Counts(0, 0, 0, 0)) }

  /** The counter of the stage that ran goes up by one. */
  function Count(counts: Counts, stage: Stage): Counts {
    match stage
    case Planner => counts.(planner := counts.planner + 1)
    case Builder => counts.(builder := counts.builder + 1)
    case Checker => counts.(checker := counts.checker + 1)
    case Arbiter => counts.(arbiter := counts.arbiter + 1)
  }

  function AttemptsOf(counts: Counts, retries: Retries): Attempts {
    Attempts(Number(counts.planner), Number(counts.builder), Number(counts.checker), Number(counts.arbiter), retries)
  }

  /** A running state executes its stage, counts it and resolves the result. */
  function Step(s: State, e: Execution): State
    requires s.status.Running?
  {
    var counts := Count(s.counts, s.status.stage);
    var decision := Resolve(Some(s.status.stage), Some(e.result), AttemptsOf(counts, e.retries));
    State(if decision.Continue? then Running(decision.next) else Ended(decision), counts)
  }

  predicate MayExecute(s: State, e: Execution) {
    s.status.Running? && Legal(s.status.stage, e.result) && RetriesOk(e.retries)
  }

  /**
   The state after a run, or none when some execution happens after the end, with a result its
   stage may not end with, or with more retries than are allowed.
   */
  function StateAfter(run: seq<Execution>): Option<State> {
    if run == [] then Some(Start())
    else
      var e := run[|run| - 1];
      match StateAfter(run[..|run| - 1])
      case None => None
      case Some(s) => if MayExecute(s, e) then Some(Step(s, e)) else None
  }

  function Total(counts: Counts): nat {
    counts.planner + counts.builder + counts.checker + counts.arbiter
  }

  ghost predicate WithinLimits(counts: Counts) {
    && counts.planner <= Limit(Planner) && counts.builder <= Limit(Builder)
    && counts.checker <= Limit(Checker) && counts.arbiter <= Limit(Arbiter)
  }

  /** What holds of the counters when a stage is about to run. */
  ghost predicate Ready(stage: Stage, counts: Counts) {
    match stage
    case Planner => counts == Counts(0, 0, 0, 0)
    case Builder => counts.planner == 1 && counts.builder == counts.checker <= 1 && counts.arbiter == 0
    case Checker => counts.planner == 1 && counts.builder == counts.checker + 1 <= 2 && counts.arbiter == 0
    case Arbiter =>
      && counts.planner == 1 && 1 <= counts.builder <= 2
      && counts.builder - 1 <= counts.checker <= counts.builder && counts.arbiter == 0
  }

  ghost predicate Finished(counts: Counts) {
    counts.arbiter == 1 && counts.planner == 1 && counts.builder >= 1
  }

  /** What holds of a state after `n` executions, the last of which had the given result. */
  ghost predicate Sound(s: State, n: nat, last: Option<Terminal>) {
    && Total(s.counts) == n && WithinLimits(s.counts)
    && match s.status
       case Running(stage) => Ready(stage, s.counts)
       case Ended(decision) =>
         !decision.Invalid? && !decision.Continue? &&
         (decision.Completed? ==> last == Some(ArbiterClosed) && Finished(s.counts))
  }

  lemma CountsStayLow(stage: Stage, counts: Counts)
    requires Ready(stage, counts)
    ensures var after := Count(counts, stage);
            WithinLimits(after) && Total(after) == Total(counts) + 1 &&
            HistoryOk(stage, after.planner, after.builder, after.checker, after.arbiter)
  {
    match stage
    case Planner =>
    case Builder =>
    case Checker =>
    case Arbiter =>
  }

  lemma ResolvableExact(stage: Stage, attempts: Attempts)
    ensures AttemptError(stage, attempts).None? <==> Resolvable(stage, attempts)
  {
    match stage
    case Planner =>
    case Builder =>
    case Checker =>
    case Arbiter =>
  }

  lemma CountedAttempts(stage: Stage, counts: Counts, retries: Retries)
    requires Ready(stage, counts) && RetriesOk(retries)
    ensures var after := Count(counts, stage);
            AttemptError(stage, AttemptsOf(after, retries)).None? && WithinLimits(after) &&
            Total(after) == Total(counts) + 1
  {
    CountsStayLow(stage, counts);
    ResolvableExact(stage, AttemptsOf(Count(counts, stage), retries));
  }

  lemma ResolvesTo(stage: Stage, result: Terminal, attempts: Attempts)
    requires Legal(stage, result) && AttemptError(stage, attempts).None?
    ensures Resolve(Some(stage), Some(result), attempts) ==
            Transition(stage, result, attempts.builder.n, attempts.checker.n)
  {
  }

  /** What a transition makes of the counters. */
  lemma TransitionIsSound(stage: Stage, counts: Counts, result: Terminal)
    requires Ready(stage, counts) && Legal(stage, result)
    ensures var after := Count(counts, stage);
            var decision := Transition(stage, result, after.builder, after.checker);
            !decision.Invalid? && (decision.Continue? ==> Ready(decision.next, after)) &&
            (decision.Completed? ==> result == ArbiterClosed && Finished(after))
  {
  }

  lemma StepIsSound(s: State, n: nat, last: Option<Terminal>, e: Execution)
    requires MayExecute(s, e) && Sound(s, n, last)
    ensures Sound(Step(s, e), n + 1, Some(e.result))
  {
    var stage := s.status.stage;
    CountedAttempts(stage, s.counts, e.retries);
    ResolvesTo(stage, e.result, AttemptsOf(Count(s.counts, stage), e.retries));
    TransitionIsSound(stage, s.counts, e.result);
  }

  function Last(run: seq<Execution>): Option<Terminal> {
    if run == [] then None else Some(run[|run| - 1].result)
  }

  lemma RunStep(run: seq<Execution>)
    requires StateAfter(run).Some? && run != []
    ensures var front, e := run[..|run| - 1], run[|run| - 1];
            StateAfter(front).Some? && MayExecute(StateAfter(front).value, e) &&
            StateAfter(run).value == Step(StateAfter(front).value, e)
  {
  }

  lemma StartIsSound()
    ensures Sound(Start(), 0, None)
  {
  }

  lemma {:induction false} RunIsSound(run: seq<Execution>)
    requires StateAfter(run).Some?
    ensures Sound(StateAfter(run).value, |run|, Last(run))
  {
    if run == [] {
      StartIsSound();
    } else {
      var front := run[..|run| - 1];
      RunStep(run);
      RunIsSound(front);
      StepIsSound(StateAfter(front).value, |front|, Last(front), run[|run| - 1]);
    }
  }

  /**
   Every run of legal results is never invalid, keeps every counter within its limit, has at most
   six stage executions and has ended by the sixth; it completes only by the arbiter closing it,
   after the planner and at least one builder.
   */
  lemma RunsAreSafe(run: seq<Execution>)
    requires StateAfter(run).Some?
    ensures var s := StateAfter(run).value;
            WithinLimits(s.counts) && |run| <= 6 && (|run| == 6 ==> s.status.Ended?) &&
            (s.status.Ended? ==> !s.status.decision.Invalid?) &&
            (s.status == Ended(Completed) ==> run != [] && run[|run| - 1].result == ArbiterClosed && Finished(s.counts))
  {
    RunIsSound(run);
  }

  /** A run that has not ended can always go on. */
  lemma RunsNeverStick(run: seq<Execution>)
    requires StateAfter(run).Some? && StateAfter(run).value.status.Running?
    ensures exists e :: StateAfter(run + [e]).Some?
  {
    var stage := StateAfter(run).value.status.stage;
    var result :=
      match stage
      case Planner => PlanReady
      case Builder => BuilderComplete
      case Checker => CheckerApproved
      case Arbiter => ArbiterClosed;
    var e := Execution(result, Mapping([]));
    assert (run + [e])[..|run|] == run;
    assert StateAfter(run + [e]).Some?;
  }

  lemma RunGoesOn(run: seq<Execution>, s: State, e: Execution)
    requires StateAfter(run) == Some(s) && MayExecute(s, e)
    ensures StateAfter(run + [e]) == Some(Step(s, e))
  {
    assert (run + [e])[..|run|] == run;
  }

  /** The longest run: a rejected candidate is rebuilt once, and the arbiter has the last word. */
  lemma SixExecutions(retries: Retries) returns (run: seq<Execution>)
    requires RetriesOk(retries)
    ensures |run| == 6 && StateAfter(run) == Some(State(Ended(Completed), Counts(1, 2, 2, 1)))
  {
    run := [Execution(PlanReady, retries)];
    RunGoesOn([], Start(), Execution(PlanReady, retries));
    assert [] + run == run;
    RunGoesOn(run, State(Running(Builder), Counts(1, 0, 0, 0)), Execution(BuilderComplete, retries));
    run := run + [Execution(BuilderComplete, retries)];
    RunGoesOn(run, State(Running(Checker), Counts(1, 1, 0, 0)), Execution(CheckerRejected, retries));
    run := run + [Execution(CheckerRejected, retries)];
    RunGoesOn(run, State(Running(Builder), Counts(1, 1, 1, 0)), Execution(BuilderComplete, retries));
    run := run + [Execution(BuilderComplete, retries)];
    RunGoesOn(run, State(Running(Checker), Counts(1, 2, 1, 0)), Execution(CheckerApproved, retries));
    run := run + [Execution(CheckerApproved, retries)];
    RunGoesOn(run, State(Running(Arbiter), Counts(1, 2, 2, 0)), Execution(ArbiterClosed, retries));
    run := run + [Execution(ArbiterClosed, retries)];
  }
}
