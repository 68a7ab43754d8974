/** Run statuses, the phase a record advertises, and the legal moves between statuses
    (src/server/host_api.py and src/server/run_lifecycle.py). */
module Lifecycle {
  import opened Common

  datatype RunStatus = Starting | Running | Pausing | Paused | Stopping | Stopped | Completed | Failed {
    predicate HasEnded() {
      Completed? || Failed? || Stopped?
    }
  }

  // ---- RunPhase: the status a registry record advertises, with its detail ----

  datatype StartupStage = Resolving | BuildingImage | StartingContainer {
    function Rank(): nat {
      match this
      case Resolving => 0
      case BuildingImage => 1
      case StartingContainer => 2
    }

    function Value(): string {
      match this
      case Resolving => "resolving"
      case BuildingImage => "building_image"
      case StartingContainer => "starting_container"
    }
  }

  datatype StartupProgress = StartupProgress(done: nat, total: Option<nat>, step: string)
  datatype FailureReason = FailureReason(code: string, stage: string, message: string)
  datatype StartupFact = StartupFact(stage: StartupStage, progress: Option<StartupProgress>)

  /** One observed lifecycle fact: any of the three parts may be present. */
  datatype Fact = Fact(status: Option<RunStatus>, failure: Option<FailureReason>, startup: Option<StartupFact>)

  datatype RawPhase = RunPhase(
    status: RunStatus,
    stage: Option<StartupStage>,
    progress: Option<StartupProgress>,
    reason: Option<FailureReason>)
  {
    /** The model validator: every detail is present exactly when its status needs it. */
    predicate DetailMatchesStatus() {
      && (stage.Some? <==> status.Starting?)
      && (progress.Some? ==> stage.Some?)
      && (reason.Some? <==> status.Failed?)
    }
  }

  type RunPhase = p: RawPhase | p.DetailMatchesStatus()
    witness RunPhase(Running, None, None, None)

  function FailedIn(phase: RunPhase, failure: FailureReason): FailureReason {
    if phase.stage.None? || phase.stage.value.Resolving? then failure
    else failure.(stage := phase.stage.value.Value())
  }

  function Started(phase: RunPhase, startup: StartupFact): RunPhase {
    if phase.stage.None? || startup.stage.Rank() < phase.stage.value.Rank() then phase
    else RunPhase(Starting, Some(startup.stage), startup.progress, None)
  }

  /** The phase after one observed fact.  Ended phases absorb; `failed` needs its reason. */
  function Advance(phase: RunPhase, fact: Fact): RunPhase {
    if phase.status.HasEnded() then phase
    else if fact.failure.Some? then RunPhase(Failed, None, None, Some(FailedIn(phase, fact.failure.value)))
    else if fact.startup.Some? then Started(phase, fact.startup.value)
    else if fact.status.None? || fact.status.value in {Starting, Failed, phase.status} then phase
    else RunPhase(fact.status.value, None, None, None)
  }

  /** The plain fold: every fact, in order, applied at once. */
  function Fold(phase: RunPhase, facts: seq<Fact>): RunPhase {
    if facts == [] then phase
    else Advance(Fold(phase, facts[..|facts|-1]), facts[|facts|-1])
  }

  /** Where a phase stands in the lifecycle: startup stages first, ended statuses last. */
  function Standing(phase: RunPhase): nat {
    match phase.status
    case Starting => phase.stage.value.Rank()
    case Running | Pausing | Paused | Stopping => 3
    case _ => 4
  }

  /** The fold is monotone over every history: a run never moves back to an earlier stage, never
      returns to `starting`, and once ended keeps its whole phase. */
  lemma {:induction false} FoldIsMonotone(phase: RunPhase, facts: seq<Fact>, k: nat)
    requires k <= |facts|
    ensures Standing(Fold(phase, facts[..k])) <= Standing(Fold(phase, facts))
    ensures Fold(phase, facts[..k]).status.HasEnded() ==> Fold(phase, facts) == Fold(phase, facts[..k])
    decreases |facts|
  {
    if k == |facts| {
      assert facts[..k] == facts;
    } else {
      var shorter := facts[..|facts|-1];
      assert shorter[..k] == facts[..k];
      FoldIsMonotone(phase, shorter, k);
    }
  }

  // ---- what a history of facts folds to, fact by fact ----

  /** A fact that ends a run: a failure, or a bare status that ends it otherwise. */
  predicate EndsRun(fact: Fact) {
    fact.failure.Some? || (fact.startup.None? && (fact.status == Some(Completed) || fact.status == Some(Stopped)))
  }

  /** A fact that is no more than a status, and one a run can be moved to. */
  predicate Reports(fact: Fact) {
    && fact.failure.None? && fact.startup.None?
    && fact.status.Some? && !fact.status.value.Starting? && !fact.status.value.Failed?
  }

  predicate IsStartup(fact: Fact) {
    fact.failure.None? && fact.startup.Some?
  }

  ghost predicate Quiet(facts: seq<Fact>, lo: nat) {
    forall i :: lo <= i < |facts| ==> !Reports(facts[i])
  }

  /** The status is the last one reported, or the first one if none was. */
  ghost predicate LastReported(first: RunStatus, facts: seq<Fact>, status: RunStatus) {
    || (Quiet(facts, 0) && status == first)
    || exists i: nat :: i < |facts| && Reports(facts[i]) && Quiet(facts, i + 1) && Some(status) == facts[i].status
  }

  /** Fact `i` is the last startup step that was not of an earlier stage than one before it. */
  ghost predicate LastStep(first: StartupStage, facts: seq<Fact>, i: nat) {
    && i < |facts| && IsStartup(facts[i])
    && first.Rank() <= facts[i].startup.value.stage.Rank()
    && (forall k :: 0 <= k < i && IsStartup(facts[k]) ==>
          facts[k].startup.value.stage.Rank() <= facts[i].startup.value.stage.Rank())
    && (forall k :: i < k < |facts| && IsStartup(facts[k]) ==>
          facts[k].startup.value.stage.Rank() < facts[i].startup.value.stage.Rank())
  }

  /** `now` is where fact `i`, the last step, left the run. */
  ghost predicate LeftBy(first: RunPhase, facts: seq<Fact>, now: RunPhase, i: nat)
    requires first.status.Starting?
  {
    && LastStep(first.stage.value, facts, i)
    && now.stage == Some(facts[i].startup.value.stage) && now.progress == facts[i].startup.value.progress
  }

  /** Where a run that has reported no status is in its startup, and how far. */
  ghost predicate ReachedStage(first: RunPhase, facts: seq<Fact>, now: RunPhase)
    requires first.status.Starting? && now.status.Starting?
  {
    || (now == first && forall i: nat :: !LastStep(first.stage.value, facts, i))
    || exists i: nat :: LeftBy(first, facts, now, i)
  }

  lemma StageStep(first: RunPhase, facts: seq<Fact>, fact: Fact, now: RunPhase)
    requires first.status.Starting? && now.status.Starting? && ReachedStage(first, facts, now)
    requires !EndsRun(fact) && !Reports(fact)
    ensures Advance(now, fact).status.Starting? && ReachedStage(first, facts + [fact], Advance(now, fact))
  {
    var grown := facts + [fact];
    var after := Advance(now, fact);
    if IsStartup(fact) && fact.startup.value.stage.Rank() >= now.stage.value.Rank() {
      StageIsHighest(first, facts, now);
      assert LeftBy(first, grown, after, |facts|);
    } else {
      assert after == now;
      StageStays(first, facts, fact, now);
    }
  }

  lemma StageIsHighest(first: RunPhase, facts: seq<Fact>, now: RunPhase)
    requires first.status.Starting? && now.status.Starting? && ReachedStage(first, facts, now)
    ensures first.stage.value.Rank() <= now.stage.value.Rank()
    ensures forall k :: 0 <= k < |facts| && IsStartup(facts[k]) ==>
              facts[k].startup.value.stage.Rank() <= now.stage.value.Rank()
  {
    if now == first && forall i: nat :: !LastStep(first.stage.value, facts, i) {
      NoStepIsAhead(first.stage.value, facts);
    }
  }

  /** Without a last step every step was of an earlier stage than the first. */
  lemma {:induction false} NoStepIsAhead(first: StartupStage, facts: seq<Fact>)
    requires forall i: nat :: !LastStep(first, facts, i)
    ensures forall k :: 0 <= k < |facts| && IsStartup(facts[k]) ==>
              facts[k].startup.value.stage.Rank() < first.Rank()
  {
    if k: nat :| k < |facts| && IsStartup(facts[k]) && first.Rank() <= facts[k].startup.value.stage.Rank() {
      var i := Furthest(first, facts, |facts|);
      assert LastStep(first, facts, i);
    }
  }

  /** Of the first `n` facts, the last startup step of the highest stage. */
  lemma {:induction false} Furthest(first: StartupStage, facts: seq<Fact>, n: nat) returns (i: nat)
    requires n <= |facts|
    requires exists k :: 0 <= k < n && IsStartup(facts[k]) && first.Rank() <= facts[k].startup.value.stage.Rank()
    ensures i < n && LastStep(first, facts[..n], i)
    decreases n
  {
    var last, before := facts[n-1], facts[..n-1];
    if forall k :: 0 <= k < n - 1 && IsStartup(facts[k]) ==> facts[k].startup.value.stage.Rank() < first.Rank() {
      return n - 1;
    }
    i := Furthest(first, facts, n - 1);
    assert facts[..n][..n-1] == before;
    if IsStartup(last) && last.startup.value.stage.Rank() >= before[i].startup.value.stage.Rank() {
      i := n - 1;
    }
  }

  /** A fact that is no step, or one of an earlier stage, is not a last step and does not undo one. */
  lemma LastStepStays(first: StartupStage, facts: seq<Fact>, fact: Fact, rank: nat, i: nat)
    requires IsStartup(fact) ==> fact.startup.value.stage.Rank() < rank
    requires first.Rank() <= rank
    ensures LastStep(first, facts + [fact], i) && rank == first.Rank() ==> LastStep(first, facts, i)
    ensures LastStep(first, facts, i) && facts[i].startup.value.stage.Rank() == rank ==>
              LastStep(first, facts + [fact], i)
  {
    var grown := facts + [fact];
    assert grown[|facts|] == fact && forall k :: 0 <= k < |facts| ==> grown[k] == facts[k];
  }

  lemma StageStays(first: RunPhase, facts: seq<Fact>, fact: Fact, now: RunPhase)
    requires first.status.Starting? && now.status.Starting? && ReachedStage(first, facts, now)
    requires IsStartup(fact) ==> fact.startup.value.stage.Rank() < now.stage.value.Rank()
    ensures ReachedStage(first, facts + [fact], now)
  {
    StageIsHighest(first, facts, now);
    if i: nat :| LeftBy(first, facts, now, i) {
      LastStepStays(first.stage.value, facts, fact, now.stage.value.Rank(), i);
      assert LeftBy(first, facts + [fact], now, i);
    } else {
      forall i: nat
        ensures !LastStep(first.stage.value, facts + [fact], i)
      {
        LastStepStays(first.stage.value, facts, fact, now.stage.value.Rank(), i);
      }
    }
  }

  /** While nothing has ended the run, its status is the last one reported; and as long as none was, a run
      that was starting is at its last startup step that did not fall back. */
  ghost predicate Tracks(first: RunPhase, facts: seq<Fact>, now: RunPhase) {
    && !now.status.HasEnded() && LastReported(first.status, facts, now.status)
    && (first.status.Starting? && Quiet(facts, 0) ==> now.status.Starting? && ReachedStage(first, facts, now))
    && (!now.status.Starting? ==> now == RunPhase(now.status, None, None, None))
  }

  lemma ReportStep(first: RunStatus, facts: seq<Fact>, fact: Fact, before: RunStatus, after: RunStatus)
    requires LastReported(first, facts, before)
    requires if Reports(fact) then Some(after) == fact.status else after == before
    ensures LastReported(first, facts + [fact], after)
    ensures Quiet(facts + [fact], 0) <==> Quiet(facts, 0) && !Reports(fact)
  {
    var grown := facts + [fact];
    assert grown[|facts|] == fact && forall i :: 0 <= i < |facts| ==> grown[i] == facts[i];
    if Reports(fact) {
      assert Quiet(grown, |facts| + 1);
    } else if i: nat :| i < |facts| && Reports(facts[i]) && Quiet(facts, i + 1) && Some(before) == facts[i].status {
      assert Quiet(grown, i + 1) && Reports(grown[i]);
    }
  }

  lemma {:induction false} FoldTracks(first: RunPhase, facts: seq<Fact>)
    requires !first.status.HasEnded() && forall i :: 0 <= i < |facts| ==> !EndsRun(facts[i])
    requires first.status.Starting? || first == RunPhase(first.status, None, None, None)
    ensures Tracks(first, facts, Fold(first, facts))
  {
    if facts != [] {
      var n := |facts| - 1;
      var before, fact := facts[..n], facts[n];
      FoldTracks(first, before);
      var now := Fold(first, before);
      assert facts == before + [fact];
      ReportStep(first.status, before, fact, now.status, Advance(now, fact).status);
      if first.status.Starting? && Quiet(facts, 0) {
        StageStep(first, before, fact, now);
      }
    }
  }

  /** The reason a failure leaves: its own, but for the startup stage past resolving it struck in. */
  ghost predicate FailedWith(before: RunPhase, failure: FailureReason, after: RunPhase) {
    && after.status.Failed? && after.stage.None? && after.progress.None?
    && after.reason.value.code == failure.code && after.reason.value.message == failure.message
    && after.reason.value.stage ==
       match before.stage
       case Some(BuildingImage) => "building_image"
       case Some(StartingContainer) => "starting_container"
       case _ => failure.stage
  }

  /** Over every history of a run that had not ended: until some fact ends it, its phase tracks the reports;
      the first fact that does decides the phase it keeps, a failure with its reason and where it struck. */
  lemma FoldIsWhatWasReported(first: RunPhase, facts: seq<Fact>, k: nat)
    requires !first.status.HasEnded() && k <= |facts| && forall i :: 0 <= i < k ==> !EndsRun(facts[i])
    requires k < |facts| ==> EndsRun(facts[k])
    ensures var before, now := Fold(first, facts[..k]), Fold(first, facts);
            && Tracks(first, facts[..k], before)
            && if k == |facts| then now == before
               else if facts[k].failure.Some? then FailedWith(before, facts[k].failure.value, now)
               else now == RunPhase(facts[k].status.value, None, None, None)
    ensures Resolving.Rank() < BuildingImage.Rank() < StartingContainer.Rank()
  {
    var before := Fold(first, facts[..k]);
    FoldTracks(first, facts[..k]);
    if k == |facts| {
      assert facts[..k] == facts;
    } else {
      assert facts[..k+1][..k] == facts[..k];
      assert Fold(first, facts[..k+1]) == Advance(before, facts[k]);
      FoldIsMonotone(first, facts, k + 1);
    }
  }

  // ---- RunState: the status the controller owns, and its transition table ----

  datatype RunTrigger =
    Ready | PauseRequested | InvocationFinished | Resumed | StopRequested | RunCompleted | RunFailed

  datatype RunRequest = PauseRequest | StopRequest

  datatype RawState = RunState(status: RunStatus, requested: Option<RunRequest>) {
    predicate OnlyStartingHolds() {
      requested.Some? ==> status.Starting?
    }

    predicate PausePending() {
      status.Pausing? || requested == Some(PauseRequest)
    }

    predicate StopPending() {
      status.Stopping? || requested == Some(StopRequest)
    }
  }

  type RunState = s: RawState | s.OnlyStartingHolds()
    witness RunState(Starting, None)

  function At(status: RunStatus): RunState {
    RunState(status, None)
  }

  /** The move out of a state that has not ended; None is an illegal pair, which raises. */
  function Move(current: RunState, trigger: RunTrigger): Option<RunState>
    requires !current.status.HasEnded()
  {
    match trigger
    case RunCompleted => Some(At(Completed))
    case RunFailed => Some(At(Failed))
    case Ready =>
      if !current.status.Starting? then Some(current)
      else if current.requested.None? then Some(At(Running))
      else if current.requested.value.PauseRequest? then Some(At(Pausing))
      else Some(At(Stopping))
    case Resumed => Some(if current.status.Starting? then At(Starting) else At(Running))
    case PauseRequested =>
      if current.status.Starting? then
        Some(if current.requested == Some(StopRequest) then current else RunState(Starting, Some(PauseRequest)))
      else if current.status.Running? then Some(At(Pausing))
      else Some(current)
    case StopRequested =>
      Some(if current.status.Starting? then RunState(Starting, Some(StopRequest)) else At(Stopping))
    case InvocationFinished =>
      match current.status
      case Starting => if current.requested == Some(StopRequest) then Some(At(Stopped)) else None
      case Pausing => Some(At(Paused))
      case Stopping => Some(At(Stopped))
      case _ => Some(current)
  }

  /** `transition`: ended statuses absorb every trigger, absent pairs raise. */
  function Transition(current: RunState, trigger: RunTrigger): Option<RunState> {
    if current.status.HasEnded() then Some(current) else Move(current, trigger)
  }
}
