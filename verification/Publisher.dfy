/** `RecordPublisher` (src/entrypoints/detached_run.py): keep a held instance's record current while
    delaying progress-only writes.  Every lock-protected section of the source is one event here, so a
    sequence of events is an interleaving of the server's calls and the flush workers' wake-ups. */
module Publisher {
  import opened Common
  import opened Lifecycle
  import opened Tombstone

  const INTERVAL: real := 1.0
  const SERVER_EXITED := FailureReason(
    "server_exited", "server", "The server exited before its run ended; see its log.")
  const EXIT := Fact(None, Some(SERVER_EXITED), None)

  datatype PauseCause = User | Quota
  datatype InstanceStatus = ServerStarting | Serving

  datatype Record = Record(
    id: string,
    status: InstanceStatus,
    phase: RunPhase,
    projectRoot: string,
    paused: Option<PauseCause>,
    endedAt: Option<real>,
    end: Option<EndRecord>)
  {
    /** `LiveInstanceRecord`'s validator; a record that fails it raises instead of being written. */
    predicate Accepted() {
      && (endedAt.Some? || end.Some? ==> phase.status.HasEnded())
      && (paused.Some? ==> phase.status.Paused?)
    }
  }

  predicate Pauses(status: RunStatus) {
    status.Pausing? || status.Paused?
  }

  function PauseCauseAfter(pending: Option<PauseCause>, before: RunStatus, after: RunStatus): Option<PauseCause> {
    if Pauses(before) && !Pauses(after) then None else pending
  }

  function PausedBy(phase: RunPhase, pending: Option<PauseCause>): Option<PauseCause> {
    if phase.status.Paused? then Some(pending.Or(User)) else None
  }

  datatype Event =
    | Observe(fact: Fact, spawned: bool)   // spawned: the runtime grants a worker if one is asked for
    | PausingFor(cause: PauseCause)
    | Listening
    | Resolved(root: string)
    | Ending(ending: EndingFact)
    | Terminated
    | WriteTombstone(clock: real)          // the second locked section of `end`
    | Wake(worker: nat)                    // a flush worker's sleep ends

  datatype Timed = Timed(at: real, event: Event)
  datatype Write = Write(record: Record, at: real)

  // ---- the unthrottled publisher: every fact is written at once ----

  datatype Plain = Plain(record: Record, cause: Option<PauseCause>, ending: Option<EndingFact>, terminated: bool)

  function InPhase(record: Record, phase: RunPhase, cause: Option<PauseCause>): Record {
    record.(phase := phase, paused := PausedBy(phase, cause))
  }

  function PlainStep(p: Plain, event: Event): Plain {
    match event
    case Observe(fact, _) =>
      var phase := Advance(p.record.phase, fact);
      var cause := PauseCauseAfter(p.cause, p.record.phase.status, phase.status);
      p.(record := InPhase(p.record, phase, cause), cause := cause)
    case PausingFor(cause) => p.(record := InPhase(p.record, p.record.phase, Some(cause)), cause := Some(cause))
    case Listening => p.(record := p.record.(status := Serving))
    case Resolved(root) => p.(record := p.record.(projectRoot := root))
    case Ending(ending) => p.(ending := Some(ending))
    case Terminated => p.(terminated := true)
    case WriteTombstone(clock) =>
      p.(record := p.record.(endedAt := Some(clock), end := EndRecordOf(p.record.phase, p.ending, p.terminated)))
    case Wake(_) => p
  }

  function PlainRun(first: Record, trace: seq<Timed>): Plain {
    if trace == [] then Plain(first, None, None, false)
    else PlainStep(PlainRun(first, trace[..|trace|-1]), trace[|trace|-1].event)
  }

  // ---- the throttled publisher ----

  /** `workers` are the wake times of the live flush workers; `writes` is what reached the registry. */
  datatype State = State(
    record: Record,
    held: Option<RunPhase>,
    cause: Option<PauseCause>,
    ending: Option<EndingFact>,
    terminated: bool,
    flushScheduled: bool,
    writtenAt: real,
    workers: seq<real>,
    writes: seq<Write>)
  {
    function Effective(): RunPhase {
      held.Or(record.phase)
    }

    /** `_publish`: write `update` at `phase`, which clears what was held. */
    function Publish(update: Record, phase: RunPhase, now: real): State {
      var written := InPhase(update, phase, cause);
      this.(record := written, held := None, writtenAt := now, writes := writes + [Write(written, now)])
    }
  }

  predicate ProgressOnly(a: RunPhase, b: RunPhase) {
    a.status == b.status && a.stage == b.stage
  }

  function Init(first: Record, now: real): State {
    State(first, None, None, None, false, false, now, [], [Write(first, now)])
  }

  function ObserveStep(s: State, fact: Fact, spawned: bool, now: real): State {
    var current := s.Effective();
    var phase := Advance(current, fact);
    var s1 := s.(cause := PauseCauseAfter(s.cause, current.status, phase.status));
    var wait := s.writtenAt + INTERVAL - now;
    if phase == current then s1
    else if ProgressOnly(phase, s.record.phase) && wait > 0.0 then
      var s2 := s1.(held := Some(phase));
      if s.flushScheduled then s2
      else s2.(flushScheduled := true, workers := if spawned then s.workers + [now + wait] else s.workers)
    else s1.Publish(s1.record, phase, now)
  }

  /** One round of `_flush`'s loop, from the end of a sleep. */
  function WakeStep(s: State, worker: nat, now: real): State {
    var wait := s.writtenAt + INTERVAL - now;
    if worker >= |s.workers| then s
    else if s.held.None? || wait <= 0.0 then
      var s1 := s.(flushScheduled := false, workers := s.workers[..worker] + s.workers[worker+1..]);
      if s.held.Some? then s1.Publish(s1.record, s.held.value, now) else s1
    else s.(workers := s.workers[worker := now + wait])
  }

  function Step(s: State, t: Timed): State {
    match t.event
    case Observe(fact, spawned) => ObserveStep(s, fact, spawned, t.at)
    case PausingFor(cause) =>
      var s1 := s.(cause := Some(cause));
      if PausedBy(s.Effective(), Some(cause)) != s.record.paused then s1.Publish(s1.record, s.Effective(), t.at) else s1
    case Listening => s.Publish(s.record.(status := Serving), s.Effective(), t.at)
    case Resolved(root) => s.Publish(s.record.(projectRoot := root), s.Effective(), t.at)
    case Ending(ending) => s.(ending := Some(ending))
    case Terminated => s.(terminated := true)
    case WriteTombstone(clock) =>
      var phase := s.Effective();
      s.Publish(s.record.(endedAt := Some(clock), end := EndRecordOf(phase, s.ending, s.terminated)), phase, t.at)
    case Wake(worker) => WakeStep(s, worker, t.at)
  }

  function Run(first: Record, start: real, trace: seq<Timed>): State {
    if trace == [] then Init(first, start)
    else Step(Run(first, start, trace[..|trace|-1]), trace[|trace|-1])
  }

  // ---- runs ----

  /** The record a server starts from: accepted, and its `paused` says what its phase says. */
  predicate Starts(first: Record) {
    first.Accepted() && first.paused == PausedBy(first.phase, None)
  }

  /** `end` observes `SERVER_EXITED` before it writes the tombstone. */
  ghost predicate Exited(trace: seq<Timed>) {
    exists i :: 0 <= i < |trace| && trace[i].event.Observe? && trace[i].event.fact == EXIT
  }

  ghost predicate Ordered(start: real, trace: seq<Timed>) {
    && (forall i :: 0 <= i < |trace| ==> start <= trace[i].at)
    && (forall i, j :: 0 <= i < j < |trace| ==> trace[i].at <= trace[j].at)
  }

  /** A possible interleaving: the clock never runs back, only live workers wake, and a tombstone is
      written only by an `end` that has already observed the exit. */
  ghost predicate Legal(first: Record, start: real, trace: seq<Timed>) {
    && Ordered(start, trace)
    && (forall i :: 0 <= i < |trace| && trace[i].event.Wake? ==>
          trace[i].event.worker < |Run(first, start, trace[..i]).workers|)
    && (forall i :: 0 <= i < |trace| && trace[i].event.WriteTombstone? ==> Exited(trace[..i]))
  }

  ghost function LastTime(start: real, trace: seq<Timed>): real {
    if trace == [] then start else trace[|trace|-1].at
  }

  // ---- what every step keeps ----

  ghost predicate Inv(s: State) {
    && s.record.Accepted()
    && s.record.paused == PausedBy(s.record.phase, s.cause)
    && (s.held.Some? ==>
          s.flushScheduled && s.held.value.status.Starting? && ProgressOnly(s.held.value, s.record.phase))
    && s.writes != [] && s.writes[|s.writes|-1] == Write(s.record, s.writtenAt)
    && (forall i :: 0 <= i < |s.writes| ==> s.writes[i].record.Accepted())
  }

  /** How the throttled state stands to the unthrottled one. */
  ghost predicate Refines(s: State, p: Plain) {
    && p.record == InPhase(s.record, s.Effective(), s.cause)
    && p.cause == s.cause && p.ending == s.ending && p.terminated == s.terminated
  }

  lemma PublishKeeps(s: State, update: Record, phase: RunPhase, now: real)
    requires forall i :: 0 <= i < |s.writes| ==> s.writes[i].record.Accepted()
    requires update.endedAt.Some? || update.end.Some? ==> phase.status.HasEnded()
    ensures Inv(s.Publish(update, phase, now))
  {
  }

  /** A fact that changes a phase, but neither its status nor its stage, changes startup progress. */
  lemma OnlyStartingProgresses(written: RunPhase, current: RunPhase, fact: Fact)
    requires current == written || (current.status.Starting? && ProgressOnly(current, written))
    requires Advance(current, fact) != current && ProgressOnly(Advance(current, fact), written)
    ensures current.status.Starting? && Advance(current, fact).status.Starting?
  {
  }

  /** An observation that changes the phase and is written at once. */
  lemma WrittenObservationKeeps(s: State, p: Plain, fact: Fact, spawned: bool, now: real)
    requires Inv(s) && Refines(s, p)
    requires var phase := Advance(s.Effective(), fact);
             phase != s.Effective() && !(ProgressOnly(phase, s.record.phase) && s.writtenAt + INTERVAL - now > 0.0)
    ensures Kept(s, p, Timed(now, Observe(fact, spawned)))
  {
    var current := s.Effective();
    var phase := Advance(current, fact);
    PublishKeeps(s.(cause := PauseCauseAfter(s.cause, current.status, phase.status)), s.record, phase, now);
  }

  /** An observation that is held, or changes nothing. */
  lemma HeldObservationKeeps(s: State, p: Plain, fact: Fact, spawned: bool, now: real)
    requires Inv(s) && Refines(s, p)
    requires var phase := Advance(s.Effective(), fact);
             phase == s.Effective() || (ProgressOnly(phase, s.record.phase) && s.writtenAt + INTERVAL - now > 0.0)
    ensures Kept(s, p, Timed(now, Observe(fact, spawned)))
  {
    if Advance(s.Effective(), fact) != s.Effective() {
      OnlyStartingProgresses(s.record.phase, s.Effective(), fact);
    }
  }

  lemma ObserveKeeps(s: State, p: Plain, fact: Fact, spawned: bool, now: real)
    requires Inv(s) && Refines(s, p)
    ensures Kept(s, p, Timed(now, Observe(fact, spawned)))
  {
    var phase := Advance(s.Effective(), fact);
    if phase == s.Effective() || (ProgressOnly(phase, s.record.phase) && s.writtenAt + INTERVAL - now > 0.0) {
      HeldObservationKeeps(s, p, fact, spawned, now);
    } else {
      WrittenObservationKeeps(s, p, fact, spawned, now);
    }
  }

  lemma PausingKeeps(s: State, p: Plain, cause: PauseCause, now: real)
    requires Inv(s) && Refines(s, p)
    ensures Kept(s, p, Timed(now, PausingFor(cause)))
  {
    PublishKeeps(s.(cause := Some(cause)), s.record, s.Effective(), now);
  }

  lemma UpdateKeeps(s: State, p: Plain, t: Timed)
    requires Inv(s) && Refines(s, p)
    requires t.event.Listening? || t.event.Resolved? || t.event.WriteTombstone?
    requires t.event.WriteTombstone? ==> s.Effective().status.HasEnded()
    ensures Kept(s, p, t)
  {
    var update := match t.event
      case Listening => s.record.(status := Serving)
      case Resolved(root) => s.record.(projectRoot := root)
      case WriteTombstone(clock) =>
        s.record.(endedAt := Some(clock), end := EndRecordOf(s.Effective(), s.ending, s.terminated));
    assert Step(s, t) == s.Publish(update, s.Effective(), t.at);
    PublishKeeps(s, update, s.Effective(), t.at);
  }

  lemma WakeKeeps(s: State, p: Plain, worker: nat, now: real)
    requires Inv(s) && Refines(s, p)
    ensures Kept(s, p, Timed(now, Wake(worker)))
  {
    if worker < |s.workers| && s.held.Some? {
      var s1 := s.(flushScheduled := false, workers := s.workers[..worker] + s.workers[worker+1..]);
      PublishKeeps(s1, s1.record, s.held.value, now);
    }
  }

  /** A step that keeps the invariant, stays in step with the unthrottled publisher, and writes, if
      anything, exactly the unthrottled publisher's record of that moment. */
  ghost predicate Kept(s: State, p: Plain, t: Timed) {
    var s', p' := Step(s, t), PlainStep(p, t.event);
    && Inv(s') && Refines(s', p')
    && (s'.writes == s.writes || s'.writes == s.writes + [Write(p'.record, t.at)])
  }

  lemma StepKeeps(s: State, p: Plain, t: Timed)
    requires Inv(s) && Refines(s, p)
    requires t.event.WriteTombstone? ==> s.Effective().status.HasEnded()
    ensures Kept(s, p, t)
  {
    match t.event
    case Observe(fact, spawned) => ObserveKeeps(s, p, fact, spawned, t.at);
    case PausingFor(cause) => PausingKeeps(s, p, cause, t.at);
    case Wake(worker) => WakeKeeps(s, p, worker, t.at);
    case Ending(_) =>
    case Terminated =>
    case _ => UpdateKeeps(s, p, t);
  }

  // ---- refinement over every run ----

  function FactsOf(trace: seq<Timed>): seq<Fact> {
    if trace == [] then []
    else
      var last := trace[|trace|-1].event;
      FactsOf(trace[..|trace|-1]) + if last.Observe? then [last.fact] else []
  }

  lemma {:induction false} PlainPhaseIsFold(first: Record, trace: seq<Timed>)
    ensures PlainRun(first, trace).record.phase == Fold(first.phase, FactsOf(trace))
  {
    if trace != [] {
      var before, last := trace[..|trace|-1], trace[|trace|-1].event;
      PlainPhaseIsFold(first, before);
      if last.Observe? {
        var facts := FactsOf(trace);
        assert facts[..|facts|-1] == FactsOf(before);
      } else {
        assert FactsOf(trace) == FactsOf(before);
      }
    }
  }

  lemma {:induction false} ExitedEnds(first: Record, trace: seq<Timed>)
    requires Exited(trace)
    ensures PlainRun(first, trace).record.phase.status.HasEnded()
  {
    var before, last := trace[..|trace|-1], trace[|trace|-1].event;
    var i :| 0 <= i < |trace| && trace[i].event.Observe? && trace[i].event.fact == EXIT;
    if i < |before| {
      assert before[i] == trace[i];
      ExitedEnds(first, before);
    }
  }

  lemma LegalPrefix(first: Record, start: real, trace: seq<Timed>, k: nat)
    requires Legal(first, start, trace) && k <= |trace|
    ensures Legal(first, start, trace[..k])
  {
    forall i | 0 <= i < k
      ensures trace[..k][..i] == trace[..i]
    {
    }
  }

  /** In every interleaving the throttled publisher refines the unthrottled one: the effective phase is
      the plain fold of every observed fact, the stored record is the unthrottled record except that a
      held phase may be ahead of it in startup progress alone, and its `paused` matches its phase. */
  lemma {:induction false} ThrottledRefinesPlain(first: Record, start: real, trace: seq<Timed>)
    requires Starts(first) && Legal(first, start, trace)
    ensures var s, p := Run(first, start, trace), PlainRun(first, trace);
            && Inv(s) && Refines(s, p)
            && s.Effective() == Fold(first.phase, FactsOf(trace))
            && (s.held.None? ==> s.record == p.record)
            && s.record == p.record.(phase := p.record.phase.(progress := s.record.phase.progress))
  {
    PlainPhaseIsFold(first, trace);
    if trace != [] {
      var n := |trace| - 1;
      LegalPrefix(first, start, trace, n);
      ThrottledRefinesPlain(first, start, trace[..n]);
      if trace[n].event.WriteTombstone? {
        ExitedEnds(first, trace[..n]);
      }
      StepKeeps(Run(first, start, trace[..n]), PlainRun(first, trace[..n]), trace[n]);
    }
    HeldDiffersInProgress(Run(first, start, trace), PlainRun(first, trace));
  }

  lemma HeldDiffersInProgress(s: State, p: Plain)
    requires Inv(s) && Refines(s, p)
    ensures s.held.None? ==> s.record == p.record
    ensures s.record == p.record.(phase := p.record.phase.(progress := s.record.phase.progress))
  {
  }

  // ---- who paused the run ----

  /** The status all facts observed before step `k` fold to. */
  function StatusBefore(first: Record, trace: seq<Timed>, k: nat): RunStatus
    requires k <= |trace|
  {
    Fold(first.phase, FactsOf(trace[..k])).status
  }

  /** Step `k` moves the run out of its pause. */
  ghost predicate LeavesPause(first: Record, trace: seq<Timed>, k: nat)
    requires k < |trace|
  {
    StatusBefore(first, trace, k) in {Pausing, Paused} && StatusBefore(first, trace, k + 1) !in {Pausing, Paused}
  }

  /** Step `i` reports a cause, and since then no other was reported and the run has left no pause. */
  ghost predicate CauseStands(first: Record, trace: seq<Timed>, i: nat) {
    && i < |trace| && trace[i].event.PausingFor?
    && forall k :: i < k < |trace| ==> !trace[k].event.PausingFor? && !LeavesPause(first, trace, k)
  }

  /** `paused` names who paused a run with this history: nobody unless it is paused, the cause that stands if
      one does, and the operator otherwise. */
  ghost predicate NamesThePauser(first: Record, trace: seq<Timed>, paused: Option<PauseCause>) {
    if !StatusBefore(first, trace, |trace|).Paused? then paused == None
    else if exists i: nat :: CauseStands(first, trace, i)
    then forall i: nat :: CauseStands(first, trace, i) ==> paused == Some(trace[i].event.cause)
    else paused == Some(User)
  }

  lemma StatusInPrefix(first: Record, trace: seq<Timed>, n: nat, k: nat)
    requires k <= n <= |trace|
    ensures StatusBefore(first, trace[..n], k) == StatusBefore(first, trace, k)
  {
    assert trace[..n][..k] == trace[..k];
  }

  lemma CauseStandsStep(first: Record, trace: seq<Timed>, i: nat)
    requires trace != []
    ensures var n := |trace| - 1;
            CauseStands(first, trace, i) <==>
              if i == n then trace[n].event.PausingFor?
              else CauseStands(first, trace[..n], i) && !trace[n].event.PausingFor? && !LeavesPause(first, trace, n)
  {
    var n := |trace| - 1;
    forall k | 0 <= k < n
      ensures trace[..n][k] == trace[k] && (LeavesPause(first, trace[..n], k) <==> LeavesPause(first, trace, k))
    {
      LeavesInPrefix(first, trace, n, k);
    }
  }

  lemma LeavesInPrefix(first: Record, trace: seq<Timed>, n: nat, k: nat)
    requires k < n <= |trace|
    ensures LeavesPause(first, trace[..n], k) <==> LeavesPause(first, trace, k)
  {
    StatusInPrefix(first, trace, n, k);
    StatusInPrefix(first, trace, n, k + 1);
  }

  /** The cause the publisher holds is the one that stands. */
  ghost predicate HoldsTheCause(first: Record, trace: seq<Timed>, cause: Option<PauseCause>) {
    && (forall i: nat :: CauseStands(first, trace, i) ==> cause == Some(trace[i].event.cause))
    && (cause.Some? ==> exists i: nat :: CauseStands(first, trace, i))
  }

  lemma PlainStatuses(first: Record, trace: seq<Timed>)
    requires trace != []
    ensures var n := |trace| - 1;
            && PlainRun(first, trace[..n]).record.phase.status == StatusBefore(first, trace, n)
            && PlainRun(first, trace).record.phase.status == StatusBefore(first, trace, n + 1)
  {
    PlainPhaseIsFold(first, trace[..|trace|-1]);
    PlainPhaseIsFold(first, trace);
    assert trace[..|trace|] == trace;
  }

  lemma PlainCauseStep(first: Record, trace: seq<Timed>)
    requires trace != []
    ensures var n := |trace| - 1;
            PlainRun(first, trace).cause ==
            if trace[n].event.PausingFor? then Some(trace[n].event.cause)
            else if LeavesPause(first, trace, n) then None
            else PlainRun(first, trace[..n]).cause
  {
    var n := |trace| - 1;
    PlainStatuses(first, trace);
    PlainCauseMoves(PlainRun(first, trace[..n]), trace[n].event);
  }

  lemma PlainCauseMoves(p: Plain, event: Event)
    ensures var after := PlainStep(p, event);
            after.cause ==
            if event.PausingFor? then Some(event.cause)
            else
              var before, now := p.record.phase.status, after.record.phase.status;
              if before in {Pausing, Paused} && now !in {Pausing, Paused} then None else p.cause
  {
  }

  lemma {:induction false} PlainHoldsTheCause(first: Record, trace: seq<Timed>)
    ensures HoldsTheCause(first, trace, PlainRun(first, trace).cause)
  {
    if trace != [] {
      var n := |trace| - 1;
      var before := trace[..n];
      PlainHoldsTheCause(first, before);
      PlainCauseStep(first, trace);
      forall i: nat | CauseStands(first, trace, i)
        ensures PlainRun(first, trace).cause == Some(trace[i].event.cause)
      {
        CauseStandsStep(first, trace, i);
        assert i < n ==> before[i] == trace[i];
      }
      if trace[n].event.PausingFor? {
        CauseStandsStep(first, trace, n);
      } else if PlainRun(first, trace).cause.Some? {
        var i: nat :| CauseStands(first, before, i);
        CauseStandsStep(first, trace, i);
      }
    }
  }

  lemma {:induction false} PlainPausedFollows(first: Record, trace: seq<Timed>)
    requires first.paused == PausedBy(first.phase, None)
    ensures var p := PlainRun(first, trace); p.record.paused == PausedBy(p.record.phase, p.cause)
  {
    if trace != [] {
      PlainPausedFollows(first, trace[..|trace|-1]);
    }
  }

  /** Over every interleaving: each record written, and the one stored after every step, names exactly who
      paused the run whose facts and causes were reported by then. */
  lemma EveryRecordNamesThePauser(first: Record, start: real, trace: seq<Timed>)
    requires Starts(first) && Legal(first, start, trace)
    ensures NamesThePauser(first, trace, Run(first, start, trace).record.paused)
    ensures NamesThePauser(first, trace, PlainRun(first, trace).record.paused)
  {
    assert trace[..|trace|] == trace;
    ThrottledRefinesPlain(first, start, trace);
    PlainPhaseIsFold(first, trace);
    PlainPausedFollows(first, trace);
    PlainHoldsTheCause(first, trace);
  }

  // ---- the record's other fields ----

  datatype Field = ItsStatus | ItsRoot | ItsEnd

  predicate Sets(event: Event, field: Field) {
    match field
    case ItsStatus => event.Listening?
    case ItsRoot => event.Resolved?
    case ItsEnd => event.WriteTombstone?
  }

  /** Step `i` is the last that sets `field`. */
  ghost predicate Last(trace: seq<Timed>, field: Field, i: nat) {
    i < |trace| && Sets(trace[i].event, field) && forall k :: i < k < |trace| ==> !Sets(trace[k].event, field)
  }

  ghost predicate Never(trace: seq<Timed>, field: Field) {
    forall k :: 0 <= k < |trace| ==> !Sets(trace[k].event, field)
  }

  /** A run serves once it has listened; its root is the last one resolved and its end time that of the last
      tombstone, each as it was at first if there was none; and its id stays. */
  ghost predicate IsCurrent(first: Record, trace: seq<Timed>, record: Record) {
    && record.id == first.id && record.status == (if Never(trace, ItsStatus) then first.status else Serving)
    && RootIsCurrent(first, trace, record.projectRoot) && EndIsCurrent(first, trace, record.endedAt)
  }

  ghost predicate RootIsCurrent(first: Record, trace: seq<Timed>, root: string) {
    && (Never(trace, ItsRoot) ==> root == first.projectRoot)
    && (forall i: nat :: Last(trace, ItsRoot, i) ==> trace[i].event == Resolved(root))
  }

  ghost predicate EndIsCurrent(first: Record, trace: seq<Timed>, endedAt: Option<real>) {
    && (Never(trace, ItsEnd) ==> endedAt == first.endedAt)
    && (forall i: nat :: Last(trace, ItsEnd, i) ==> endedAt == Some(trace[i].event.clock))
  }

  /** What the last step sets is set last; what it does not is set last where it was. */
  lemma LastStep(trace: seq<Timed>, field: Field, i: nat)
    requires trace != []
    ensures var n := |trace| - 1;
            if Sets(trace[n].event, field) then !Never(trace, field) && (Last(trace, field, i) ==> i == n)
            else
              && (Never(trace, field) <==> Never(trace[..n], field))
              && (Last(trace, field, i) ==> Last(trace[..n], field, i) && trace[..n][i] == trace[i])
  {
    var n := |trace| - 1;
    assert forall k :: 0 <= k < n ==> trace[..n][k] == trace[k];
  }

  lemma RootStep(first: Record, trace: seq<Timed>, root: string, after: string)
    requires trace != [] && RootIsCurrent(first, trace[..|trace|-1], root)
    requires var last := trace[|trace|-1].event; after == if last.Resolved? then last.root else root
    ensures RootIsCurrent(first, trace, after)
  {
    LastStep(trace, ItsRoot, 0);
    forall i: nat | Last(trace, ItsRoot, i)
      ensures trace[i].event == Resolved(after)
    {
      LastStep(trace, ItsRoot, i);
    }
  }

  lemma EndStep(first: Record, trace: seq<Timed>, endedAt: Option<real>, after: Option<real>)
    requires trace != [] && EndIsCurrent(first, trace[..|trace|-1], endedAt)
    requires var last := trace[|trace|-1].event; after == if last.WriteTombstone? then Some(last.clock) else endedAt
    ensures EndIsCurrent(first, trace, after)
  {
    LastStep(trace, ItsEnd, 0);
    forall i: nat | Last(trace, ItsEnd, i)
      ensures after == Some(trace[i].event.clock)
    {
      LastStep(trace, ItsEnd, i);
    }
  }

  lemma PlainFields(p: Plain, event: Event)
    ensures var before, after := p.record, PlainStep(p, event).record;
            && after.id == before.id && after.status == (if event.Listening? then Serving else before.status)
            && after.projectRoot == (if event.Resolved? then event.root else before.projectRoot)
            && after.endedAt == (if event.WriteTombstone? then Some(event.clock) else before.endedAt)
  {
  }

  lemma {:induction false} PlainRecordIsCurrent(first: Record, trace: seq<Timed>)
    ensures IsCurrent(first, trace, PlainRun(first, trace).record)
  {
    if trace != [] {
      var n := |trace| - 1;
      var before, after := PlainRun(first, trace[..n]), PlainRun(first, trace);
      PlainRecordIsCurrent(first, trace[..n]);
      PlainFields(before, trace[n].event);
      LastStep(trace, ItsStatus, 0);
      RootStep(first, trace, before.record.projectRoot, after.record.projectRoot);
      EndStep(first, trace, before.record.endedAt, after.record.endedAt);
    }
  }

  /** Over every interleaving the stored record is current after every step, whatever phase is held. */
  lemma EveryRecordIsCurrent(first: Record, start: real, trace: seq<Timed>)
    requires Starts(first) && Legal(first, start, trace)
    ensures IsCurrent(first, trace, Run(first, start, trace).record)
  {
    ThrottledRefinesPlain(first, start, trace);
    PlainRecordIsCurrent(first, trace);
  }

  lemma WriteIsPlainWrite(first: Record, start: real, trace: seq<Timed>, i: nat)
    requires Starts(first) && Legal(first, start, trace) && i < |trace|
    ensures var before, after := Run(first, start, trace[..i]), Run(first, start, trace[..i+1]);
            var plain := PlainRun(first, trace[..i+1]);
            after.writes != before.writes ==>
              && after.writes == before.writes + [Write(plain.record, trace[i].at)]
              && plain.record.Accepted()
              && plain.record.phase == Fold(first.phase, FactsOf(trace[..i+1]))
  {
    assert trace[..i+1][..i] == trace[..i];
    LegalPrefix(first, start, trace, i);
    LegalPrefix(first, start, trace, i+1);
    ThrottledRefinesPlain(first, start, trace[..i]);
    ThrottledRefinesPlain(first, start, trace[..i+1]);
    if trace[i].event.WriteTombstone? {
      ExitedEnds(first, trace[..i]);
    }
    StepKeeps(Run(first, start, trace[..i]), PlainRun(first, trace[..i]), trace[i]);
  }

  /** Every write, at whatever step of whatever run, carries the unthrottled record of that moment,
      `LiveInstanceRecord` accepts it, and its `paused` names who paused the run. */
  lemma WritesArePlainWrites(first: Record, start: real, trace: seq<Timed>, i: nat)
    requires Starts(first) && Legal(first, start, trace) && i < |trace|
    ensures var before, after := Run(first, start, trace[..i]), Run(first, start, trace[..i+1]);
            var plain := PlainRun(first, trace[..i+1]);
            after.writes != before.writes ==>
              && after.writes == before.writes + [Write(plain.record, trace[i].at)]
              && plain.record.Accepted()
              && (plain.record.endedAt.Some? || plain.record.end.Some? ==> plain.record.phase.status.HasEnded())
              && (plain.record.paused.Some? ==> plain.record.phase.status.Paused?)
              && plain.record.phase == Fold(first.phase, FactsOf(trace[..i+1]))
              && NamesThePauser(first, trace[..i+1], plain.record.paused)
  {
    WriteIsPlainWrite(first, start, trace, i);
    LegalPrefix(first, start, trace, i+1);
    EveryRecordNamesThePauser(first, start, trace[..i+1]);
  }

  // ---- throttle safety ----

  lemma SpacedStep(s: State, t: Timed)
    requires Inv(s)
    requires Step(s, t).writes != s.writes
    requires t.event.Wake? || (t.event.Observe? && ProgressOnly(Step(s, t).record.phase, s.record.phase))
    ensures t.at >= s.writtenAt + INTERVAL
  {
    match t.event
    case Observe(fact, spawned) => assert Step(s, t) == ObserveStep(s, fact, spawned, t.at);
    case Wake(worker) => assert Step(s, t) == WakeStep(s, worker, t.at);
  }

  /** A flush, or an `observe` that changes progress alone, writes only a whole interval after the
      write before it. */
  lemma ThrottledWritesAreSpaced(first: Record, start: real, trace: seq<Timed>, i: nat)
    requires Starts(first) && Legal(first, start, trace) && i < |trace|
    ensures var before, after := Run(first, start, trace[..i]), Run(first, start, trace[..i+1]);
            && after.writes != before.writes
            && (|| trace[i].event.Wake?
                || (trace[i].event.Observe? && ProgressOnly(after.record.phase, before.record.phase)))
            ==> before.writes != [] && trace[i].at >= before.writes[|before.writes|-1].at + INTERVAL
  {
    assert trace[..i+1][..i] == trace[..i];
    LegalPrefix(first, start, trace, i);
    ThrottledRefinesPlain(first, start, trace[..i]);
    var before, after := Run(first, start, trace[..i]), Run(first, start, trace[..i+1]);
    assert after == Step(before, trace[i]);
    if after.writes != before.writes
       && (trace[i].event.Wake? || (trace[i].event.Observe? && ProgressOnly(after.record.phase, before.record.phase))) {
      SpacedStep(before, trace[i]);
    }
  }

  /** `spawn` was asked for a worker at step `i` and the runtime refused it. */
  ghost predicate RefusedAt(first: Record, start: real, trace: seq<Timed>, i: nat)
    requires i < |trace|
  {
    && trace[i].event.Observe? && !trace[i].event.spawned
    && !Run(first, start, trace[..i]).flushScheduled && Run(first, start, trace[..i+1]).flushScheduled
  }

  ghost predicate NeverRefused(first: Record, start: real, trace: seq<Timed>) {
    forall i :: 0 <= i < |trace| ==> !RefusedAt(first, start, trace, i)
  }

  lemma NeverRefusedPrefix(first: Record, start: real, trace: seq<Timed>)
    requires trace != []
    ensures NeverRefused(first, start, trace) <==>
              NeverRefused(first, start, trace[..|trace|-1]) && !RefusedAt(first, start, trace, |trace|-1)
  {
    var before := trace[..|trace|-1];
    forall i | 0 <= i < |before|
      ensures RefusedAt(first, start, before, i) <==> RefusedAt(first, start, trace, i)
    {
      assert before[..i] == trace[..i] && before[..i+1] == trace[..i+1];
    }
  }

  ghost predicate Owned(s: State) {
    |s.workers| == if s.flushScheduled then 1 else 0
  }

  ghost predicate Orphaned(s: State) {
    s.flushScheduled && s.workers == []
  }

  lemma WorkersStep(s: State, t: Timed)
    requires t.event.Wake? ==> t.event.worker < |s.workers|
    requires Owned(s) || Orphaned(s)
    ensures var refused := t.event.Observe? && !t.event.spawned && !s.flushScheduled && Step(s, t).flushScheduled;
            if Owned(s) && !refused then Owned(Step(s, t)) else Orphaned(Step(s, t))
  {
    match t.event
    case Observe(fact, spawned) => assert Step(s, t) == ObserveStep(s, fact, spawned, t.at);
    case Wake(worker) => assert Step(s, t) == WakeStep(s, worker, t.at);
    case _ =>
  }

  /** A scheduled flush has exactly one live worker, and an unscheduled one none, exactly as long as the
      runtime never refused a worker; after a refusal the flag stays set with no worker behind it. */
  lemma {:induction false} OneWorkerUnlessRefused(first: Record, start: real, trace: seq<Timed>)
    requires Legal(first, start, trace)
    ensures var s := Run(first, start, trace);
            if NeverRefused(first, start, trace) then Owned(s) else Orphaned(s)
  {
    if trace != [] {
      var n := |trace| - 1;
      LegalPrefix(first, start, trace, n);
      OneWorkerUnlessRefused(first, start, trace[..n]);
      NeverRefusedPrefix(first, start, trace);
      assert trace[..n+1] == trace;
      WorkersStep(Run(first, start, trace[..n]), trace[n]);
    }
  }

  /** So a held phase has exactly one live worker if and only if no worker was ever refused. */
  lemma HeldHasOneWorker(first: Record, start: real, trace: seq<Timed>)
    requires Starts(first) && Legal(first, start, trace)
    requires Run(first, start, trace).held.Some?
    ensures |Run(first, start, trace).workers| == 1 <==> NeverRefused(first, start, trace)
  {
    ThrottledRefinesPlain(first, start, trace);
    OneWorkerUnlessRefused(first, start, trace);
  }

  /** A refusal does strand a held phase: one progress report, half an interval after the first write. */
  lemma RefusalStrands()
    ensures var building := RunPhase(Starting, Some(BuildingImage), None, None);
            var first := Record("i", ServerStarting, building, "/p", None, None, None);
            var step := StartupFact(BuildingImage, Some(StartupProgress(1, Some(9), "RUN")));
            var trace := [Timed(0.5, Observe(Fact(None, None, Some(step)), false))];
            && Starts(first) && Legal(first, 0.0, trace)
            && Run(first, 0.0, trace).held.Some? && Run(first, 0.0, trace).workers == []
  {
    var building := RunPhase(Starting, Some(BuildingImage), None, None);
    var first := Record("i", ServerStarting, building, "/p", None, None, None);
    var step := StartupFact(BuildingImage, Some(StartupProgress(1, Some(9), "RUN")));
    var t := Timed(0.5, Observe(Fact(None, None, Some(step)), false));
    assert [t][..0] == [];
    assert Run(first, 0.0, [t]) == Step(Init(first, 0.0), t);
  }

  // ---- bounded staleness ----

  /** Prompt wake-ups: the clock never passes a live worker's wake time while the worker sleeps. */
  ghost predicate Prompt(first: Record, start: real, trace: seq<Timed>) {
    forall i, w :: 0 <= i < |trace| && w in Run(first, start, trace[..i]).workers ==> trace[i].at <= w
  }

  ghost predicate WakesInTime(s: State, now: real) {
    && s.writtenAt <= now
    && forall k :: 0 <= k < |s.workers| ==> s.workers[k] <= s.writtenAt + INTERVAL
  }

  lemma ObserveWakesInTime(s: State, fact: Fact, spawned: bool, now: real)
    requires WakesInTime(s, now)
    ensures WakesInTime(ObserveStep(s, fact, spawned, now), now)
  {
  }

  lemma WakeWakesInTime(s: State, worker: nat, now: real)
    requires WakesInTime(s, now)
    ensures WakesInTime(WakeStep(s, worker, now), now)
  {
  }

  lemma WakesInTimeStep(s: State, t: Timed, now: real)
    requires WakesInTime(s, now) && now <= t.at
    ensures WakesInTime(Step(s, t), t.at)
  {
    assert WakesInTime(s, t.at);
    match t.event
    case Observe(fact, spawned) => ObserveWakesInTime(s, fact, spawned, t.at);
    case Wake(worker) => WakeWakesInTime(s, worker, t.at);
    case _ =>
  }

  lemma {:induction false} RunWakesInTime(first: Record, start: real, trace: seq<Timed>)
    requires Legal(first, start, trace)
    ensures WakesInTime(Run(first, start, trace), LastTime(start, trace))
  {
    if trace != [] {
      var n := |trace| - 1;
      LegalPrefix(first, start, trace, n);
      RunWakesInTime(first, start, trace[..n]);
      WakesInTimeStep(Run(first, start, trace[..n]), trace[n], LastTime(start, trace[..n]));
    }
  }

  /** With prompt wake-ups, nothing is still held once the interval since the last write has passed. */
  lemma HeldIsFresh(first: Record, start: real, trace: seq<Timed>, i: nat)
    requires Starts(first) && Legal(first, start, trace) && i < |trace|
    requires NeverRefused(first, start, trace[..i]) && Prompt(first, start, trace)
    requires Run(first, start, trace[..i]).held.Some?
    ensures trace[i].at <= Run(first, start, trace[..i]).writtenAt + INTERVAL
  {
    LegalPrefix(first, start, trace, i);
    HeldHasOneWorker(first, start, trace[..i]);
    RunWakesInTime(first, start, trace[..i]);
    var s := Run(first, start, trace[..i]);
    assert s.workers[0] in s.workers;
  }

  lemma NoWriteKeepsHeld(s: State, t: Timed)
    requires s.held.Some? && Step(s, t).writes == s.writes
    ensures Step(s, t).held.Some? && Step(s, t).writtenAt == s.writtenAt
  {
    match t.event
    case Observe(fact, spawned) => assert Step(s, t) == ObserveStep(s, fact, spawned, t.at);
    case Wake(worker) => assert Step(s, t) == WakeStep(s, worker, t.at);
    case _ =>
  }

  /** With prompt wake-ups, once the clock has passed the last write by more than an interval, whatever
      was held has been written: some step in between wrote, within that interval. */
  lemma {:induction false} HeldReachesRegistry(first: Record, start: real, trace: seq<Timed>, i: nat, j: nat)
    requires Starts(first) && Legal(first, start, trace) && i <= j < |trace|
    requires NeverRefused(first, start, trace) && Prompt(first, start, trace)
    requires Run(first, start, trace[..i]).held.Some?
    requires trace[j].at > Run(first, start, trace[..i]).writtenAt + INTERVAL
    ensures exists k ::
              && i <= k < j && WritesAt(first, start, trace, k)
              && trace[k].at <= Run(first, start, trace[..i]).writtenAt + INTERVAL
    decreases j - i
  {
    NeverRefusedUpTo(first, start, trace, i);
    HeldIsFresh(first, start, trace, i);
    if !WritesAt(first, start, trace, i) {
      StaysHeld(first, start, trace, i);
      HeldReachesRegistry(first, start, trace, i + 1, j);
    }
  }

  /** Step `k` writes. */
  ghost predicate WritesAt(first: Record, start: real, trace: seq<Timed>, k: nat)
    requires k < |trace|
  {
    Run(first, start, trace[..k+1]).writes != Run(first, start, trace[..k]).writes
  }

  lemma StaysHeld(first: Record, start: real, trace: seq<Timed>, i: nat)
    requires i < |trace| && Run(first, start, trace[..i]).held.Some? && !WritesAt(first, start, trace, i)
    ensures var before, after := Run(first, start, trace[..i]), Run(first, start, trace[..i+1]);
            after.held.Some? && after.writtenAt == before.writtenAt
  {
    assert trace[..i+1][..i] == trace[..i];
    NoWriteKeepsHeld(Run(first, start, trace[..i]), trace[i]);
  }

  lemma NeverRefusedUpTo(first: Record, start: real, trace: seq<Timed>, k: nat)
    requires NeverRefused(first, start, trace) && k <= |trace|
    ensures NeverRefused(first, start, trace[..k])
  {
    forall i | 0 <= i < k
      ensures !RefusedAt(first, start, trace[..k], i)
    {
      assert trace[..k][..i] == trace[..i] && trace[..k][..i+1] == trace[..i+1];
      assert !RefusedAt(first, start, trace, i);
    }
  }

  // ---- the tombstone ----

  lemma TombstoneLast(first: Record, start: real, before: seq<Timed>, t: Timed)
    requires Starts(first) && Legal(first, start, before + [t]) && t.event.WriteTombstone?
    ensures Ended(Step(Run(first, start, before), t))
    ensures Step(Run(first, start, before), t).record.phase == Fold(first.phase, FactsOf(before))
  {
    var trace := before + [t];
    assert trace[..|before|] == before && trace[|before|] == t;
    LegalPrefix(first, start, trace, |before|);
    ThrottledRefinesPlain(first, start, before);
    ExitedEnds(first, before);
    TombstoneStep(Run(first, start, before), t);
  }

  /** Once `end` has written its record, every later step leaves that phase, ended, with an end time. */
  lemma {:induction false} TombstoneStays(first: Record, start: real, trace: seq<Timed>, i: nat)
    requires Starts(first) && Legal(first, start, trace)
    requires i < |trace| && trace[i].event.WriteTombstone?
    ensures Ended(Run(first, start, trace))
    ensures Run(first, start, trace).record.phase == Fold(first.phase, FactsOf(trace[..i]))
  {
    var n := |trace| - 1;
    var before := trace[..n];
    assert trace == before + [trace[n]];
    if i == n {
      TombstoneLast(first, start, before, trace[n]);
    } else {
      LegalPrefix(first, start, trace, n);
      assert before[i] == trace[i] && before[..i] == trace[..i];
      TombstoneStays(first, start, before, i);
      EndedStep(Run(first, start, before), trace[n]);
    }
  }

  /** The last ending a run reported. */
  function LastEnding(trace: seq<Timed>): Option<EndingFact> {
    if trace == [] then None
    else
      var last := trace[|trace|-1].event;
      if last.Ending? then Some(last.ending) else LastEnding(trace[..|trace|-1])
  }

  ghost predicate WasTerminated(trace: seq<Timed>) {
    exists i :: 0 <= i < |trace| && trace[i].event.Terminated?
  }

  lemma {:induction false} PlainKnowsTheEnd(first: Record, trace: seq<Timed>)
    ensures PlainRun(first, trace).ending == LastEnding(trace)
    ensures PlainRun(first, trace).terminated <==> WasTerminated(trace)
  {
    if trace != [] {
      var n := |trace| - 1;
      var before := trace[..n];
      PlainKnowsTheEnd(first, before);
      if WasTerminated(before) {
        var i :| 0 <= i < n && before[i].event.Terminated?;
        assert trace[i].event.Terminated?;
      }
      if trace[n].event.Terminated? {
        assert WasTerminated(trace);
      }
      if WasTerminated(trace) && !trace[n].event.Terminated? {
        var i :| 0 <= i <= n && trace[i].event.Terminated?;
        assert before[i].event.Terminated?;
      }
    }
  }

  /** In every interleaving the tombstone tells the end of the run as all facts and reports before it give
      it; of a run that ended it is silent only if it completed and reported no outcome. */
  lemma TombstoneTellsTheEnd(first: Record, start: real, before: seq<Timed>, t: Timed)
    requires Starts(first) && Legal(first, start, before + [t]) && t.event.WriteTombstone?
    ensures var end := Step(Run(first, start, before), t).record.end;
            var phase, ending := Fold(first.phase, FactsOf(before)), LastEnding(before);
            && Tells(end, phase, ending, WasTerminated(before))
            && (end.None? <==>
                  && phase.status.Completed? && !WasTerminated(before)
                  && (ending.None? || ending.value.outcome.None?))
  {
    var trace := before + [t];
    assert trace[..|before|] == before && trace[|before|] == t;
    LegalPrefix(first, start, trace, |before|);
    RunKnowsTheEnd(first, start, before);
    ExitedEnds(first, before);
    PlainPhaseIsFold(first, before);
    TombstoneTells(Run(first, start, before), t);
  }

  lemma RunKnowsTheEnd(first: Record, start: real, trace: seq<Timed>)
    requires Starts(first) && Legal(first, start, trace)
    ensures var s := Run(first, start, trace);
            && s.Effective() == Fold(first.phase, FactsOf(trace)) && s.ending == LastEnding(trace)
            && (s.terminated <==> WasTerminated(trace))
  {
    ThrottledRefinesPlain(first, start, trace);
    PlainKnowsTheEnd(first, trace);
  }

  lemma TombstoneTells(s: State, t: Timed)
    requires t.event.WriteTombstone? && s.Effective().status.HasEnded()
    ensures var end := Step(s, t).record.end;
            && Tells(end, s.Effective(), s.ending, s.terminated)
            && (end.None? <==>
                  s.Effective().status.Completed? && !s.terminated && (s.ending.None? || s.ending.value.outcome.None?))
  {
    EndRecordTells(s.Effective(), s.ending, s.terminated);
    assert Step(s, t).record.end == EndRecordOf(s.Effective(), s.ending, s.terminated);
  }

  lemma TombstoneStep(s: State, t: Timed)
    requires t.event.WriteTombstone? && s.Effective().status.HasEnded()
    ensures Ended(Step(s, t)) && Step(s, t).record.phase == s.Effective()
  {
  }

  /** A tombstone: an ended phase, nothing held, an end time. */
  predicate Ended(s: State) {
    s.record.phase.status.HasEnded() && s.held.None? && s.record.endedAt.Some?
  }

  lemma EndedStep(s: State, t: Timed)
    requires Ended(s)
    ensures Ended(Step(s, t)) && Step(s, t).record.phase == s.record.phase
  {
    match t.event
    case Observe(fact, spawned) => assert Step(s, t) == ObserveStep(s, fact, spawned, t.at);
    case Wake(worker) => assert Step(s, t) == WakeStep(s, worker, t.at);
    case _ =>
  }

  // ---- the class: each locked section is the step the runs above are made of ----

  class RecordPublisher {
    var record: Record
    var held: Option<RunPhase>
    var pauseCause: Option<PauseCause>
    var endingFact: Option<EndingFact>
    var wasTerminated: bool
    var flushScheduled: bool
    var writtenAt: real
    var workers: seq<real>
    var published: seq<Write>

    ghost function View(): State
      reads this
    {
      State(record, held, pauseCause, endingFact, wasTerminated, flushScheduled, writtenAt, workers, published)
    }

    constructor (first: Record, now: real)
      ensures View() == Init(first, now)
    {
      record, held, pauseCause, endingFact := first, None, None, None;
      wasTerminated, flushScheduled, writtenAt, workers := false, false, now, [];
      published := [Write(first, now)];
    }

    /** `_publish`; `update` is the record with the caller's other fields changed. */
    method Publish(phase: RunPhase, update: Record, now: real)
      modifies this
      ensures View() == old(View()).Publish(update, phase, now)
    {
      record := update.(phase := phase, paused := PausedBy(phase, pauseCause));
      held := None;
      writtenAt := now;
      published := published + [Write(record, now)];
    }

    /** `observe`; a refused worker raises out of it, after the flag was set. */
    method Observe(fact: Fact, now: real, spawned: bool) returns (raised: bool)
      modifies this
      ensures View() == Step(old(View()), Timed(now, Event.Observe(fact, spawned)))
      ensures raised <==> !spawned && !old(flushScheduled) && flushScheduled
    {
      raised := false;
      var current := held.Or(record.phase);
      var phase := Advance(current, fact);
      pauseCause := PauseCauseAfter(pauseCause, current.status, phase.status);
      if phase == current {
        return;
      }
      var wait := writtenAt + INTERVAL - now;
      if ProgressOnly(phase, record.phase) && wait > 0.0 {
        held := Some(phase);
        if !flushScheduled {
          flushScheduled := true;
          if spawned {
            workers := workers + [now + wait];
          } else {
            raised := true;
          }
        }
        return;
      }
      Publish(phase, record, now);
    }

    method PausingFor(cause: PauseCause, now: real)
      modifies this
      ensures View() == Step(old(View()), Timed(now, Event.PausingFor(cause)))
    {
      pauseCause := Some(cause);
      var phase := held.Or(record.phase);
      if PausedBy(phase, Some(cause)) != record.paused {
        Publish(phase, record, now);
      }
    }

    method Listening(now: real)
      modifies this
      ensures View() == Step(old(View()), Timed(now, Event.Listening))
    {
      Publish(held.Or(record.phase), record.(status := Serving), now);
    }

    method Resolved(root: string, now: real)
      modifies this
      ensures View() == Step(old(View()), Timed(now, Event.Resolved(root)))
    {
      Publish(held.Or(record.phase), record.(projectRoot := root), now);
    }

    method Ending(fact: EndingFact, now: real)
      modifies this
      ensures View() == Step(old(View()), Timed(now, Event.Ending(fact)))
    {
      endingFact := Some(fact);
    }

    method Terminated(now: real)
      modifies this
      ensures View() == Step(old(View()), Timed(now, Event.Terminated))
    {
      wasTerminated := true;
    }

    /** `end`, when no other thread runs between its two locked sections. */
    method End(now: real, clock: real, spawned: bool) returns (raised: bool)
      modifies this
      ensures var observed := Step(old(View()), Timed(now, Event.Observe(EXIT, spawned)));
              View() == if raised then observed else Step(observed, Timed(now, WriteTombstone(clock)))
      ensures Inv(old(View())) ==> !raised
    {
      raised := Observe(EXIT, now, spawned);
      if raised {
        return;
      }
      var phase := held.Or(record.phase);
      var end := EndRecordOf(phase, endingFact, wasTerminated);
      Publish(phase, record.(endedAt := Some(clock), end := end), now);
    }

    /** One wake-up of the flush worker with index `worker`; `sleep` is how long it sleeps next. */
    method Flush(worker: nat, now: real) returns (sleep: Option<real>)
      requires worker < |workers|
      modifies this
      ensures View() == Step(old(View()), Timed(now, Wake(worker)))
      ensures sleep.Some? ==> sleep.value > 0.0 && workers == old(workers)[worker := now + sleep.value]
      ensures sleep.None? <==> |workers| == |old(workers)| - 1
    {
      var wait := writtenAt + INTERVAL - now;
      if held.None? || wait <= 0.0 {
        flushScheduled := false;
        workers := workers[..worker] + workers[worker+1..];
        if held.Some? {
          Publish(held.value, record, now);
        }
        return None;
      }
      workers := workers[worker := now + wait];
      return Some(wait);
    }
  }
}
