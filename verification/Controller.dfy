/** `RunController` (src/server/controller.py): the run's status and the journal it records status changes
    in.  Every section run under the shared condition is one action, so a sequence of actions is an
    interleaving of commands, invocation boundaries and threads that end the run. */
module Controller {
  import opened Common
  import opened Lifecycle

  datatype Event =
    | StatusChanged(status: RunStatus, previous: RunStatus)
    | Control(command: string, consumed: bool)
    | RunFinished
    | RunFailedEvent
    | RunInterrupted
    | Other(name: string)
  {
    predicate Terminal() {
      RunFinished? || RunFailedEvent? || RunInterrupted?
    }

    predicate StatusBearing() {
      StatusChanged? || Terminal()
    }

    /** The status a terminal event replays as. */
    function EndStatus(): RunStatus {
      if RunFinished? then Completed else Failed
    }
  }

  /** The fold `attach_read_only` makes of a journal. */
  function Replay(journal: seq<Event>): RunStatus {
    if journal == [] then Starting
    else
      var last := journal[|journal|-1];
      if last.StatusChanged? then last.status
      else if last.Terminal() then last.EndStatus()
      else Replay(journal[..|journal|-1])
  }

  lemma ReplayStep(journal: seq<Event>, event: Event)
    ensures Replay(journal + [event]) ==
            if event.StatusChanged? then event.status
            else if event.Terminal() then event.EndStatus()
            else Replay(journal)
  {
    assert (journal + [event])[..|journal|] == journal;
  }

  lemma {:induction false} ReplaySkips(journal: seq<Event>, work: seq<Event>)
    requires forall i :: 0 <= i < |work| ==> !work[i].StatusBearing()
    ensures Replay(journal + work) == Replay(journal)
  {
    if work == [] {
      assert journal + work == journal;
    } else {
      var n := |work| - 1;
      ReplaySkips(journal, work[..n]);
      ReplayStep(journal + work[..n], work[n]);
      assert journal + work[..n] + [work[n]] == journal + work;
    }
  }

  // ---- one controller ----

  /** `pending` are terminal events some thread has still to append: the run was settled first, under
      the lock, and the event is recorded after the lock was released. */
  datatype State = State(run: RunState, journal: seq<Event>, readOnly: bool, pending: seq<Event>) {
    predicate Ended() {
      run.status.HasEnded()
    }

    function Record(event: Event): State {
      if readOnly then this else this.(journal := journal + [event])
    }

    function RecordAll(events: seq<Event>): State {
      if readOnly then this else this.(journal := journal + events)
    }

    /** `_apply_locked`; None when the trigger is illegal here, which raises and changes nothing. */
    function Apply(trigger: RunTrigger): Option<State> {
      match Transition(run, trigger)
      case None => None
      case Some(next) =>
        var moved := this.(run := next);
        Some(if next.status == run.status then moved else moved.Record(StatusChanged(next.status, run.status)))
    }
  }

  datatype Action =
    | MakeReady
    | PauseAfterCall
    | StopAfterCall
    | Resume
    | Steer(text: string)
    | SteerConsumed
    | Boundary(work: seq<Event>)               // an invocation finished; `work` is what its tracker records
    | LandPause
    | LandStop
    | Settle(trigger: RunTrigger, work: seq<Event>)
    | Finish(failed: bool, recordEvent: bool, work: seq<Event>)
    | EndFromOutside(event: Event, work: seq<Event>)   // settle, then append the terminal event regardless
    | Append(thread: nat)                      // the thread holding pending event `thread` appends it

  /** What the execution tracker records carries no status; only the two end triggers settle a run. */
  predicate Sane(action: Action) {
    match action
    case Boundary(work) => forall i :: 0 <= i < |work| ==> !work[i].StatusBearing()
    case Settle(trigger, work) =>
      (trigger.RunCompleted? || trigger.RunFailed?) && forall i :: 0 <= i < |work| ==> !work[i].StatusBearing()
    case Finish(_, _, work) => forall i :: 0 <= i < |work| ==> !work[i].StatusBearing()
    case EndFromOutside(event, work) => event.Terminal() && forall i :: 0 <= i < |work| ==> !work[i].StatusBearing()
    case _ => true
  }

  /** Apply a trigger and then record the command's own event. */
  function Command(c: State, trigger: RunTrigger, event: Event): State {
    match c.Apply(trigger)
    case None => c
    case Some(after) => after.Record(event)
  }

  function ReachBoundary(c: State): State {
    match c.Apply(InvocationFinished)
    case None => c
    case Some(after) =>
      if after.run.status.Paused? then after.Record(Control("/pause", true))
      else if after.run.status.Stopped? then after.Record(Control("/stop", true))
      else after
  }

  function Settled(c: State, trigger: RunTrigger, work: seq<Event>): State {
    if c.Ended() then c else c.RecordAll(work).Apply(trigger).Or(c)
  }

  function EndTrigger(event: Event): RunTrigger {
    if event.RunFinished? then RunCompleted else RunTrigger.RunFailed
  }

  function Step(c: State, action: Action): State {
    match action
    case MakeReady => c.Apply(Ready).Or(c)
    case PauseAfterCall => Command(c, PauseRequested, Control("/pause", false))
    case StopAfterCall => Command(c, StopRequested, Control("/stop", false))
    case Resume => Command(c, Resumed, Control("/resume", true))
    case Steer(text) => c.Record(Control("/steer: " + text, false))
    case SteerConsumed => c.Record(Control("/steer", true))
    case Boundary(work) => ReachBoundary(c.RecordAll(work))
    case LandPause => if c.run.PausePending() then Command(c, InvocationFinished, Control("/pause", true)) else c
    case LandStop => if c.run.StopPending() then Command(c, InvocationFinished, Control("/stop", true)) else c
    case Settle(trigger, work) => Settled(c, trigger, work)
    case Finish(failed, recordEvent, work) =>
      var event := if failed then RunFailedEvent else RunFinished;
      var after := Settled(c, EndTrigger(event), work);
      if c.Ended() || !recordEvent then after else after.(pending := after.pending + [event])
    case EndFromOutside(event, work) =>
      var after := Settled(c, EndTrigger(event), work);
      after.(pending := after.pending + [event])
    case Append(thread) =>
      if thread >= |c.pending| then c
      else c.Record(c.pending[thread]).(pending := c.pending[..thread] + c.pending[thread+1..])
  }

  function Run(first: State, actions: seq<Action>): State {
    if actions == [] then first
    else Step(Run(first, actions[..|actions|-1]), actions[|actions|-1])
  }

  const FRESH := State(At(Starting), [], false, [])

  // ---- journal and state agree ----

  ghost predicate Agrees(c: State) {
    c.run.status == Replay(c.journal)
  }

  /** What every step keeps: agreement, and pending events that will not disturb it. */
  ghost predicate Inv(c: State) {
    && Agrees(c) && (c.readOnly ==> c.Ended())
    && forall i :: 0 <= i < |c.pending| ==> c.pending[i].Terminal() && c.run.status == c.pending[i].EndStatus()
  }

  /** The run has not already ended in a status other than the one this action's event replays as. */
  predicate Timely(c: State, action: Action) {
    action.EndFromOutside? && c.Ended() ==> c.run.status == action.event.EndStatus()
  }

  lemma RecordKeeps(c: State, event: Event)
    requires Inv(c) && !event.StatusBearing()
    ensures Inv(c.Record(event))
  {
    ReplayStep(c.journal, event);
  }

  lemma ApplyKeeps(c: State, trigger: RunTrigger)
    requires Inv(c)
    ensures c.Apply(trigger).Some? ==> Inv(c.Apply(trigger).value)
    ensures c.Ended() ==> c.Apply(trigger) == Some(c)
  {
    if Transition(c.run, trigger).Some? {
      var next := Transition(c.run, trigger).value;
      ReplayStep(c.journal, StatusChanged(next.status, c.run.status));
    }
  }

  lemma WorkKeeps(c: State, work: seq<Event>)
    requires Inv(c) && forall i :: 0 <= i < |work| ==> !work[i].StatusBearing()
    ensures Inv(c.RecordAll(work))
  {
    ReplaySkips(c.journal, work);
  }

  lemma CommandKeeps(c: State, trigger: RunTrigger, event: Event)
    requires Inv(c) && !event.StatusBearing()
    ensures Inv(Command(c, trigger, event))
  {
    ApplyKeeps(c, trigger);
    if c.Apply(trigger).Some? {
      RecordKeeps(c.Apply(trigger).value, event);
    }
  }

  lemma SettledKeeps(c: State, event: Event, work: seq<Event>)
    requires Inv(c) && event.Terminal() && forall i :: 0 <= i < |work| ==> !work[i].StatusBearing()
    ensures Inv(Settled(c, EndTrigger(event), work))
    ensures Settled(c, EndTrigger(event), work).run.status == if c.Ended() then c.run.status else event.EndStatus()
    ensures Settled(c, EndTrigger(event), work).pending == c.pending
  {
    if !c.Ended() {
      WorkKeeps(c, work);
      ApplyKeeps(c.RecordAll(work), EndTrigger(event));
    }
  }

  lemma BoundaryKeeps(c: State)
    requires Inv(c)
    ensures Inv(ReachBoundary(c))
  {
    ApplyKeeps(c, InvocationFinished);
    if c.Apply(InvocationFinished).Some? {
      var after := c.Apply(InvocationFinished).value;
      RecordKeeps(after, Control("/pause", true));
      RecordKeeps(after, Control("/stop", true));
    }
  }

  lemma AppendKeeps(c: State, thread: nat)
    requires Inv(c) && thread < |c.pending|
    ensures Inv(Step(c, Append(thread)))
  {
    ReplayStep(c.journal, c.pending[thread]);
  }

  lemma StepKeeps(c: State, action: Action)
    requires Inv(c) && Sane(action) && Timely(c, action)
    ensures Inv(Step(c, action))
  {
    match action
    case MakeReady => ApplyKeeps(c, Ready);
    case PauseAfterCall => CommandKeeps(c, PauseRequested, Control("/pause", false));
    case StopAfterCall => CommandKeeps(c, StopRequested, Control("/stop", false));
    case Resume => CommandKeeps(c, Resumed, Control("/resume", true));
    case Steer(text) => RecordKeeps(c, Control("/steer: " + text, false));
    case SteerConsumed => RecordKeeps(c, Control("/steer", true));
    case Boundary(work) => WorkKeeps(c, work); BoundaryKeeps(c.RecordAll(work));
    case LandPause => CommandKeeps(c, InvocationFinished, Control("/pause", true));
    case LandStop => CommandKeeps(c, InvocationFinished, Control("/stop", true));
    case Settle(trigger, work) => SettledKeeps(c, if trigger.RunCompleted? then RunFinished else RunFailedEvent, work);
    case Finish(failed, recordEvent, work) => SettledKeeps(c, if failed then RunFailedEvent else RunFinished, work);
    case EndFromOutside(event, work) => SettledKeeps(c, event, work);
    case Append(thread) => if thread < |c.pending| { AppendKeeps(c, thread); }
  }

  ghost predicate Legal(first: State, actions: seq<Action>) {
    forall i :: 0 <= i < |actions| ==> Sane(actions[i]) && Timely(Run(first, actions[..i]), actions[i])
  }

  /** At every point of every interleaving, while no terminal event is appended from outside for a run
      that ended otherwise, the controller's status is the replay of its journal. */
  lemma {:induction false} StatusIsReplay(first: State, actions: seq<Action>)
    requires Inv(first) && Legal(first, actions)
    ensures Inv(Run(first, actions))
  {
    if actions != [] {
      var n := |actions| - 1;
      assert forall i :: 0 <= i < n ==> actions[..n][..i] == actions[..i];
      StatusIsReplay(first, actions[..n]);
      StepKeeps(Run(first, actions[..n]), actions[n]);
    }
  }

  /** For a run the server drives alone (commands, boundaries, `settle` and `finish` from any threads)
      agreement is unconditional. */
  lemma OwnActionsAlwaysAgree(actions: seq<Action>)
    requires forall i :: 0 <= i < |actions| ==> Sane(actions[i]) && !actions[i].EndFromOutside?
    ensures Agrees(Run(FRESH, actions))
  {
    StatusIsReplay(FRESH, actions);
  }

  /** The invariant of an ended run but for pending event `j`, which may disturb it. */
  ghost predicate InvBut(c: State, j: nat) {
    && Agrees(c) && c.Ended() && !c.readOnly && j < |c.pending|
    && forall i :: 0 <= i < |c.pending| && i != j ==>
         c.pending[i].Terminal() && c.run.status == c.pending[i].EndStatus()
  }

  /** After a run has ended no step but an append looks at the pending events. */
  lemma PendingIsSeparate(c: State, action: Action)
    requires c.Ended() && !action.Append?
    ensures var alone := Step(c.(pending := []), action);
            Step(c, action) == alone.(pending := c.pending + alone.pending)
  {
    EndedOnlyRecords(c);
    EndedOnlyRecords(c.(pending := []));
    assert c.pending + [] == c.pending;
  }

  lemma EndedOnlyRecords(c: State)
    requires c.Ended()
    ensures forall trigger :: c.Apply(trigger) == Some(c)
  {
  }

  /** Where pending event `j` stands after `action`. */
  function PlaceAfter(j: nat, action: Action): nat {
    if action.Append? && action.thread < j then j - 1 else j
  }

  /** While event `j` waits, an ended run keeps its status and its agreement. */
  lemma WaitingKeeps(c: State, j: nat, action: Action)
    requires InvBut(c, j) && Sane(action) && Timely(c, action) && action != Append(j)
    ensures InvBut(Step(c, action), PlaceAfter(j, action))
    ensures Step(c, action).run == c.run && Step(c, action).pending[PlaceAfter(j, action)] == c.pending[j]
  {
    if action.Append? {
      if action.thread < |c.pending| {
        ReplayStep(c.journal, c.pending[action.thread]);
      }
    } else {
      var alone := c.(pending := []);
      StepKeeps(alone, action);
      PendingIsSeparate(c, action);
      EndedStays(alone, action);
    }
  }

  lemma EndedStays(c: State, action: Action)
    requires !c.readOnly
    ensures c.Ended() ==> Step(c, action).run == c.run
    ensures !Step(c, action).readOnly
  {
  }

  function PlaceAfterAll(j: nat, actions: seq<Action>): nat {
    if actions == [] then j else PlaceAfter(PlaceAfterAll(j, actions[..|actions|-1]), actions[|actions|-1])
  }

  /** Any legal actions, as long as none of them appends pending event `j`. */
  ghost predicate Delays(c: State, j: nat, actions: seq<Action>) {
    actions == [] ||
    (var before, last := actions[..|actions|-1], actions[|actions|-1];
     && Delays(c, j, before) && Sane(last) && Timely(Run(c, before), last)
     && last != Append(PlaceAfterAll(j, before)))
  }

  lemma {:induction false} WaitingLasts(c: State, j: nat, actions: seq<Action>)
    requires InvBut(c, j) && Delays(c, j, actions)
    ensures var after, place := Run(c, actions), PlaceAfterAll(j, actions);
            InvBut(after, place) && after.run == c.run && after.pending[place] == c.pending[j]
  {
    if actions != [] {
      var before := actions[..|actions|-1];
      WaitingLasts(c, j, before);
      WaitingKeeps(Run(c, before), PlaceAfterAll(j, before), actions[|actions|-1]);
    }
  }

  lemma OutsideEndWaits(c: State, event: Event, work: seq<Event>)
    requires Inv(c) && !c.readOnly && Sane(EndFromOutside(event, work))
    ensures var ended := Step(c, EndFromOutside(event, work));
            && InvBut(ended, |c.pending|) && ended.pending[|c.pending|] == event
            && (ended.run.status == event.EndStatus() <==> Timely(c, EndFromOutside(event, work)))
  {
    SettledKeeps(c, event, work);
  }

  /** Exactly when a terminal event appended from outside keeps agreement, whatever else is pending and
      however long it waits for its append: unless the run had already ended in another status. */
  lemma OutsideEndAgreesIffTimely(c: State, event: Event, work: seq<Event>, delay: seq<Action>)
    requires Inv(c) && !c.readOnly && Sane(EndFromOutside(event, work))
    requires Delays(Step(c, EndFromOutside(event, work)), |c.pending|, delay)
    ensures var waited := Run(Step(c, EndFromOutside(event, work)), delay);
            var appended := Step(waited, Append(PlaceAfterAll(|c.pending|, delay)));
            Agrees(waited) && (Agrees(appended) <==> Timely(c, EndFromOutside(event, work)))
  {
    OutsideEndWaits(c, event, work);
    var ended := Step(c, EndFromOutside(event, work));
    WaitingLasts(ended, |c.pending|, delay);
    ReplayStep(Run(ended, delay).journal, event);
  }

  /** It does happen: a stop lands at an invocation's boundary, and then the core's own finish event
      arrives. */
  lemma StopThenFinishDisagrees()
    ensures var stopped := Step(Step(Step(FRESH, MakeReady), StopAfterCall), Boundary([]));
            var c := Step(Step(stopped, EndFromOutside(RunFinished, [])), Append(0));
            c.run.status == Stopped && Replay(c.journal) == Completed
  {
    StopLands();
    var stopped := Step(Step(Step(FRESH, MakeReady), StopAfterCall), Boundary([]));
    ReplayStep(stopped.journal, RunFinished);
  }

  lemma StopLands()
    ensures var stopped := Step(Step(Step(FRESH, MakeReady), StopAfterCall), Boundary([]));
            stopped.run == At(Stopped) && stopped.pending == [] && !stopped.readOnly
  {
    var ready := Step(FRESH, MakeReady);
    assert ready.run == At(Running) && ready.pending == [] && !ready.readOnly;
    var stopping := Step(ready, StopAfterCall);
    assert stopping.run == At(Stopping) && stopping.pending == [] && !stopping.readOnly;
  }

  // ---- ending exactly once ----

  function Terminals(journal: seq<Event>): nat {
    if journal == [] then 0
    else Terminals(journal[..|journal|-1]) + if journal[|journal|-1].Terminal() then 1 else 0
  }

  lemma TerminalsStep(journal: seq<Event>, event: Event)
    ensures Terminals(journal + [event]) == Terminals(journal) + if event.Terminal() then 1 else 0
  {
    assert (journal + [event])[..|journal|] == journal;
  }

  lemma {:induction false} TerminalsSkip(journal: seq<Event>, work: seq<Event>)
    requires forall i :: 0 <= i < |work| ==> !work[i].StatusBearing()
    ensures Terminals(journal + work) == Terminals(journal)
  {
    if work == [] {
      assert journal + work == journal;
    } else {
      var n := |work| - 1;
      TerminalsSkip(journal, work[..n]);
      TerminalsStep(journal + work[..n], work[n]);
      assert journal + work[..n] + [work[n]] == journal + work;
    }
  }

  /** Terminal events recorded or still to be recorded. */
  function Endings(c: State): nat {
    Terminals(c.journal) + |c.pending|
  }

  /** `after` has the endings of `before`, and its run if that had ended. */
  ghost predicate Quiet(before: State, after: State) {
    && after.readOnly == before.readOnly && after.pending == before.pending
    && Terminals(after.journal) == Terminals(before.journal)
    && (before.Ended() ==> after.run == before.run)
  }

  lemma RecordIsQuiet(c: State, event: Event)
    requires !event.Terminal()
    ensures Quiet(c, c.Record(event))
  {
    TerminalsStep(c.journal, event);
  }

  lemma WorkIsQuiet(c: State, work: seq<Event>)
    requires forall i :: 0 <= i < |work| ==> !work[i].StatusBearing()
    ensures Quiet(c, c.RecordAll(work))
  {
    TerminalsSkip(c.journal, work);
  }

  lemma ApplyIsQuiet(c: State, trigger: RunTrigger)
    ensures c.Apply(trigger).Some? ==> Quiet(c, c.Apply(trigger).value)
  {
    if c.Apply(trigger).Some? {
      TerminalsStep(c.journal, StatusChanged(c.Apply(trigger).value.run.status, c.run.status));
    }
  }

  lemma CommandIsQuiet(c: State, trigger: RunTrigger, event: Event)
    requires !event.Terminal()
    ensures Quiet(c, Command(c, trigger, event))
  {
    ApplyIsQuiet(c, trigger);
    if c.Apply(trigger).Some? {
      RecordIsQuiet(c.Apply(trigger).value, event);
    }
  }

  lemma BoundaryIsQuiet(c: State)
    ensures Quiet(c, ReachBoundary(c))
  {
    ApplyIsQuiet(c, InvocationFinished);
    if c.Apply(InvocationFinished).Some? {
      RecordIsQuiet(c.Apply(InvocationFinished).value, Control("/pause", true));
      RecordIsQuiet(c.Apply(InvocationFinished).value, Control("/stop", true));
    }
  }

  lemma SettledIsQuiet(c: State, trigger: RunTrigger, work: seq<Event>)
    requires trigger.RunCompleted? || trigger.RunFailed?
    requires forall i :: 0 <= i < |work| ==> !work[i].StatusBearing()
    ensures Quiet(c, Settled(c, trigger, work)) && Settled(c, trigger, work).Ended()
  {
    WorkIsQuiet(c, work);
    ApplyIsQuiet(c.RecordAll(work), trigger);
  }

  /** The terminal events an action leaves to append: a recording `finish` only if it ended the run, an
      outside end always. */
  function Adds(c: State, action: Action): nat {
    match action
    case Finish(_, recordEvent, _) => if recordEvent && !c.Ended() then 1 else 0
    case EndFromOutside(_, _) => 1
    case _ => 0
  }

  lemma QuietStep(c: State, action: Action)
    requires Sane(action) && !action.Finish? && !action.EndFromOutside? && !action.Append?
    ensures Quiet(c, Step(c, action))
  {
    match action
    case MakeReady => ApplyIsQuiet(c, Ready);
    case PauseAfterCall => CommandIsQuiet(c, PauseRequested, Control("/pause", false));
    case StopAfterCall => CommandIsQuiet(c, StopRequested, Control("/stop", false));
    case Resume => CommandIsQuiet(c, Resumed, Control("/resume", true));
    case Steer(text) => RecordIsQuiet(c, Control("/steer: " + text, false));
    case SteerConsumed => RecordIsQuiet(c, Control("/steer", true));
    case Boundary(work) => WorkIsQuiet(c, work); BoundaryIsQuiet(c.RecordAll(work));
    case LandPause => CommandIsQuiet(c, InvocationFinished, Control("/pause", true));
    case LandStop => CommandIsQuiet(c, InvocationFinished, Control("/stop", true));
    case Settle(trigger, work) => SettledIsQuiet(c, trigger, work);
  }

  ghost predicate PendingEnds(c: State) {
    !c.readOnly && forall i :: 0 <= i < |c.pending| ==> c.pending[i].Terminal()
  }

  /** An append moves an ending from pending to recorded, and nothing else changes their number unasked; an
      ended status is kept. */
  lemma EndingsStep(c: State, action: Action)
    requires Sane(action) && PendingEnds(c)
    ensures var after := Step(c, action);
            && PendingEnds(after) && Endings(after) == Endings(c) + Adds(c, action)
            && (c.Ended() ==> after.run == c.run) && (Adds(c, action) == 1 ==> after.Ended())
  {
    match action
    case Finish(failed, _, work) => SettledIsQuiet(c, EndTrigger(if failed then RunFailedEvent else RunFinished), work);
    case EndFromOutside(event, work) => SettledIsQuiet(c, EndTrigger(event), work);
    case Append(thread) =>
      if thread < |c.pending| {
        TerminalsStep(c.journal, c.pending[thread]);
      }
    case _ => QuietStep(c, action);
  }

  function OutsideEnds(actions: seq<Action>): nat {
    if actions == [] then 0
    else OutsideEnds(actions[..|actions|-1]) + if actions[|actions|-1].EndFromOutside? then 1 else 0
  }

  /** Some recording `finish` found the run not ended. */
  ghost predicate FinishEndedIt(actions: seq<Action>) {
    actions != [] &&
    (var before, last := actions[..|actions|-1], actions[|actions|-1];
     FinishEndedIt(before) || (last.Finish? && last.recordEvent && !Run(FRESH, before).Ended()))
  }

  /** However many threads call `finish`, and whatever ends arrive from outside: each outside end leaves one
      terminal event, recorded or pending, all calls of `finish` together one more exactly if a recording
      one ended the run, and there is none before the run has ended. */
  lemma {:induction false} FinishesOnce(actions: seq<Action>)
    requires forall i :: 0 <= i < |actions| ==> Sane(actions[i])
    ensures var c := Run(FRESH, actions);
            && PendingEnds(c) && Endings(c) == OutsideEnds(actions) + (if FinishEndedIt(actions) then 1 else 0)
            && (Endings(c) > 0 ==> c.Ended())
  {
    if actions != [] {
      var n := |actions| - 1;
      FinishesOnce(actions[..n]);
      EndingsStep(Run(FRESH, actions[..n]), actions[n]);
    }
  }

  // ---- the journal names every command ----

  /** The command event that goes with a change of status; None where `ready` or an end made the change. */
  ghost function CommandOf(status: RunStatus, previous: RunStatus): Option<Event> {
    match status
    case Paused => Some(Control("/pause", true))
    case Stopped => Some(Control("/stop", true))
    case Pausing => if previous.Starting? then None else Some(Control("/pause", false))
    case Stopping => if previous.Starting? then None else Some(Control("/stop", false))
    case Running => if previous.Starting? then None else Some(Control("/resume", true))
    case _ => None
  }

  /** Event `i`, if it changes the status, does so from what the journal replays to there, and the command
      it goes with comes right after it. */
  ghost predicate ExplainedAt(journal: seq<Event>, i: nat)
    requires i < |journal|
  {
    journal[i].StatusChanged? ==>
      && journal[i].previous == Replay(journal[..i]) && journal[i].status != journal[i].previous
      && (CommandOf(journal[i].status, journal[i].previous).Some? ==>
            i + 1 < |journal| && CommandOf(journal[i].status, journal[i].previous) == Some(journal[i+1]))
  }

  ghost predicate Explained(journal: seq<Event>) {
    forall i: nat :: i < |journal| ==> ExplainedAt(journal, i)
  }

  lemma ExplainedPlain(journal: seq<Event>, events: seq<Event>)
    requires Explained(journal) && forall i :: 0 <= i < |events| ==> !events[i].StatusChanged?
    ensures Explained(journal + events)
  {
    forall i: nat | i < |journal + events|
      ensures ExplainedAt(journal + events, i)
    {
      if i < |journal| {
        assert ExplainedAt(journal, i);
        assert (journal + events)[..i] == journal[..i];
      }
    }
  }

  lemma ExplainedChange(journal: seq<Event>, change: Event, events: seq<Event>)
    requires Explained(journal) && change.StatusChanged?
    requires change.previous == Replay(journal) && change.status != change.previous
    requires forall i :: 0 <= i < |events| ==> !events[i].StatusChanged?
    requires var command := CommandOf(change.status, change.previous);
             command.Some? ==> events != [] && command == Some(events[0])
    ensures Explained(journal + [change] + events)
  {
    var grown := journal + [change] + events;
    forall i: nat | i < |grown|
      ensures ExplainedAt(grown, i)
    {
      if i < |journal| {
        assert ExplainedAt(journal, i);
        assert grown[..i] == journal[..i];
      } else if i == |journal| {
        assert grown[..i] == journal;
      }
    }
  }

  /** A trigger and, with it, the event of the command that gave it. */
  lemma AppliedIsExplained(c: State, trigger: RunTrigger, events: seq<Event>)
    requires Inv(c) && Explained(c.journal) && !c.readOnly && c.Apply(trigger).Some?
    requires forall i :: 0 <= i < |events| ==> !events[i].StatusChanged?
    requires var after := c.Apply(trigger).value.run.status;
             after != c.run.status && CommandOf(after, c.run.status).Some? ==>
               events != [] && CommandOf(after, c.run.status) == Some(events[0])
    ensures Explained(c.Apply(trigger).value.journal + events)
  {
    var after := c.Apply(trigger).value;
    if after.run.status == c.run.status {
      ExplainedPlain(c.journal, events);
    } else {
      ExplainedChange(c.journal, StatusChanged(after.run.status, c.run.status), events);
    }
  }

  lemma BoundaryIsExplained(c: State)
    requires Inv(c) && Explained(c.journal) && !c.readOnly
    ensures Explained(ReachBoundary(c).journal)
  {
    if c.Apply(InvocationFinished).Some? {
      var after := c.Apply(InvocationFinished).value;
      AppliedIsExplained(c, InvocationFinished,
        if after.run.status.Paused? then [Control("/pause", true)]
        else if after.run.status.Stopped? then [Control("/stop", true)]
        else []);
      assert after.journal + [] == after.journal;
    }
  }

  lemma SettledIsExplained(c: State, trigger: RunTrigger, work: seq<Event>)
    requires Inv(c) && Explained(c.journal) && !c.readOnly && (trigger.RunCompleted? || trigger.RunFailed?)
    requires forall i :: 0 <= i < |work| ==> !work[i].StatusBearing()
    ensures Explained(Settled(c, trigger, work).journal)
  {
    if !c.Ended() {
      WorkKeeps(c, work);
      ExplainedPlain(c.journal, work);
      var worked := c.RecordAll(work);
      AppliedIsExplained(worked, trigger, []);
      assert worked.Apply(trigger).value.journal + [] == worked.Apply(trigger).value.journal;
    }
  }

  lemma StepIsExplained(c: State, action: Action)
    requires Inv(c) && Explained(c.journal) && !c.readOnly && Sane(action)
    ensures Explained(Step(c, action).journal)
  {
    match action
    case MakeReady =>
      AppliedIsExplained(c, Ready, []);
      assert c.Apply(Ready).value.journal + [] == c.Apply(Ready).value.journal;
    case PauseAfterCall => AppliedIsExplained(c, PauseRequested, [Control("/pause", false)]);
    case StopAfterCall => AppliedIsExplained(c, StopRequested, [Control("/stop", false)]);
    case Resume => AppliedIsExplained(c, Resumed, [Control("/resume", true)]);
    case Steer(text) => ExplainedPlain(c.journal, [Control("/steer: " + text, false)]);
    case SteerConsumed => ExplainedPlain(c.journal, [Control("/steer", true)]);
    case Boundary(work) =>
      WorkKeeps(c, work);
      ExplainedPlain(c.journal, work);
      BoundaryIsExplained(c.RecordAll(work));
    case LandPause =>
      if c.run.PausePending() && c.Apply(InvocationFinished).Some? {
        AppliedIsExplained(c, InvocationFinished, [Control("/pause", true)]);
      }
    case LandStop =>
      if c.run.StopPending() && c.Apply(InvocationFinished).Some? {
        AppliedIsExplained(c, InvocationFinished, [Control("/stop", true)]);
      }
    case Settle(trigger, work) => SettledIsExplained(c, trigger, work);
    case Finish(failed, _, work) =>
      SettledIsExplained(c, EndTrigger(if failed then RunFailedEvent else RunFinished), work);
    case EndFromOutside(event, work) => SettledIsExplained(c, EndTrigger(event), work);
    case Append(thread) =>
      if thread < |c.pending| {
        ExplainedPlain(c.journal, [c.pending[thread]]);
      }
  }

  /** Over every legal run the journal is a chain: each change of status starts where the events before it
      replay to, and the command that made it, asked or landed, is the very next event. */
  lemma {:induction false} JournalExplainsEveryChange(actions: seq<Action>)
    requires Legal(FRESH, actions)
    ensures Explained(Run(FRESH, actions).journal) && !Run(FRESH, actions).readOnly
  {
    if actions != [] {
      var n := |actions| - 1;
      assert forall i :: 0 <= i < n ==> actions[..n][..i] == actions[..i];
      JournalExplainsEveryChange(actions[..n]);
      StatusIsReplay(FRESH, actions[..n]);
      StepIsExplained(Run(FRESH, actions[..n]), actions[n]);
      EndedStays(Run(FRESH, actions[..n]), actions[n]);
    }
  }

  /** An event that only a command of its own writes; the others are those of a landing. */
  ghost predicate Asks(event: Event) {
    event.Control? && (!event.consumed || event.command == "/resume" || event.command == "/steer")
  }

  /** What an action has to leave in the journal. */
  ghost function Leaves(action: Action): seq<Event> {
    match action
    case PauseAfterCall => [Control("/pause", false)]
    case StopAfterCall => [Control("/stop", false)]
    case Resume => [Control("/resume", true)]
    case Steer(text) => [Control("/steer: " + text, false)]
    case SteerConsumed => [Control("/steer", true)]
    case _ => []
  }

  ghost predicate NoCommands(work: seq<Event>) {
    forall i :: 0 <= i < |work| ==> !work[i].StatusBearing() && !Asks(work[i])
  }

  /** What the execution tracker records is no command either. */
  ghost predicate Works(action: Action) {
    match action
    case Boundary(work) => NoCommands(work)
    case Settle(_, work) => NoCommands(work)
    case Finish(_, _, work) => NoCommands(work)
    case EndFromOutside(_, work) => NoCommands(work)
    case _ => true
  }

  ghost function Commands(journal: seq<Event>): seq<Event> {
    if journal == [] then []
    else
      Commands(journal[..|journal|-1])
      + if Asks(journal[|journal|-1]) then [journal[|journal|-1]] else []
  }

  ghost function LeavesAll(actions: seq<Action>): seq<Event> {
    if actions == [] then [] else LeavesAll(actions[..|actions|-1]) + Leaves(actions[|actions|-1])
  }

  lemma CommandsStep(journal: seq<Event>, event: Event)
    ensures Commands(journal + [event]) == Commands(journal) + if Asks(event) then [event] else []
  {
    assert (journal + [event])[..|journal|] == journal;
  }

  lemma {:induction false} CommandsSkip(journal: seq<Event>, work: seq<Event>)
    requires NoCommands(work)
    ensures Commands(journal + work) == Commands(journal)
  {
    if work == [] {
      assert journal + work == journal;
    } else {
      var n := |work| - 1;
      CommandsSkip(journal, work[..n]);
      CommandsStep(journal + work[..n], work[n]);
      assert journal + work[..n] + [work[n]] == journal + work;
    }
  }

  lemma ApplyLeaves(c: State, trigger: RunTrigger)
    ensures c.Apply(trigger).Some? ==> Commands(c.Apply(trigger).value.journal) == Commands(c.journal)
  {
    if c.Apply(trigger).Some? {
      CommandsStep(c.journal, StatusChanged(c.Apply(trigger).value.run.status, c.run.status));
    }
  }

  lemma CommandLeaves(c: State, trigger: RunTrigger, event: Event)
    requires !c.readOnly && c.Apply(trigger).Some?
    ensures Commands(Command(c, trigger, event).journal) == Commands(c.journal) + if Asks(event) then [event] else []
  {
    ApplyLeaves(c, trigger);
    CommandsStep(c.Apply(trigger).value.journal, event);
  }

  lemma BoundaryLeaves(c: State)
    requires !c.readOnly
    ensures Commands(ReachBoundary(c).journal) == Commands(c.journal)
  {
    ApplyLeaves(c, InvocationFinished);
    if c.Apply(InvocationFinished).Some? {
      CommandsStep(c.Apply(InvocationFinished).value.journal, Control("/pause", true));
      CommandsStep(c.Apply(InvocationFinished).value.journal, Control("/stop", true));
    }
  }

  lemma SettledLeaves(c: State, trigger: RunTrigger, work: seq<Event>)
    requires NoCommands(work)
    ensures Commands(Settled(c, trigger, work).journal) == Commands(c.journal)
  {
    CommandsSkip(c.journal, work);
    ApplyLeaves(c.RecordAll(work), trigger);
  }

  lemma StepLeaves(c: State, action: Action)
    requires !c.readOnly && Works(action) && forall i :: 0 <= i < |c.pending| ==> c.pending[i].Terminal()
    ensures Commands(Step(c, action).journal) == Commands(c.journal) + Leaves(action)
  {
    match action
    case MakeReady => ApplyLeaves(c, Ready);
    case PauseAfterCall => CommandLeaves(c, PauseRequested, Control("/pause", false));
    case StopAfterCall => CommandLeaves(c, StopRequested, Control("/stop", false));
    case Resume => CommandLeaves(c, Resumed, Control("/resume", true));
    case Steer(text) => CommandsStep(c.journal, Control("/steer: " + text, false));
    case SteerConsumed => CommandsStep(c.journal, Control("/steer", true));
    case Boundary(work) => CommandsSkip(c.journal, work); BoundaryLeaves(c.RecordAll(work));
    case LandPause =>
      if c.run.PausePending() && c.Apply(InvocationFinished).Some? {
        CommandLeaves(c, InvocationFinished, Control("/pause", true));
      }
    case LandStop =>
      if c.run.StopPending() && c.Apply(InvocationFinished).Some? {
        CommandLeaves(c, InvocationFinished, Control("/stop", true));
      }
    case Settle(trigger, work) => SettledLeaves(c, trigger, work);
    case Finish(failed, _, work) => SettledLeaves(c, EndTrigger(if failed then RunFailedEvent else RunFinished), work);
    case EndFromOutside(event, work) => SettledLeaves(c, EndTrigger(event), work);
    case Append(thread) => if thread < |c.pending| { CommandsStep(c.journal, c.pending[thread]); }
  }

  /** Every command ever given, even to a run that has ended, is in the journal exactly once and in order. */
  lemma {:induction false} EveryCommandIsRecorded(actions: seq<Action>)
    requires forall i :: 0 <= i < |actions| ==> Sane(actions[i]) && Works(actions[i])
    ensures Commands(Run(FRESH, actions).journal) == LeavesAll(actions)
  {
    if actions != [] {
      var n := |actions| - 1;
      EveryCommandIsRecorded(actions[..n]);
      FinishesOnce(actions[..n]);
      StepLeaves(Run(FRESH, actions[..n]), actions[n]);
    }
  }

  // ---- the state is what was asked for ----

  /** How many of the first actions are before, or are, the last resume. */
  function SinceResume(actions: seq<Action>): (lo: nat)
    ensures lo <= |actions|
  {
    if actions == [] then 0
    else if actions[|actions|-1].Resume? then |actions|
    else SinceResume(actions[..|actions|-1])
  }

  ghost predicate WasReady(actions: seq<Action>) {
    exists i :: 0 <= i < |actions| && actions[i].MakeReady?
  }

  /** A stop was asked for and not resumed since. */
  ghost predicate StopAsked(actions: seq<Action>) {
    exists i :: SinceResume(actions) <= i < |actions| && actions[i].StopAfterCall?
  }

  ghost predicate PauseAsked(actions: seq<Action>) {
    exists i :: SinceResume(actions) <= i < |actions| && actions[i].PauseAfterCall?
  }

  /** Action `j` is a boundary that a pause asked for before it lands at, once the run is ready. */
  ghost predicate LandsPause(actions: seq<Action>, j: nat) {
    && SinceResume(actions) <= j < |actions| && (actions[j].Boundary? || actions[j].LandPause?)
    && WasReady(actions[..j]) && PauseAsked(actions[..j])
  }

  ghost predicate PauseLanded(actions: seq<Action>) {
    exists j: nat :: LandsPause(actions, j)
  }

  /** The state of a run that nothing has ended: a stop outranks a pause, and either is held until ready. */
  ghost function AskedFor(actions: seq<Action>): RunState {
    if StopAsked(actions) then
      if WasReady(actions) then RunState(Stopping, None) else RunState(Starting, Some(StopRequest))
    else if PauseAsked(actions) then
      if !WasReady(actions) then RunState(Starting, Some(PauseRequest))
      else if PauseLanded(actions) then RunState(Paused, None)
      else RunState(Pausing, None)
    else if WasReady(actions) then RunState(Running, None)
    else RunState(Starting, None)
  }

  /** The status `action` ends a run in that has come this far, if it ends it: it settles it, or is a
      boundary for a stop. */
  ghost function Ends(before: seq<Action>, action: Action): Option<RunStatus> {
    match action
    case Settle(trigger, _) => Some(if trigger.RunCompleted? then Completed else Failed)
    case Finish(failed, _, _) => Some(if failed then Failed else Completed)
    case EndFromOutside(event, _) => Some(if event.RunFinished? then Completed else Failed)
    case Boundary(_) => if StopAsked(before) then Some(Stopped) else None
    case LandStop => if StopAsked(before) then Some(Stopped) else None
    case _ => None
  }

  /** The run's state after any actions: what the first of them to end it left, else what was asked for. */
  ghost function Owed(actions: seq<Action>): RunState {
    if actions == [] then AskedFor([])
    else
      var before, last := actions[..|actions|-1], actions[|actions|-1];
      if Owed(before).status.HasEnded() then Owed(before)
      else if Ends(before, last).Some? then RunState(Ends(before, last).value, None)
      else AskedFor(actions)
  }

  /** What one more action asks for. */
  lemma AskedStep(actions: seq<Action>)
    requires actions != []
    ensures var before, last := actions[..|actions|-1], actions[|actions|-1];
            && (WasReady(actions) <==> WasReady(before) || last.MakeReady?)
            && (StopAsked(actions) <==> !last.Resume? && (StopAsked(before) || last.StopAfterCall?))
            && (PauseAsked(actions) <==> !last.Resume? && (PauseAsked(before) || last.PauseAfterCall?))
  {
    var n := |actions| - 1;
    var before := actions[..n];
    assert forall i :: 0 <= i < n ==> before[i] == actions[i];
    if WasReady(before) {
      var i :| 0 <= i < n && before[i].MakeReady?;
      assert actions[i].MakeReady?;
    }
    if StopAsked(before) && !actions[n].Resume? {
      var i :| SinceResume(before) <= i < n && before[i].StopAfterCall?;
      assert actions[i].StopAfterCall?;
    }
    if PauseAsked(before) && !actions[n].Resume? {
      var i :| SinceResume(before) <= i < n && before[i].PauseAfterCall?;
      assert actions[i].PauseAfterCall?;
    }
  }

  lemma LandsInPrefix(actions: seq<Action>, j: nat)
    requires actions != [] && j < |actions| - 1 && !actions[|actions|-1].Resume?
    ensures LandsPause(actions[..|actions|-1], j) <==> LandsPause(actions, j)
  {
    assert actions[..|actions|-1][..j] == actions[..j];
  }

  lemma LandedStep(actions: seq<Action>)
    requires actions != []
    ensures var before, last := actions[..|actions|-1], actions[|actions|-1];
            PauseLanded(actions) <==>
              && !last.Resume?
              && (|| PauseLanded(before)
                  || ((last.Boundary? || last.LandPause?) && WasReady(before) && PauseAsked(before)))
  {
    var n := |actions| - 1;
    if !actions[n].Resume? {
      if j: nat :| LandsPause(actions[..n], j) {
        LandsInPrefix(actions, j);
      }
      if j: nat :| LandsPause(actions, j) && j < n {
        LandsInPrefix(actions, j);
      }
      assert LandsPause(actions, n) <==>
        (actions[n].Boundary? || actions[n].LandPause?) && WasReady(actions[..n]) && PauseAsked(actions[..n]);
    }
  }

  /** The state of a run to which nothing more happens than to be asked for something or to reach a boundary. */
  lemma CommandsDo(c: State, before: seq<Action>, action: Action)
    requires c.run == AskedFor(before) && !c.readOnly
    requires action.MakeReady? || action.PauseAfterCall? || action.StopAfterCall? || action.Resume?
    ensures Step(c, action).run == AskedFor(before + [action])
  {
    var actions := before + [action];
    assert actions[..|before|] == before && actions[|before|] == action;
    AskedStep(actions);
    LandedStep(actions);
    if !PauseAsked(before) {
      NothingLanded(before);
    }
  }

  lemma NothingLanded(actions: seq<Action>)
    requires !PauseAsked(actions)
    ensures !PauseLanded(actions)
  {
    if j: nat :| LandsPause(actions, j) {
      AskedBefore(actions, j);
    }
  }

  lemma {:induction false} AskedBefore(actions: seq<Action>, j: nat)
    requires SinceResume(actions) <= j <= |actions| && PauseAsked(actions[..j])
    ensures PauseAsked(actions)
    decreases |actions|
  {
    if j < |actions| {
      var n := |actions| - 1;
      assert actions[..n][..j] == actions[..j];
      AskedBefore(actions[..n], j);
      AskedStep(actions);
    } else {
      assert actions[..j] == actions;
    }
  }

  lemma BoundariesDo(c: State, before: seq<Action>, action: Action)
    requires c.run == AskedFor(before) && !c.readOnly
    requires action.Boundary? || action.LandPause? || action.LandStop?
    ensures Step(c, action).run ==
            if Ends(before, action).Some? then RunState(Ends(before, action).value, None)
            else AskedFor(before + [action])
  {
    var actions := before + [action];
    assert actions[..|before|] == before && actions[|before|] == action;
    AskedStep(actions);
    LandedStep(actions);
  }

  lemma OthersDo(c: State, before: seq<Action>, action: Action)
    requires c.run == AskedFor(before) && !c.readOnly && Sane(action)
    requires action.Steer? || action.SteerConsumed? || action.Append? || action.Settle? || action.Finish?
             || action.EndFromOutside?
    ensures Step(c, action).run ==
            if Ends(before, action).Some? then RunState(Ends(before, action).value, None)
            else AskedFor(before + [action])
  {
    var actions := before + [action];
    assert actions[..|before|] == before && actions[|before|] == action;
    AskedStep(actions);
    LandedStep(actions);
  }

  lemma AskedForIsLive(actions: seq<Action>)
    ensures !AskedFor(actions).status.HasEnded()
  {
  }

  /** After any actions, from any threads, the run is in exactly the state that was asked for, or in the one
      the first action to end it left. */
  lemma {:induction false} RunIsWhatWasAsked(actions: seq<Action>)
    requires forall i :: 0 <= i < |actions| ==> Sane(actions[i])
    ensures Run(FRESH, actions).run == Owed(actions) && !Run(FRESH, actions).readOnly
    ensures !Owed(actions).status.HasEnded() ==> Owed(actions) == AskedFor(actions)
  {
    if actions != [] {
      var n := |actions| - 1;
      var before, last := actions[..n], actions[n];
      RunIsWhatWasAsked(before);
      assert actions == before + [last];
      var c := Run(FRESH, before);
      EndedStays(c, last);
      if !c.Ended() {
        if last.MakeReady? || last.PauseAfterCall? || last.StopAfterCall? || last.Resume? {
          CommandsDo(c, before, last);
        } else if last.Boundary? || last.LandPause? || last.LandStop? {
          BoundariesDo(c, before, last);
        } else {
          OthersDo(c, before, last);
        }
      }
    }
  }

  /** After any actions, a resume of a run that has not ended leaves nothing pending: it runs, or keeps
      starting if it was never ready. */
  lemma ResumeClears(actions: seq<Action>)
    requires forall i :: 0 <= i < |actions| ==> Sane(actions[i])
    requires !Run(FRESH, actions).Ended()
    ensures Run(FRESH, actions + [Resume]).run == RunState(if WasReady(actions) then Running else Starting, None)
  {
    var resumed := actions + [Resume];
    RunIsWhatWasAsked(actions);
    RunStep(actions, Resume);
    CommandsDo(Run(FRESH, actions), actions, Resume);
    assert resumed[..|actions|] == actions;
    AskedStep(resumed);
  }

  lemma RunStep(actions: seq<Action>, action: Action)
    ensures Run(FRESH, actions + [action]) == Step(Run(FRESH, actions), action)
  {
    assert (actions + [action])[..|actions|] == actions;
  }

  lemma {:induction false} StillAsked(before: seq<Action>, request: Action, later: seq<Action>)
    requires request.PauseAfterCall? || request.StopAfterCall?
    requires forall i :: 0 <= i < |later| ==> !later[i].Resume?
    ensures var actions := before + [request] + later;
            if request.StopAfterCall? then StopAsked(actions) else PauseAsked(actions)
    decreases |later|
  {
    var actions := before + [request] + later;
    var n := |actions| - 1;
    AskedStep(actions);
    if later == [] {
      assert actions[n] == request;
    } else {
      assert actions[..n] == before + [request] + later[..|later|-1] && actions[n] == later[|later|-1];
      StillAsked(before, request, later[..|later|-1]);
    }
  }

  /** A pause or stop asked of a run, before or after it is ready, lands at its first boundary after that, unless
      a resume or an end comes between: as a stop if one was asked for since the last resume, whatever pauses
      were asked for before or after it, and else as a pause. */
  lemma RequestLands(before: seq<Action>, request: Action, later: seq<Action>, work: seq<Event>)
    requires request.PauseAfterCall? || request.StopAfterCall?
    requires forall i :: 0 <= i < |later| ==> !later[i].Resume?
    requires var actions := before + [request] + later;
             && (forall i :: 0 <= i < |actions| ==> Sane(actions[i])) && Sane(Boundary(work))
             && WasReady(actions) && !Run(FRESH, actions).Ended()
    ensures var actions := before + [request] + later;
            && (request.StopAfterCall? ==> StopAsked(actions))
            && Run(FRESH, actions + [Boundary(work)]).run
               == RunState(if StopAsked(actions) then Stopped else Paused, None)
  {
    var actions := before + [request] + later;
    StillAsked(before, request, later);
    LandsAtBoundary(actions, work);
  }

  lemma LandsAtBoundary(actions: seq<Action>, work: seq<Event>)
    requires (forall i :: 0 <= i < |actions| ==> Sane(actions[i])) && Sane(Boundary(work))
    requires WasReady(actions) && !Run(FRESH, actions).Ended() && (StopAsked(actions) || PauseAsked(actions))
    ensures Run(FRESH, actions + [Boundary(work)]).run == RunState(if StopAsked(actions) then Stopped else Paused, None)
  {
    var landed := actions + [Boundary(work)];
    RunIsWhatWasAsked(actions);
    RunStep(actions, Boundary(work));
    BoundariesDo(Run(FRESH, actions), actions, Boundary(work));
    assert landed[..|actions|] == actions && landed[|actions|] == Boundary(work);
    AskedStep(landed);
    LandedStep(landed);
  }

  /** A boundary raises exactly if the run has not ended, was never ready and no stop is asked for. */
  lemma BoundaryRaises(actions: seq<Action>)
    requires forall i :: 0 <= i < |actions| ==> Sane(actions[i])
    ensures var c := Run(FRESH, actions);
            c.Apply(InvocationFinished).None? <==> !c.Ended() && !WasReady(actions) && !StopAsked(actions)
  {
    RunIsWhatWasAsked(actions);
  }

  // ---- reopening ----

  /** `attach_read_only`: fold the history; a journal that has not ended is refused. */
  method AttachReadOnly(history: seq<Event>) returns (reopened: Option<State>)
    ensures reopened == if Replay(history).HasEnded() then Some(State(At(Replay(history)), history, true, [])) else None
  {
    var status := Starting;
    for i := 0 to |history|
      invariant status == Replay(history[..i])
    {
      var event := history[i];
      ReplayStep(history[..i], event);
      assert history[..i+1] == history[..i] + [event];
      if event.StatusChanged? {
        status := event.status;
      } else if event.RunFinished? {
        status := Completed;
      } else if event.RunFailedEvent? || event.RunInterrupted? {
        status := Failed;
      }
    }
    assert history[..|history|] == history;
    if !status.HasEnded() {
      return None;
    }
    return Some(State(At(status), history, true, []));
  }

  lemma ReadOnlyIsInert(c: State, action: Action)
    requires c.readOnly && c.Ended() && c.pending == [] && !action.EndFromOutside?
    ensures Step(c, action) == c
  {
  }

  lemma {:induction false} ReadOnlyStaysPut(c: State, later: seq<Action>)
    requires c.readOnly && c.Ended() && c.pending == []
    requires forall i :: 0 <= i < |later| ==> !later[i].EndFromOutside?
    ensures Run(c, later) == c
  {
    if later != [] {
      ReadOnlyStaysPut(c, later[..|later|-1]);
      ReadOnlyIsInert(c, later[|later|-1]);
    }
  }

  /** A run that ended reopens in the status it ended in, and whatever is then done to it changes nothing. */
  lemma ReopensAsItEnded(actions: seq<Action>, later: seq<Action>)
    requires Legal(FRESH, actions) && Run(FRESH, actions).Ended()
    requires forall i :: 0 <= i < |later| ==> !later[i].EndFromOutside?
    ensures var c := Run(FRESH, actions);
            var again := State(At(Replay(c.journal)), c.journal, true, []);
            Run(again, later) == again && again.run.status == c.run.status
  {
    StatusIsReplay(FRESH, actions);
    var c := Run(FRESH, actions);
    ReadOnlyStaysPut(State(At(Replay(c.journal)), c.journal, true, []), later);
  }

  // ---- the class: each method is the action the interleavings above are made of ----

  class RunController {
    var state: RunState
    var journal: seq<Event>
    var readOnly: bool
    var pending: seq<Event>

    ghost function View(): State
      reads this
    {
      State(state, journal, readOnly, pending)
    }

    constructor ()
      ensures View() == FRESH
    {
      state, journal, readOnly, pending := At(Starting), [], false, [];
    }

    method Record(event: Event)
      modifies this`journal
      ensures View() == old(View()).Record(event)
    {
      if !readOnly {
        journal := journal + [event];
      }
    }

    /** `_apply_locked`; `reached` is None when the transition is illegal and raises. */
    method ApplyLocked(trigger: RunTrigger) returns (reached: Option<RunStatus>)
      modifies this`state, this`journal
      ensures reached.None? <==> old(View()).Apply(trigger).None?
      ensures View() == old(View()).Apply(trigger).Or(old(View()))
      ensures reached.Some? ==> reached.value == state.status
    {
      var previous := state.status;
      var next := Transition(state, trigger);
      if next.None? {
        return None;
      }
      state := next.value;
      if state.status != previous {
        Record(StatusChanged(state.status, previous));
      }
      return Some(state.status);
    }

    method PauseAfterCall()
      modifies this
      ensures View() == Step(old(View()), Action.PauseAfterCall)
    {
      var reached := ApplyLocked(PauseRequested);
      if reached.Some? {
        Record(Control("/pause", false));
      }
    }

    method StopAfterCall()
      modifies this
      ensures View() == Step(old(View()), Action.StopAfterCall)
    {
      var reached := ApplyLocked(StopRequested);
      if reached.Some? {
        Record(Control("/stop", false));
      }
    }

    method Resume()
      modifies this
      ensures View() == Step(old(View()), Action.Resume)
    {
      var reached := ApplyLocked(Resumed);
      if reached.Some? {
        Record(Control("/resume", true));
      }
    }

    /** `_reach_invocation_boundary_locked`, after the tracker recorded the finished work. */
    method ReachInvocationBoundary(work: seq<Event>) returns (raised: bool)
      modifies this
      ensures View() == Step(old(View()), Boundary(work))
      ensures raised <==> old(View()).RecordAll(work).Apply(InvocationFinished).None?
    {
      if !readOnly {
        journal := journal + work;
      }
      var reached := ApplyLocked(InvocationFinished);
      if reached == Some(Paused) {
        Record(Control("/pause", true));
      } else if reached == Some(Stopped) {
        Record(Control("/stop", true));
      }
      return reached.None?;
    }

    method LandPauseAtBoundary() returns (raised: bool)
      modifies this
      ensures View() == Step(old(View()), LandPause)
      ensures raised <==> old(state) == RunState(Starting, Some(PauseRequest))
    {
      if !state.PausePending() {
        return false;
      }
      var reached := ApplyLocked(InvocationFinished);
      if reached.Some? {
        Record(Control("/pause", true));
      }
      return reached.None?;
    }

    method LandStopAtBoundary()
      modifies this
      ensures View() == Step(old(View()), LandStop)
    {
      if !state.StopPending() {
        return;
      }
      var reached := ApplyLocked(InvocationFinished);
      Record(Control("/stop", true));
    }

    /** `_settle_locked`: end the run exactly once. */
    method Settle(trigger: RunTrigger, work: seq<Event>) returns (settled: bool)
      requires trigger.RunCompleted? || trigger.RunFailed?
      modifies this
      ensures View() == Step(old(View()), Action.Settle(trigger, work))
      ensures settled <==> !old(state).status.HasEnded()
      ensures state.status.HasEnded()
    {
      if state.status.HasEnded() {
        return false;
      }
      if !readOnly {
        journal := journal + work;
      }
      var reached := ApplyLocked(trigger);
      return true;
    }

    /** `finish`, up to the point where its thread still has its terminal event to append. */
    method Finish(failed: bool, recordEvent: bool, work: seq<Event>)
      modifies this
      ensures View() == Step(old(View()), Action.Finish(failed, recordEvent, work))
    {
      var settled := Settle(if failed then RunTrigger.RunFailed else RunCompleted, work);
      if settled && recordEvent {
        pending := pending + [if failed then RunFailedEvent else RunFinished];
      }
    }
  }
}
