/** `MainThreadInterrupt` (src/entrypoints/main_thread_interrupt.py).  A signal handler may start between
    any two steps of a handler already running, so the handler runs form a stack; an exception raised in
    one unwinds every handler below it.  Setting the event is one step. */
module Interrupt {
  import opened Common

  const STUCK_SECONDS: real := 5.0

  // ---- handlers on the main thread, and any number of requests ----

  /** Where a run of `take` stands: about to test the event, about to set it, about to raise. */
  datatype Frame = Entered | Unset | Marked

  /** Where a call of `request` stands: at the loop's guard, about to send, waiting, or returned. */
  datatype Place = AtGuard | AtWake | AtWait | Returned
  datatype Request = Request(started: real, place: Place, sent: nat, reported: bool, reports: seq<real>)

  datatype State = State(taken: bool, stack: seq<Frame>, raised: nat, requests: seq<Request>)

  datatype Step =
    | Signal                        // a wake signal is noticed: its handler starts on top of the stack
    | Handle                        // the topmost handler takes its next step
    | Call(now: real)               // another thread calls `request`
    | Proceed(call: nat, now: real) // a request takes its next step; `now` is what its clock would read

  const START := State(false, [], 0, [])

  function HandleTop(s: State): State {
    if s.stack == [] then s
    else
      var rest := s.stack[..|s.stack|-1];
      match s.stack[|s.stack|-1]
      case Entered => if s.taken then s.(stack := rest) else s.(stack := rest + [Unset])
      case Unset => s.(taken := true, stack := rest + [Marked])
      case Marked => s.(raised := s.raised + 1, stack := [])
  }

  function Advance(r: Request, taken: bool, now: real): Request {
    match r.place
    case AtGuard => r.(place := if taken then Returned else AtWake)
    case AtWake => r.(place := AtWait, sent := r.sent + 1)
    case AtWait =>
      var waited := now - r.started;
      if !r.reported && !taken && waited >= STUCK_SECONDS
      then r.(place := AtGuard, reported := true, reports := r.reports + [waited])
      else r.(place := AtGuard)
    case Returned => r
  }

  function Next(s: State, step: Step): State {
    match step
    case Signal => s.(stack := s.stack + [Entered])
    case Handle => HandleTop(s)
    case Call(now) => s.(requests := s.requests + [Request(now, AtGuard, 0, false, [])])
    case Proceed(call, now) =>
      if call >= |s.requests| then s
      else s.(requests := s.requests[call := Advance(s.requests[call], s.taken, now)])
  }

  function Run(steps: seq<Step>): State {
    if steps == [] then START else Next(Run(steps[..|steps|-1]), steps[|steps|-1])
  }

  // ---- what every step keeps ----

  /** One handler is about to raise, with only fresh handlers above it. */
  ghost predicate AboutToRaise(stack: seq<Frame>) {
    exists m :: 0 <= m < |stack| && stack[m].Marked? && forall k :: m < k < |stack| ==> stack[k].Entered?
  }

  ghost predicate OneRaise(s: State) {
    if !s.taken then s.raised == 0 && forall k :: 0 <= k < |s.stack| ==> !s.stack[k].Marked?
    else if s.raised == 0 then AboutToRaise(s.stack)
    else s.raised == 1 && forall k :: 0 <= k < |s.stack| ==> s.stack[k].Entered?
  }

  predicate HonestRequest(r: Request, taken: bool) {
    && (r.place.Returned? ==> taken)
    && |r.reports| == (if r.reported then 1 else 0)
    && (r.reported ==> r.reports[0] >= STUCK_SECONDS)
  }

  ghost predicate Inv(s: State) {
    OneRaise(s) && forall i :: 0 <= i < |s.requests| ==> HonestRequest(s.requests[i], s.taken)
  }

  lemma SignalKeeps(s: State)
    requires OneRaise(s)
    ensures OneRaise(Next(s, Signal))
  {
    var grown := s.stack + [Entered];
    if s.taken && s.raised == 0 {
      var m :| 0 <= m < |s.stack| && s.stack[m].Marked? && forall k :: m < k < |s.stack| ==> s.stack[k].Entered?;
      assert grown[m].Marked? && forall k :: m < k < |grown| ==> grown[k].Entered?;
    }
  }

  lemma HandleKeeps(s: State)
    requires OneRaise(s)
    ensures OneRaise(HandleTop(s)) && (s.taken ==> HandleTop(s).taken)
  {
    if s.stack != [] {
      var n := |s.stack| - 1;
      var after := HandleTop(s);
      if s.taken && s.raised == 0 {
        var m :| 0 <= m < |s.stack| && s.stack[m].Marked? && forall k :: m < k < |s.stack| ==> s.stack[k].Entered?;
        if m < n {
          assert after.stack == s.stack[..n];
          assert after.stack[m].Marked? && forall k :: m < k < |after.stack| ==> after.stack[k].Entered?;
        }
      } else if !s.taken && s.stack[n].Unset? {
        assert after.stack[n].Marked? && |after.stack| == n + 1;
      }
    }
  }

  lemma NextKeeps(s: State, step: Step)
    requires Inv(s)
    ensures Inv(Next(s, step))
  {
    match step
    case Signal => SignalKeeps(s);
    case Handle => HandleKeeps(s);
    case Call(_) =>
    case Proceed(_, _) =>
  }

  /** Over all signals, nested handler runs and requests, in any order: at most one interrupt is raised;
      once it is taken it is raised or about to be; a request returns only once it is taken; and a request
      reports a stuck main thread at most once, and not before `STUCK_SECONDS`. */
  lemma {:induction false} InterruptsOnce(steps: seq<Step>)
    ensures var s := Run(steps);
            && Inv(s)
            && s.raised <= 1 && (s.raised == 1 ==> s.taken)
            && (s.taken && s.stack == [] ==> s.raised == 1)
            && forall i :: 0 <= i < |s.requests| ==>
                 && (s.requests[i].place.Returned? ==> s.taken)
                 && |s.requests[i].reports| <= 1
                 && forall k :: 0 <= k < |s.requests[i].reports| ==> s.requests[i].reports[k] >= STUCK_SECONDS
  {
    if steps != [] {
      InterruptsOnce(steps[..|steps|-1]);
      NextKeeps(Run(steps[..|steps|-1]), steps[|steps|-1]);
    }
  }

  // ---- what each request did ----

  /** What a step of a request finds: whether the event is set, and the clock. */
  datatype Reading = Reading(taken: bool, now: real)

  /** The readings of one request, in order.  A round of its loop takes three: at the guard, as it sends and
      after the wait. */
  ghost function Readings(steps: seq<Step>, call: nat): seq<Reading> {
    if steps == [] then []
    else
      var before, step := Run(steps[..|steps|-1]), steps[|steps|-1];
      Readings(steps[..|steps|-1], call)
      + if step.Proceed? && step.call == call && call < |before.requests| then [Reading(before.taken, step.now)] else []
  }

  ghost predicate FoundSet(readings: seq<Reading>, round: nat) {
    3 * round < |readings| && readings[3 * round].taken
  }

  ghost predicate FoundStuck(readings: seq<Reading>, started: real, round: nat) {
    && 3 * round + 2 < |readings|
    && !readings[3 * round + 2].taken && readings[3 * round + 2].now - started >= 5.0
  }

  /** A request has sent once in every round it began; it has returned exactly if its guard found the event
      set, and then in that round; otherwise it stands where its number of steps puts it. */
  ghost predicate SentEachRound(r: Request, readings: seq<Reading>) {
    && (forall k: nat :: k < r.sent ==> !FoundSet(readings, k))
    && match r.place
       case Returned => FoundSet(readings, r.sent)
       case AtGuard => |readings| == 3 * r.sent
       case AtWake => |readings| == 3 * r.sent + 1 && !FoundSet(readings, r.sent)
       case AtWait => r.sent > 0 && |readings| == 3 * r.sent - 1
  }

  /** It has reported the first round in which its wait found the event unset after five seconds, if there
      was one, and no other. */
  ghost predicate ReportedFirstStuck(r: Request, readings: seq<Reading>) {
    if r.reported then exists round: nat :: round < r.sent && ReportedAt(r, readings, round)
    else r.reports == [] && NoneStuck(readings, r.started, r.sent)
  }

  ghost predicate NoneStuck(readings: seq<Reading>, started: real, rounds: nat) {
    forall k: nat :: k < rounds ==> !FoundStuck(readings, started, k)
  }

  ghost predicate ReportedAt(r: Request, readings: seq<Reading>, round: nat) {
    && FoundStuck(readings, r.started, round) && NoneStuck(readings, r.started, round)
    && r.reports == [readings[3 * round + 2].now - r.started]
  }

  lemma AdvanceSends(r: Request, readings: seq<Reading>, reading: Reading)
    requires SentEachRound(r, readings)
    ensures SentEachRound(Advance(r, reading.taken, reading.now), readings + [reading])
  {
    var after, more := Advance(r, reading.taken, reading.now), readings + [reading];
    forall k: nat | k < after.sent
      ensures !FoundSet(more, k)
    {
      assert k < r.sent ==> !FoundSet(readings, k);
    }
  }

  lemma StillNoneStuck(readings: seq<Reading>, reading: Reading, started: real, rounds: nat)
    requires NoneStuck(readings, started, rounds)
    requires forall k: nat :: k < rounds && 3 * k + 2 == |readings| ==> reading.taken || reading.now - started < 5.0
    ensures NoneStuck(readings + [reading], started, rounds)
  {
    forall k: nat | k < rounds
      ensures !FoundStuck(readings + [reading], started, k)
    {
      assert !FoundStuck(readings, started, k);
    }
  }

  lemma StillReported(r: Request, readings: seq<Reading>, reading: Reading)
    requires SentEachRound(r, readings) && ReportedFirstStuck(r, readings) && r.reported
    ensures ReportedFirstStuck(Advance(r, reading.taken, reading.now), readings + [reading])
  {
    var after := Advance(r, reading.taken, reading.now);
    var round: nat :| round < r.sent && ReportedAt(r, readings, round);
    StillNoneStuck(readings, reading, r.started, round);
    assert ReportedAt(after, readings + [reading], round);
  }

  lemma StillUnreported(r: Request, readings: seq<Reading>, reading: Reading)
    requires SentEachRound(r, readings) && ReportedFirstStuck(r, readings) && !r.reported && !r.place.AtWait?
    ensures ReportedFirstStuck(Advance(r, reading.taken, reading.now), readings + [reading])
  {
    StillNoneStuck(readings, reading, r.started, r.sent);
  }

  lemma WaitReports(r: Request, readings: seq<Reading>, reading: Reading)
    requires SentEachRound(r, readings) && ReportedFirstStuck(r, readings) && !r.reported && r.place.AtWait?
    ensures ReportedFirstStuck(Advance(r, reading.taken, reading.now), readings + [reading])
  {
    var after, more, round := Advance(r, reading.taken, reading.now), readings + [reading], r.sent - 1;
    assert more[3 * round + 2] == reading;
    StillNoneStuck(readings, reading, r.started, round);
    if after.reported {
      assert ReportedAt(after, more, round);
    } else {
      StillNoneStuck(readings, reading, r.started, r.sent);
    }
  }

  lemma AdvanceReports(r: Request, readings: seq<Reading>, reading: Reading)
    requires SentEachRound(r, readings) && ReportedFirstStuck(r, readings)
    ensures ReportedFirstStuck(Advance(r, reading.taken, reading.now), readings + [reading])
  {
    if r.reported {
      StillReported(r, readings, reading);
    } else if r.place.AtWait? {
      WaitReports(r, readings, reading);
    } else {
      StillUnreported(r, readings, reading);
    }
  }

  /** What one step does to the request `call`: it starts, it advances, or nothing. */
  lemma RequestAfter(before: State, step: Step, call: nat)
    requires call < |Next(before, step).requests|
    ensures call >= |before.requests| ==>
              step.Call? && Next(before, step).requests[call] == Request(step.now, AtGuard, 0, false, [])
    ensures call < |before.requests| ==>
              Next(before, step).requests[call] ==
                if step.Proceed? && step.call == call then Advance(before.requests[call], before.taken, step.now)
                else before.requests[call]
  {
    match step
    case Signal =>
    case Handle => HandleKeepsRequests(before);
    case Call(_) =>
    case Proceed(_, _) =>
  }

  lemma HandleKeepsRequests(s: State)
    ensures HandleTop(s).requests == s.requests
  {
  }

  /** Over every run, each request did what its own readings say: it sends until a guard finds the event
      set, returns there, and reports the first stuck round and no other. */
  lemma {:induction false} RequestsFollowTheirReadings(steps: seq<Step>, call: nat)
    requires call < |Run(steps).requests|
    ensures SentEachRound(Run(steps).requests[call], Readings(steps, call))
    ensures ReportedFirstStuck(Run(steps).requests[call], Readings(steps, call))
  {
    var init, step := steps[..|steps|-1], steps[|steps|-1];
    var before, was := Run(init), Readings(init, call);
    RequestAfter(before, step, call);
    if call >= |before.requests| {
      NoReadingsYet(init, call);
    } else {
      RequestsFollowTheirReadings(init, call);
      if step.Proceed? && step.call == call {
        AdvanceSends(before.requests[call], was, Reading(before.taken, step.now));
        AdvanceReports(before.requests[call], was, Reading(before.taken, step.now));
      } else {
        assert Readings(steps, call) == was;
      }
    }
  }

  lemma {:induction false} NoReadingsYet(steps: seq<Step>, call: nat)
    requires call >= |Run(steps).requests|
    ensures Readings(steps, call) == []
  {
    if steps != [] {
      NoReadingsYet(steps[..|steps|-1], call);
    }
  }

  /** Let the main thread run until no handler is left. */
  function Drain(s: State): State
    decreases Work(s.stack)
  {
    if s.stack == [] then s
    else
      WorkShrinks(s);
      Drain(HandleTop(s))
  }

  function Work(stack: seq<Frame>): nat {
    if stack == [] then 0
    else Work(stack[..|stack|-1]) + match stack[|stack|-1] { case Entered => 3 case Unset => 2 case Marked => 1 }
  }

  lemma WorkShrinks(s: State)
    requires s.stack != []
    ensures Work(HandleTop(s).stack) < Work(s.stack)
  {
    var rest := s.stack[..|s.stack|-1];
    assert (rest + [Unset])[..|rest|] == rest;
    assert (rest + [Marked])[..|rest|] == rest;
  }

  /** One signal that gets through is enough: when the main thread has run its handlers the interrupt has
      been raised, exactly once, and every request returns at its next look. */
  lemma {:induction false} OneSignalIsEnough(s: State)
    requires Inv(s) && s.stack != []
    ensures var done := Drain(s);
            && done.taken && done.raised == 1 && done.stack == [] && done.requests == s.requests
            && forall i, now :: 0 <= i < |s.requests| && s.requests[i].place.AtGuard? ==>
                 Next(done, Proceed(i, now)).requests[i].place.Returned?
    decreases Work(s.stack)
  {
    WorkShrinks(s);
    NextKeeps(s, Handle);
    if HandleTop(s).stack != [] {
      OneSignalIsEnough(HandleTop(s));
    } else {
      LastHandler(s);
    }
  }

  lemma LastHandler(s: State)
    requires Inv(s) && s.stack != [] && HandleTop(s).stack == []
    ensures HandleTop(s).taken && HandleTop(s).raised == 1
  {
    var n := |s.stack| - 1;
    if s.stack[n].Entered? {
      assert s.stack == [Entered];
    }
  }

  // ---- the class ----

  class MainThreadInterrupt {
    var taken: bool

    constructor ()
      ensures !taken
    {
      taken := false;
    }

    /** `take`, run without a nested handler. */
    method Take() returns (raises: bool)
      modifies this
      ensures taken && (raises <==> !old(taken))
    {
      if taken {
        return false;
      }
      taken := true;
      return true;
    }
  }

  /** The event and the clock as one call of `request` finds them: `set(2k)` is what its guard reads in
      round `k` and `set(2k+1)` what it reads after the wait; `now(k+1)` is the clock then. */
  datatype World = World(set_: nat -> bool, now: nat -> real)

  ghost predicate EventStaysSet(w: World) {
    forall i: nat, j: nat :: i <= j && w.set_(i) ==> w.set_(j)
  }

  predicate Stuck(w: World, round: nat) {
    !w.set_(2 * round + 1) && w.now(round + 1) - w.now(0) >= STUCK_SECONDS
  }

  /** `request`, in any world in which the event is set at some reading: it sends in exactly the rounds
      whose guard finds the event unset, returns at the first guard that finds it set, and reports the
      first round in which the main thread is stuck, if there is one, and no other. */
  method RequestInterrupt(w: World, ghost bound: nat) returns (sends: nat, reports: seq<real>)
    requires EventStaysSet(w) && w.set_(2 * bound)
    ensures w.set_(2 * sends) && forall k :: 0 <= k < sends ==> !w.set_(2 * k)
    ensures |reports| <= 1
    ensures reports != [] <==> exists k :: 0 <= k < sends && Stuck(w, k)
    ensures reports != [] ==>
              exists k :: 0 <= k < sends && Stuck(w, k) && reports[0] == w.now(k + 1) - w.now(0)
                          && forall j :: 0 <= j < k ==> !Stuck(w, j)
  {
    var started := w.now(0);
    var reported := false;
    sends, reports := 0, [];
    while !w.set_(2 * sends)
      invariant sends <= bound
      invariant forall k :: 0 <= k < sends ==> !w.set_(2 * k)
      invariant |reports| == if reported then 1 else 0
      invariant reported <==> exists k :: 0 <= k < sends && Stuck(w, k)
      invariant reported ==>
                  exists k :: 0 <= k < sends && Stuck(w, k) && reports[0] == w.now(k + 1) - w.now(0)
                              && forall j :: 0 <= j < k ==> !Stuck(w, j)
      decreases bound - sends
    {
      var waited := w.now(sends + 1) - started;
      if !reported && !w.set_(2 * sends + 1) && waited >= STUCK_SECONDS {
        assert Stuck(w, sends);
        reported := true;
        reports := reports + [waited];
      }
      sends := sends + 1;
    }
  }
}
