/** The two polling loops that stop a gateway (src/entrypoints/server.py), against any environment: what
    each observation, record, signal and clock reading gives is an arbitrary function of the poll. */
module GatewayStop {
  import opened Common

  /** The websocket close bound (10 s) and the grace to see the files released (2 s). */
  const STOP_TIMEOUT: real := 12.0

  // ---- the clock ----

  /** Readings never run back, and from one loop test to the next, a sleep apart, advance by `tick`. */
  ghost predicate Ticks(clock: nat -> real, tick: real) {
    && tick > 0.0 && clock(0) <= clock(1)
    && forall j: nat, k: nat :: 1 <= j && k == j + 1 ==> clock(j) + tick <= clock(k)
  }

  lemma {:induction false} ClockAdvances(clock: nat -> real, tick: real, n: nat)
    requires Ticks(clock, tick)
    ensures clock(n+1) >= clock(0) + n as real * tick
  {
    if n > 0 {
      ClockAdvances(clock, tick, n - 1);
      assert clock(n) + tick <= clock(n+1);
      OneMore(n, tick);
    }
  }

  lemma OneMore(n: nat, tick: real)
    requires n > 0
    ensures n as real * tick == (n - 1) as real * tick + tick
  {
    assert n as real == (n - 1) as real + 1.0;
  }

  lemma EnoughTicks(tick: real) returns (n: nat)
    requires tick > 0.0
    ensures n as real * tick >= STOP_TIMEOUT
  {
    var quotient := STOP_TIMEOUT / tick;
    assert quotient * tick == STOP_TIMEOUT;
    assert quotient >= 0.0;
    n := quotient.Floor + 1;
    AtLeast(n as real, quotient, tick);
  }

  lemma AtLeast(a: real, b: real, tick: real)
    requires a >= b && tick > 0.0
    ensures a * tick >= b * tick
  {
  }

  /** By some reading the budget is spent. */
  lemma ClockRunsOut(clock: nat -> real, tick: real) returns (last: nat)
    requires Ticks(clock, tick)
    ensures clock(last+1) >= clock(0) + STOP_TIMEOUT
  {
    last := EnoughTicks(tick);
    ClockAdvances(clock, tick, last);
  }

  // ---- by instance directory ----

  /** `WebInstanceHold`: both observations may be unavailable. */
  datatype Hold = Hold(holders: Option<seq<int>>, logLocked: Option<bool>) {
    predicate Free() {
      logLocked == Some(false) && (holders.None? || holders.value == [])
    }
  }

  datatype Effects = Effects(
    observe: nat -> Hold, recordPid: nat -> Option<int>, delivers: nat -> bool, clock: nat -> real)

  datatype Outcome = NotRunning | StoppedIt | StillHolding
  datatype Result = Result(outcome: Outcome, hold: Hold, pid: Option<int>)

  /** The log's lock is known to be free, and no process is seen to hold the files. */
  ghost predicate SeenFree(hold: Hold) {
    && hold.logLocked.Some? && !hold.logLocked.value
    && match hold.holders
       case None => true
       case Some(holders) => |holders| == 0
  }

  /** A SIGTERM attempted at one poll. */
  datatype Sigterm = Sigterm(poll: nat, pid: int, delivered: bool)

  predicate IsAHolder(hold: Hold, pid: int) {
    hold.holders.None? || pid in hold.holders.value
  }

  /** The record read at poll `k` names a process that this poll observes holding the files, or the poll
      cannot observe who holds them. */
  ghost predicate Addressable(e: Effects, k: nat, pid: int) {
    && e.recordPid(k) == Some(pid)
    && match e.observe(k).holders
       case None => true
       case Some(holders) => exists i :: 0 <= i < |holders| && holders[i] == pid
  }

  /** A signal sent at the first poll where its process is addressable, with the delivery that poll reports. */
  ghost predicate SentFirst(e: Effects, s: Sigterm) {
    && Addressable(e, s.poll, s.pid) && s.delivered == e.delivers(s.poll)
    && forall k :: 0 <= k < s.poll ==> !Addressable(e, k, s.pid)
  }

  /** The signals of polls before `n`: exactly one for each process addressable at one of them, in order. */
  ghost predicate SignalsOf(e: Effects, n: nat, signals: seq<Sigterm>) {
    && (forall i :: 0 <= i < |signals| ==> signals[i].poll < n && SentFirst(e, signals[i]))
    && InOrder(signals)
    && AllAddressed(e, n, Addressed(signals))
  }

  ghost predicate InOrder(signals: seq<Sigterm>) {
    forall i, j :: 0 <= i < j < |signals| ==> signals[i].poll < signals[j].poll && signals[i].pid != signals[j].pid
  }

  ghost predicate AllAddressed(e: Effects, n: nat, addressed: set<int>) {
    forall k, pid :: 0 <= k < n && Addressable(e, k, pid) ==> pid in addressed
  }

  function Addressed(signals: seq<Sigterm>): set<int> {
    set i | 0 <= i < |signals| :: signals[i].pid
  }

  /** The last process a signal reached. */
  function LastDelivered(signals: seq<Sigterm>): (pid: Option<int>)
    ensures pid.None? <==> forall i :: 0 <= i < |signals| ==> !signals[i].delivered
    ensures pid.Some? ==>
              exists i :: 0 <= i < |signals| && signals[i].delivered && pid == Some(signals[i].pid)
                          && forall j :: i < j < |signals| ==> !signals[j].delivered
  {
    if signals == [] then None
    else if signals[|signals|-1].delivered then Some(signals[|signals|-1].pid)
    else LastDelivered(signals[..|signals|-1])
  }

  lemma AddressedStep(signals: seq<Sigterm>, s: Sigterm)
    ensures Addressed(signals + [s]) == Addressed(signals) + {s.pid}
    ensures LastDelivered(signals + [s]) == if s.delivered then Some(s.pid) else LastDelivered(signals)
  {
    var grown := signals + [s];
    assert grown[..|signals|] == signals;
    assert grown[|signals|].pid in Addressed(grown);
    forall pid | pid in Addressed(signals)
      ensures pid in Addressed(grown)
    {
      var i :| 0 <= i < |signals| && signals[i].pid == pid;
      assert grown[i].pid == pid;
    }
  }

  lemma InOrderStep(signals: seq<Sigterm>, s: Sigterm)
    requires InOrder(signals) && s.pid !in Addressed(signals)
    requires forall i :: 0 <= i < |signals| ==> signals[i].poll < s.poll
    ensures InOrder(signals + [s])
  {
    var grown := signals + [s];
    forall i, j | 0 <= i < j < |grown|
      ensures grown[i].poll < grown[j].poll && grown[i].pid != grown[j].pid
    {
      assert grown[i] == signals[i] && signals[i].pid in Addressed(signals);
    }
  }

  lemma SignalNow(e: Effects, n: nat, signals: seq<Sigterm>, pid: int)
    requires SignalsOf(e, n, signals) && Addressable(e, n, pid) && pid !in Addressed(signals)
    ensures SignalsOf(e, n + 1, signals + [Sigterm(n, pid, e.delivers(n))])
  {
    var s := Sigterm(n, pid, e.delivers(n));
    AddressedStep(signals, s);
    InOrderStep(signals, s);
    assert SentFirst(e, s);
    assert AllAddressed(e, n + 1, Addressed(signals) + {pid});
  }

  lemma NoSignalNow(e: Effects, n: nat, signals: seq<Sigterm>)
    requires SignalsOf(e, n, signals)
    requires forall pid :: Addressable(e, n, pid) ==> pid in Addressed(signals)
    ensures SignalsOf(e, n + 1, signals)
  {
  }

  /** Poll `k` ends the wait: the directory is free, or the budget is spent. */
  ghost predicate Ends(e: Effects, k: nat) {
    SeenFree(e.observe(k)) || e.clock(k+1) >= e.clock(0) + STOP_TIMEOUT
  }

  /** What the loop keeps of the signals sent before poll `n`. */
  ghost predicate Keeps(e: Effects, n: nat, signals: seq<Sigterm>, addressed: set<int>, signalled: Option<int>) {
    SignalsOf(e, n, signals) && addressed == Addressed(signals) && signalled == LastDelivered(signals)
  }

  lemma NothingSent(e: Effects)
    ensures Keeps(e, 0, [], {}, None)
  {
  }

  /** The loop's first step: signal the recorded process if it is new and observed to hold the files. */
  method Address(e: Effects, k: nat, hold: Hold, record: Option<int>, signals: seq<Sigterm>,
                 addressed: set<int>, signalled: Option<int>)
    returns (signals': seq<Sigterm>, addressed': set<int>, signalled': Option<int>)
    requires hold == e.observe(k) && record == e.recordPid(k)
    requires Keeps(e, k, signals, addressed, signalled)
    ensures Keeps(e, k + 1, signals', addressed', signalled')
  {
    signals', addressed', signalled' := signals, addressed, signalled;
    if record.Some? && record.value !in addressed && IsAHolder(hold, record.value) {
      var s := Sigterm(k, record.value, e.delivers(k));
      SignalNow(e, k, signals, record.value);
      AddressedStep(signals, s);
      addressed' := addressed + {record.value};
      if s.delivered {
        signalled' := record;
      }
      signals' := signals + [s];
    } else {
      NoSignalNow(e, k, signals);
    }
  }

  /** No poll before `n` ends the wait. */
  ghost predicate NoneEnds(e: Effects, n: nat) {
    forall k :: 0 <= k < n ==> !Ends(e, k)
  }

  /** Poll `last` is the first that ends the wait. */
  ghost predicate FirstEnd(e: Effects, last: nat) {
    Ends(e, last) && NoneEnds(e, last)
  }

  /** The wait goes on past poll `k`, and the poll that spends the budget is still to come. */
  lemma GoesOn(e: Effects, k: nat, bound: nat)
    requires NoneEnds(e, k) && !Ends(e, k) && k <= bound && e.clock(bound+1) >= e.clock(0) + STOP_TIMEOUT
    ensures NoneEnds(e, k + 1) && k < bound
  {
  }

  /** `stop_detached_gateway`.  It reports on the first poll that ends the wait: stopped exactly if that
      poll saw the directory free, still holding exactly if it did not and the deadline had passed. */
  method StopDetachedGateway(e: Effects, ghost tick: real) returns (result: Result, last: nat, signals: seq<Sigterm>)
    requires Ticks(e.clock, tick)
    ensures result.hold == e.observe(last)
    ensures result.outcome.NotRunning? <==> e.recordPid(0).None? && SeenFree(e.observe(0))
    ensures result.outcome.NotRunning? ==> last == 0 && signals == [] && result.pid.None?
    ensures !result.outcome.NotRunning? ==>
              && FirstEnd(e, last) && (result.outcome.StoppedIt? <==> SeenFree(e.observe(last)))
              && SignalsOf(e, last + 1, signals) && result.pid == LastDelivered(signals)
  {
    last, signals := 0, [];
    var hold, record := e.observe(0), e.recordPid(0);
    if record.None? && hold.Free() {
      return Result(NotRunning, hold, None), last, signals;
    }
    var deadline := e.clock(0) + STOP_TIMEOUT;
    ghost var bound := ClockRunsOut(e.clock, tick);
    var signalled: Option<int> := None;
    var addressed: set<int> := {};
    NothingSent(e);
    while true
      invariant hold == e.observe(last) && record == e.recordPid(last)
      invariant Keeps(e, last, signals, addressed, signalled)
      invariant last <= bound && NoneEnds(e, last)
      decreases bound - last
    {
      signals, addressed, signalled := Address(e, last, hold, record, signals, addressed, signalled);
      if hold.Free() {
        return Result(StoppedIt, hold, signalled), last, signals;
      }
      if e.clock(last+1) >= deadline {
        return Result(StillHolding, hold, signalled), last, signals;
      }
      GoesOn(e, last, bound);
      last := last + 1;
      hold, record := e.observe(last), e.recordPid(last);
    }
  }

  // ---- by port ----

  datatype PortState = PortFree | VibesysGateway | OtherProcess | Unknown
  datatype Listener = Listener(pid: int, identity: string)
  datatype Observation = Observation(state: PortState, gateway: Option<Listener>)
  datatype PortEffects = PortEffects(inspect: nat -> Observation, terminates: bool, clock: nat -> real)

  datatype PortOutcome = PortNotRunning | PortStopped | Refused | PortStillHolding
  datatype PortResult = PortResult(outcome: PortOutcome, observation: Observation, pid: Option<int>)

  /** Inspection `k` ends the wait for `listener`: freed, replaced by something else, or out of time. */
  predicate PortEnds(e: PortEffects, listener: Listener, k: nat) {
    || e.inspect(k).state.PortFree?
    || e.inspect(k).gateway != Some(listener)
    || e.clock(k) >= e.clock(0) + STOP_TIMEOUT
  }

  /** `stop_web_gateway_on_port`.  Only the listener verified by the first inspection is ever signalled;
      then the first later inspection that ends the wait decides: stopped exactly if the port is free,
      refused exactly if something else now answers on it. */
  method StopWebGatewayOnPort(e: PortEffects, ghost tick: real)
    returns (result: PortResult, last: nat, signalled: Option<Listener>)
    requires Ticks(e.clock, tick)
    ensures result.observation == e.inspect(last)
    ensures signalled == if e.inspect(0).state.VibesysGateway? then e.inspect(0).gateway else None
    ensures result.outcome.PortNotRunning? <==> e.inspect(0).state.PortFree?
    ensures signalled.None? ==>
              last == 0 && result.pid.None? && (result.outcome.PortNotRunning? || result.outcome.Refused?)
    ensures signalled.Some? && !e.terminates ==>
              && last == 1 && result.pid.None?
              && result.outcome == if e.inspect(1).state.PortFree? then PortStopped else Refused
    ensures signalled.Some? && e.terminates ==>
              && last >= 1 && PortEnds(e, signalled.value, last)
              && (forall k :: 1 <= k < last ==> !PortEnds(e, signalled.value, k))
              && result.pid == Some(signalled.value.pid)
              && result.outcome ==
                 if e.inspect(last).state.PortFree? then PortStopped
                 else if e.inspect(last).gateway != signalled then Refused
                 else PortStillHolding
  {
    var observation := e.inspect(0);
    last, signalled := 0, None;
    if observation.state.PortFree? {
      return PortResult(PortNotRunning, observation, None), last, signalled;
    }
    if !observation.state.VibesysGateway? || observation.gateway.None? {
      return PortResult(Refused, observation, None), last, signalled;
    }
    var listener := observation.gateway.value;
    signalled := Some(listener);
    if !e.terminates {
      observation := e.inspect(1);
      return PortResult(if observation.state.PortFree? then PortStopped else Refused, observation, None), 1, signalled;
    }
    var deadline := e.clock(0) + STOP_TIMEOUT;
    ghost var bound := ClockRunsOut(e.clock, tick);
    last := 1;
    while true
      invariant 1 <= last <= bound + 1 && forall k :: 1 <= k < last ==> !PortEnds(e, listener, k)
      decreases bound + 1 - last
    {
      observation := e.inspect(last);
      if observation.state.PortFree? {
        return PortResult(PortStopped, observation, Some(listener.pid)), last, signalled;
      }
      if observation.gateway != Some(listener) {
        return PortResult(Refused, observation, Some(listener.pid)), last, signalled;
      }
      if e.clock(last) >= deadline {
        return PortResult(PortStillHolding, observation, Some(listener.pid)), last, signalled;
      }
      last := last + 1;
    }
  }
}
