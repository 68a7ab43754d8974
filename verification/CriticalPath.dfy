/** Critical-path accounting of a workflow run (scripts/ci_wall_time.py).  Instants and durations are real
    numbers of seconds. */
module CriticalPath {
  import opened Common

  datatype Job = Job(name: string, conclusion: string, created: real, started: real, completed: real) {
    function RunnerWait(): real {
      if started > created then started - created else 0.0
    }

    function Ran(): real {
      if completed > started then completed - started else 0.0
    }

    /** How long before its own start the job completed; the filter below lets such records through. */
    function Overlap(): real {
      if started > completed then started - completed else 0.0
    }
  }

  datatype JobRecord = JobRecord(
    name: string, conclusion: string, created: Option<real>, started: Option<real>, completed: Option<real>)

  /** `job_from_record`: exactly the finished, unskipped records whose job was created first become jobs. */
  function JobFromRecord(record: JobRecord): (job: Option<Job>)
    ensures job.Some? <==>
              && record.conclusion != "skipped"
              && record.created.Some? && record.started.Some? && record.completed.Some?
              && record.created.value <= record.started.value && record.created.value <= record.completed.value
    ensures job.Some? ==>
              && Measured(job.value) && job.value.name == record.name && job.value.conclusion == record.conclusion
              && record.created == Some(job.value.created) && record.started == Some(job.value.started)
              && record.completed == Some(job.value.completed)
  {
    if record.conclusion == "skipped" then None
    else if record.created.None? || record.started.None? || record.completed.None? then None
    else if record.started.value < record.created.value || record.completed.value < record.created.value then None
    else Some(Job(record.name, record.conclusion, record.created.value, record.started.value, record.completed.value))
  }

  predicate Measured(job: Job) {
    job.created <= job.started && job.created <= job.completed
  }

  /** `max(jobs, key=completed_at)`: the first of the latest. */
  method Latest(jobs: seq<Job>) returns (latest: Job)
    requires jobs != []
    ensures IsLatest(jobs, latest)
  {
    latest := jobs[0];
    ghost var at := 0;
    for i := 1 to |jobs|
      invariant 0 <= at < i && jobs[at] == latest && FirstLatest(jobs[..i], at)
    {
      if jobs[i].completed > latest.completed {
        latest := jobs[i];
        at := i;
      }
    }
    assert jobs[..|jobs|] == jobs;
    assert FirstLatest(jobs, at);
  }

  /** Job `at` completed no earlier than any, and later than all before it. */
  ghost predicate FirstLatest(jobs: seq<Job>, at: nat) {
    && at < |jobs|
    && (forall k :: 0 <= k < |jobs| ==> jobs[k].completed <= jobs[at].completed)
    && (forall k :: 0 <= k < at ==> jobs[k].completed < jobs[at].completed)
  }

  ghost predicate IsLatest(jobs: seq<Job>, latest: Job) {
    exists at: nat :: FirstLatest(jobs, at) && jobs[at] == latest
  }

  /** `job` completed before `current` did and within `epsilon` of the moment `current` became ready. */
  predicate Released(job: Job, current: Job, epsilon: real) {
    job.completed < current.completed && -epsilon <= job.completed - current.created <= epsilon
  }

  function Abs(x: real): real {
    if x < 0.0 then -x else x
  }

  function Predecessors(jobs: seq<Job>, current: Job, epsilon: real): (before: seq<Job>)
    ensures forall job :: job in before <==> job in jobs && Released(job, current, epsilon)
    ensures forall job :: job in before <==>
              job in jobs && job.completed < current.completed && Abs(job.completed - current.created) <= epsilon
  {
    if jobs == [] then []
    else
      var rest := Predecessors(jobs[1..], current, epsilon);
      assert forall job :: job in jobs <==> job == jobs[0] || job in jobs[1..];
      if Released(jobs[0], current, epsilon) then [jobs[0]] + rest else rest
  }

  /** Each job was released by the one before it, the latest that could have released it. */
  ghost predicate Chain(jobs: seq<Job>, epsilon: real, path: seq<Job>) {
    && path != [] && (forall i :: 0 <= i < |path| ==> path[i] in jobs)
    && forall i :: 0 < i < |path| ==> IsLatest(Predecessors(jobs, path[i], epsilon), path[i-1])
  }

  /** The run's critical path: a chain from a job nothing released to a last job to finish. */
  ghost predicate IsCriticalPath(jobs: seq<Job>, epsilon: real, path: seq<Job>) {
    && Chain(jobs, epsilon, path)
    && IsLatest(jobs, path[|path|-1])
    && Predecessors(jobs, path[0], epsilon) == []
  }

  /** A report whose numbers are those of the run's critical path. */
  ghost predicate IsReport(jobs: seq<Job>, epsilon: real, r: Report) {
    && IsCriticalPath(jobs, epsilon, r.path)
    && r.elapsed == Span(r.path)
    && r.queue == (if r.elapsed < SumWait(r.path) then r.elapsed else SumWait(r.path))
    && r.execution == r.elapsed - r.queue
  }

  function SumWait(path: seq<Job>): real {
    if path == [] then 0.0 else path[0].RunnerWait() + SumWait(path[1..])
  }

  function SumRan(path: seq<Job>): real {
    if path == [] then 0.0 else path[0].Ran() + SumRan(path[1..])
  }

  function SumOverlap(path: seq<Job>): real {
    if path == [] then 0.0 else path[0].Overlap() + SumOverlap(path[1..])
  }

  function Span(path: seq<Job>): real
    requires path != []
  {
    path[|path|-1].completed - path[0].created
  }

  datatype Report = Report(path: seq<Job>, elapsed: real, queue: real, execution: real)

  ghost function Earlier(jobs: seq<Job>, current: Job): set<Job> {
    set job | job in jobs && job.completed < current.completed
  }

  /** `analyze`.  The walk back ends because completions strictly decrease along it. */
  method Analyze(jobs: seq<Job>, epsilon: real) returns (report: Option<Report>)
    ensures report.None? <==> jobs == []
    ensures report.Some? ==> IsReport(jobs, epsilon, report.value)
  {
    if jobs == [] {
      return None;
    }
    var current := Latest(jobs);
    var path := [current];
    while true
      invariant Chain(jobs, epsilon, path) && path[0] == current && IsLatest(jobs, path[|path|-1])
      decreases |Earlier(jobs, current)|
    {
      var before := Predecessors(jobs, current, epsilon);
      if before == [] {
        break;
      }
      var previous := Latest(before);
      FewerEarlier(jobs, previous, current);
      ChainGrows(jobs, epsilon, path, previous);
      current := previous;
      path := [current] + path;
    }
    var elapsed := path[|path|-1].completed - path[0].created;
    var waited := SumWait(path);
    var queue := if elapsed < waited then elapsed else waited;
    return Some(Report(path, elapsed, queue, elapsed - queue));
  }

  lemma FewerEarlier(jobs: seq<Job>, previous: Job, current: Job)
    requires previous in jobs && previous.completed < current.completed
    ensures |Earlier(jobs, previous)| < |Earlier(jobs, current)|
  {
    var fewer, more := Earlier(jobs, previous), Earlier(jobs, current);
    assert previous in more && previous !in fewer;
    SubsetIsSmaller(fewer, more);
  }

  lemma SubsetIsSmaller(a: set<Job>, b: set<Job>)
    requires a < b
    ensures |a| < |b|
  {
    assert |b| == |a| + |b - a| by { assert b == a + (b - a); }
    var x :| x in b && x !in a;
    assert x in b - a;
  }

  lemma ChainGrows(jobs: seq<Job>, epsilon: real, path: seq<Job>, previous: Job)
    requires Chain(jobs, epsilon, path) && IsLatest(Predecessors(jobs, path[0], epsilon), previous)
    ensures Chain(jobs, epsilon, [previous] + path)
  {
    var longer := [previous] + path;
    assert previous in Predecessors(jobs, path[0], epsilon);
    forall i | 0 < i < |longer|
      ensures IsLatest(Predecessors(jobs, longer[i], epsilon), longer[i-1])
    {
      assert longer[i] == path[i-1];
      if i > 1 {
        assert longer[i-1] == path[i-2];
      }
    }
  }

  lemma LatestIsUnique(jobs: seq<Job>, a: Job, b: Job)
    requires IsLatest(jobs, a) && IsLatest(jobs, b)
    ensures a == b
  {
    var i: nat :| FirstLatest(jobs, i) && jobs[i] == a;
    var j: nat :| FirstLatest(jobs, j) && jobs[j] == b;
    assert jobs[i].completed == jobs[j].completed;
  }

  /** A path from a job nothing released: the last job has a predecessor exactly if it is not the first. */
  ghost predicate Walk(jobs: seq<Job>, epsilon: real, path: seq<Job>) {
    Chain(jobs, epsilon, path) && Predecessors(jobs, path[0], epsilon) == []
  }

  lemma WalkStep(jobs: seq<Job>, epsilon: real, path: seq<Job>)
    requires Walk(jobs, epsilon, path)
    ensures var n := |path| - 1;
            if n == 0 then Predecessors(jobs, path[n], epsilon) == []
            else IsLatest(Predecessors(jobs, path[n], epsilon), path[n-1]) && Walk(jobs, epsilon, path[..n])
  {
    var n := |path| - 1;
    if n > 0 {
      assert IsLatest(Predecessors(jobs, path[n], epsilon), path[n-1]);
      var shorter := path[..n];
      forall i | 0 < i < n
        ensures IsLatest(Predecessors(jobs, shorter[i], epsilon), shorter[i-1])
      {
        assert IsLatest(Predecessors(jobs, path[i], epsilon), path[i-1]);
      }
    }
  }

  /** Walks to the same job come from the same job, if from any. */
  lemma SameStepBack(jobs: seq<Job>, epsilon: real, a: seq<Job>, b: seq<Job>)
    requires Walk(jobs, epsilon, a) && Walk(jobs, epsilon, b) && a[|a|-1] == b[|b|-1] && |a| > 1
    ensures |b| > 1 && a[|a|-2] == b[|b|-2]
  {
    WalkStep(jobs, epsilon, a);
    WalkStep(jobs, epsilon, b);
    if |b| > 1 {
      LatestIsUnique(Predecessors(jobs, a[|a|-1], epsilon), a[|a|-2], b[|b|-2]);
    }
  }

  lemma {:induction false} SameWalkBack(jobs: seq<Job>, epsilon: real, a: seq<Job>, b: seq<Job>)
    requires Walk(jobs, epsilon, a) && Walk(jobs, epsilon, b) && a[|a|-1] == b[|b|-1]
    ensures a == b
    decreases |a|
  {
    var m, n := |a| - 1, |b| - 1;
    if m > 0 {
      SameStepBack(jobs, epsilon, a, b);
      WalkStep(jobs, epsilon, a);
      WalkStep(jobs, epsilon, b);
      SameWalkBack(jobs, epsilon, a[..m], b[..n]);
      assert a == a[..m] + [a[m]] && b == b[..n] + [b[n]];
    } else if n > 0 {
      SameStepBack(jobs, epsilon, b, a);
    }
  }

  lemma CriticalPathIsUnique(jobs: seq<Job>, epsilon: real, a: seq<Job>, b: seq<Job>)
    requires IsCriticalPath(jobs, epsilon, a) && IsCriticalPath(jobs, epsilon, b)
    ensures a == b
  {
    LatestIsUnique(jobs, a[|a|-1], b[|b|-1]);
    SameWalkBack(jobs, epsilon, a, b);
  }

  /** A run has one critical path, so what makes a report right leaves no choice in it. */
  lemma ReportIsUnique(jobs: seq<Job>, epsilon: real, a: Report, b: Report)
    requires IsReport(jobs, epsilon, a) && IsReport(jobs, epsilon, b)
    ensures a == b
  {
    CriticalPathIsUnique(jobs, epsilon, a.path, b.path);
  }

  // ---- the accounting ----

  lemma LinkIsReleased(jobs: seq<Job>, epsilon: real, path: seq<Job>, i: nat)
    requires Chain(jobs, epsilon, path) && 0 < i < |path|
    ensures Released(path[i-1], path[i], epsilon)
  {
    assert IsLatest(Predecessors(jobs, path[i], epsilon), path[i-1]);
    assert path[i-1] in Predecessors(jobs, path[i], epsilon);
  }

  lemma {:induction false} CompletionsIncrease(jobs: seq<Job>, epsilon: real, path: seq<Job>, i: nat, j: nat)
    requires Chain(jobs, epsilon, path) && i < j < |path|
    ensures path[i].completed < path[j].completed
    decreases j
  {
    LinkIsReleased(jobs, epsilon, path, j);
    if i < j - 1 {
      CompletionsIncrease(jobs, epsilon, path, i, j - 1);
    }
  }

  ghost predicate Linked(path: seq<Job>, epsilon: real) {
    forall i :: 0 < i < |path| ==> -epsilon <= path[i-1].completed - path[i].created <= epsilon
  }

  /** One `epsilon` for each link of a path of `length` jobs. */
  function Slack(epsilon: real, length: nat): real {
    if length <= 1 then 0.0 else Slack(epsilon, length - 1) + epsilon
  }

  lemma {:induction false} SlackIsProduct(epsilon: real, length: nat)
    requires length >= 1
    ensures Slack(epsilon, length) == epsilon * (length - 1) as real
  {
    if length == 1 {
      assert (length - 1) as real == 0.0;
    } else {
      SlackIsProduct(epsilon, length - 1);
      Distribute(epsilon, (length - 2) as real);
      assert (length - 1) as real == (length - 2) as real + 1.0;
    }
  }

  lemma Distribute(epsilon: real, links: real)
    ensures epsilon * (links + 1.0) == epsilon * links + epsilon
  {
  }

  lemma {:induction false} SlackIsNonNegative(epsilon: real, length: nat)
    requires length > 1 ==> epsilon >= 0.0
    ensures Slack(epsilon, length) >= 0.0
  {
    if length > 1 {
      SlackIsNonNegative(epsilon, length - 1);
    }
  }

  lemma JobIsAccountedFor(job: Job)
    requires Measured(job)
    ensures job.completed - job.created == job.RunnerWait() + job.Ran() - job.Overlap()
  {
  }

  /** How much later the jobs of a path completed, in all, than the jobs they released became ready. */
  function Skew(path: seq<Job>): real {
    if |path| <= 1 then 0.0 else path[0].completed - path[1].created + Skew(path[1..])
  }

  /** The span of a path of measured jobs is its waits and running times, less overlaps and skew. */
  lemma {:induction false} SpanIsAccountedFor(path: seq<Job>)
    requires path != [] && forall i :: 0 <= i < |path| ==> Measured(path[i])
    ensures Span(path) == SumWait(path) + SumRan(path) - SumOverlap(path) - Skew(path)
  {
    JobIsAccountedFor(path[0]);
    if |path| == 1 {
      assert path[1..] == [];
    } else {
      SpanIsAccountedFor(path[1..]);
      assert Span(path)
          == (path[0].completed - path[0].created) + (path[1].created - path[0].completed) + Span(path[1..]);
    }
  }

  lemma {:induction false} SkewIsWithinSlack(path: seq<Job>, epsilon: real)
    requires Linked(path, epsilon)
    ensures -Slack(epsilon, |path|) <= Skew(path) <= Slack(epsilon, |path|)
  {
    if |path| > 1 {
      LinkedRest(path, epsilon);
      SkewIsWithinSlack(path[1..], epsilon);
    }
  }

  lemma LinkedRest(path: seq<Job>, epsilon: real)
    requires |path| > 1 && Linked(path, epsilon)
    ensures Linked(path[1..], epsilon) && -epsilon <= path[0].completed - path[1].created <= epsilon
  {
    var rest := path[1..];
    forall i | 0 < i < |rest|
      ensures -epsilon <= rest[i-1].completed - rest[i].created <= epsilon
    {
      assert rest[i-1] == path[i] && rest[i] == path[i+1];
      assert -epsilon <= path[i+1-1].completed - path[i+1].created <= epsilon;
    }
    assert -epsilon <= path[1-1].completed - path[1].created <= epsilon;
  }

  lemma {:induction false} SumsAreNonNegative(path: seq<Job>)
    ensures SumWait(path) >= 0.0 && SumRan(path) >= 0.0 && SumOverlap(path) >= 0.0
    ensures (forall i :: 0 <= i < |path| ==> path[i].started <= path[i].completed) ==> SumOverlap(path) == 0.0
  {
    if path != [] {
      SumsAreNonNegative(path[1..]);
    }
  }

  /** What a report of measured jobs says: queue and execution are non-negative and make up the elapsed
      time; execution is exactly the running time on the path less overlaps and skew, if that is positive;
      so it never exceeds the running time by more than `epsilon` a link, and falls short of it by no more
      exactly if the running time is that small itself or overlaps and skew are.  In particular it does
      whenever no record completed before it started. */
  lemma ReportAccountsForTheRun(jobs: seq<Job>, epsilon: real, r: Report)
    requires forall job :: job in jobs ==> Measured(job)
    requires IsReport(jobs, epsilon, r)
    ensures r.queue >= 0.0 && r.execution >= 0.0 && r.queue + r.execution == r.elapsed
    ensures forall i, j :: 0 <= i < j < |r.path| ==> r.path[i].completed < r.path[j].completed
    ensures var worked := SumRan(r.path) - SumOverlap(r.path) - Skew(r.path);
            r.execution == if worked > 0.0 then worked else 0.0
    ensures var slack := Slack(epsilon, |r.path|);
            && r.execution <= SumRan(r.path) + slack
            && (SumRan(r.path) - slack <= r.execution <==>
                  SumRan(r.path) <= slack || SumOverlap(r.path) + Skew(r.path) <= slack)
            && ((forall job :: job in jobs ==> job.started <= job.completed) ==> SumRan(r.path) - slack <= r.execution)
  {
    var path := r.path;
    forall i, j | 0 <= i < j < |path|
      ensures path[i].completed < path[j].completed
    {
      CompletionsIncrease(jobs, epsilon, path, i, j);
    }
    SumsAreNonNegative(path);
    assert forall i :: 0 <= i < |path| ==> path[i] in jobs;
    assert Span(path) >= 0.0 by {
      assert Measured(path[0]) && path[0].completed <= path[|path|-1].completed;
    }
    PathSlack(jobs, epsilon, path);
    SpanIsAccountedFor(path);
    SkewIsWithinSlack(path, epsilon);
  }

  const EARLY := Job("early", "success", 0.0, 0.0, 10.0)
  const LATE := Job("late", "success", 10.0, 20.0, 11.0)   // picked up after it completed

  lemma EarlyReleasesLate()
    ensures Predecessors([EARLY, LATE], LATE, 2.0) == [EARLY] && Predecessors([EARLY, LATE], EARLY, 2.0) == []
  {
    assert [EARLY, LATE][1..] == [LATE] && [LATE][1..] == [];
    assert !Released(LATE, LATE, 2.0) && !Released(LATE, EARLY, 2.0);
    assert Predecessors([], LATE, 2.0) == [] && Predecessors([], EARLY, 2.0) == [];
    assert Predecessors([LATE], LATE, 2.0) == [] && Predecessors([LATE], EARLY, 2.0) == [];
    assert Released(EARLY, LATE, 2.0) && !Released(EARLY, EARLY, 2.0);
  }

  lemma LateAlone()
    ensures SumWait([LATE]) == 10.0 && SumRan([LATE]) == 0.0
  {
    var late := [LATE];
    assert late[1..] == [];
    assert SumWait(late) == LATE.RunnerWait() + SumWait(late[1..]);
    assert SumRan(late) == LATE.Ran() + SumRan(late[1..]);
  }

  /** A record that completed before it started breaks the bound: ten seconds ran and one is reported,
      with two seconds of slack. */
  lemma OverlapBreaksTheBound()
    ensures var jobs, r := [EARLY, LATE], Report([EARLY, LATE], 11.0, 10.0, 1.0);
            && (forall job :: job in jobs ==> Measured(job)) && IsReport(jobs, 2.0, r)
            && r.execution < SumRan(r.path) - Slack(2.0, |r.path|)
  {
    var jobs := [EARLY, LATE];
    assert jobs[1..] == [LATE] && [LATE][1..] == [];
    LateAlone();
    assert Slack(2.0, 2) == 2.0 by { assert Slack(2.0, 1) == 0.0; }
    EarlyReleasesLate();
    assert FirstLatest([EARLY], 0) && FirstLatest(jobs, 1);
    assert Chain(jobs, 2.0, jobs);
  }

  lemma PathSlack(jobs: seq<Job>, epsilon: real, path: seq<Job>)
    requires Chain(jobs, epsilon, path)
    ensures Linked(path, epsilon) && Slack(epsilon, |path|) >= 0.0
  {
    forall i | 0 < i < |path|
      ensures Released(path[i-1], path[i], epsilon)
    {
      LinkIsReleased(jobs, epsilon, path, i);
    }
    if |path| > 1 {
      assert Released(path[1-1], path[1], epsilon);
    }
    SlackIsNonNegative(epsilon, |path|);
  }
}
