/** Which jobs get all the executions that MaxRetry promises them. */
module JobRetries {
  import opened JobQueue

  /** What the jobs of a run were pushed with, in order: MaxRetry and delay. */
  function Pushes(es: seq<Event>): seq<(int, int)> {
    if es == [] then [] else
      var e := es[|es| - 1];
      Pushes(es[..|es| - 1]) + (if e.Push? then [(e.maxRetry, e.delay)] else [])
  }

  lemma {:induction false} JobsArePushed(workers: nat, es: seq<Event>)
    ensures var r := Run(workers, es);
            r.Reached? ==> |r.state.jobs| == |Pushes(es)|
                           && forall j :: 0 <= j < |Pushes(es)| ==> r.state.jobs[j].maxRetry == Pushes(es)[j].0
  {
    if es != [] {
      var front, e := es[..|es| - 1], es[|es| - 1];
      JobsArePushed(workers, front);
      if Run(workers, es).Reached? {
        JobsOfStep(Run(workers, front).state, e);
        hide Step, Enabled;
      }
    }
  }

  lemma JobsOfStep(s: State, e: Event)
    requires Enabled(s, e)
    ensures |Step(s, e).jobs| == |s.jobs| + (if e.Push? then 1 else 0)
    ensures forall j :: 0 <= j < |s.jobs| ==> Step(s, e).jobs[j].maxRetry == s.jobs[j].maxRetry
    ensures e.Push? ==> Step(s, e).jobs[|s.jobs|].maxRetry == e.maxRetry
  {
  }

  /** Job j, pushed with m retries and the delay d, was given up as failed; the other jobs of
      the run are arbitrary. */
  ghost predicate GivenUp(workers: nat, es: seq<Event>, m: int, d: int, j: nat) {
    && Run(workers, es).Reached?
    && j < |Run(workers, es).state.jobs|
    && j < |Pushes(es)| && Pushes(es)[j] == (m, d)
    && j in Run(workers, es).state.gone && Run(workers, es).state.gone[j] == Failed
  }

  /** It was executed once and once more for every retry. */
  ghost predicate AllTries(workers: nat, es: seq<Event>, m: int, j: nat)
    requires Run(workers, es).Reached? && j < |Run(workers, es).state.jobs|
  {
    Run(workers, es).state.jobs[j].executions == 1 + (if m < 0 then 0 else m)
  }

  // ----- without a delay job j is not looked at too early before its first execution -----

  ghost predicate JobFresh(s: State, j: nat) {
    j < |s.jobs| && s.jobs[j].executions == 0 ==> s.jobs[j].early == 0 && s.jobs[j].availableAt <= s.now
  }

  ghost predicate WorkerFresh(s: State, w: Worker, j: nat) {
    !w.Free? && w.j == j && j < |s.jobs| ==>
      && (w.TooEarly? || (w.Returning? && w.unexecuted) ==> s.jobs[j].executions > 0)
      && (w.Running? && s.jobs[j].executions == 1 ==> s.jobs[j].early == 0)
  }

  ghost predicate WorkersFresh(s: State, j: nat) {
    forall w :: 0 <= w < |s.workers| ==> WorkerFresh(s, s.workers[w], j)
  }

  ghost predicate GoneFresh(s: State, j: nat) {
    j in s.gone && j < |s.jobs| && s.gone[j] == Failed && s.jobs[j].executions == 1 ==> s.jobs[j].early == 0
  }

  ghost predicate Fresh(s: State, j: nat) {
    JobFresh(s, j) && WorkersFresh(s, j) && GoneFresh(s, j)
  }

  lemma StepKeepsJobFresh(s: State, e: Event, j: nat)
    requires Inv(s) && Fresh(s, j) && Enabled(s, e)
    requires e.Push? && j == |s.jobs| ==> e.delay <= 0
    ensures JobFresh(Step(s, e), j)
  {
    if e.PutBack? {
      assert WorkerFresh(s, s.workers[e.w], j) && WorkerOk(s, s.workers[e.w]);
    }
  }

  lemma StepKeepsWorkersFresh(s: State, e: Event, j: nat)
    requires Inv(s) && Fresh(s, j) && Enabled(s, e)
    ensures WorkersFresh(Step(s, e), j)
  {
    hide Account, Spaced, Covered, QueueCounted, NoRepeats, GoneKnown, GoneFresh;
    var s' := Step(s, e);
    forall w | 0 <= w < |s'.workers| ensures WorkerFresh(s', s'.workers[w], j) {
      assert WorkerFresh(s, s.workers[w], j) && WorkerOk(s, s.workers[w]);
      if !s.workers[w].Free? {
        assert Holds(s, w, s.workers[w].j);
      }
      if e.PutBack? || e.Inspect? {
        assert Holds(s, e.w, s.workers[e.w].j);
      }
    }
  }

  lemma StepKeepsGoneFresh(s: State, e: Event, j: nat)
    requires Inv(s) && Fresh(s, j) && Enabled(s, e)
    ensures GoneFresh(Step(s, e), j)
  {
    if e.PutBack? || e.Inspect? || e.Finish? {
      assert Holds(s, e.w, s.workers[e.w].j);
      assert WorkerFresh(s, s.workers[e.w], j);
    }
  }

  lemma {:induction false} RunStaysFresh(workers: nat, es: seq<Event>, j: nat)
    requires j < |Pushes(es)| ==> Pushes(es)[j].1 <= 0
    ensures Run(workers, es).Reached? ==> Fresh(Run(workers, es).state, j)
  {
    if es != [] {
      var front, e := es[..|es| - 1], es[|es| - 1];
      RunStaysFresh(workers, front, j);
      if Run(workers, es).Reached? {
        RunKeepsInv(workers, front);
        JobsArePushed(workers, front);
        StepKeepsJobFresh(Run(workers, front).state, e, j);
        StepKeepsWorkersFresh(Run(workers, front).state, e, j);
        StepKeepsGoneFresh(Run(workers, front).state, e, j);
      }
    }
  }

  /** Whatever other jobs are in the queue. */
  lemma GetsAllTries(workers: nat, es: seq<Event>, m: int, d: int, j: nat)
    requires GivenUp(workers, es, m, d, j) && (m <= 0 || (m == 1 && d <= 0))
    ensures AllTries(workers, es, m, j)
  {
    JobsArePushed(workers, es);
    RetryBound(workers, es, j);
    RunKeepsInv(workers, es);
    assert GoneOk(Run(workers, es).state, j);
    if m == 1 {
      RunStaysFresh(workers, es, j);
    }
  }

  // ----- every other job can lose executions -----

  /** One job in the queue, and all workers free. */
  function Queued(workers: nat, now: int, job: Job): State {
    State(now, [0], seq(workers, _ => Free), [job], map[])
  }

  function Looked(job: Job, n: nat): Job {
    job.(retryCount := job.retryCount + n, early := job.early + n)
  }

  lemma Then(workers: nat, es: seq<Event>, s: State, e: Event) returns (es': seq<Event>, s': State)
    requires Run(workers, es) == Reached(s) && Enabled(s, e)
    ensures s' == Step(s, e) && Run(workers, es') == Reached(s')
    ensures Pushes(es') == Pushes(es) + (if e.Push? then [(e.maxRetry, e.delay)] else [])
  {
    s' := Step(s, e);
    es' := es + [e];
    assert es'[..|es|] == es;
  }

  /** A worker takes the job before its time and puts it back. */
  lemma LookOnce(workers: nat, es: seq<Event>, now: int, job: Job) returns (es': seq<Event>)
    requires 0 < workers && Run(workers, es) == Reached(Queued(workers, now, job)) && now < job.availableAt
    ensures Run(workers, es') == Reached(Queued(workers, now, Looked(job, 1))) && Pushes(es') == Pushes(es)
  {
    hide Run, Pushes;
    var s;
    es', s := Then(workers, es, Queued(workers, now, job), Pop(0));
    es', s := Then(workers, es', s, Inspect(0, true));
    es', s := Then(workers, es', s, MeasureDelay(0));
    es', s := Then(workers, es', s, PutBack(0));
    assert s == Queued(workers, now, Looked(job, 1));
  }

  lemma {:induction false} LookOften(workers: nat, es: seq<Event>, now: int, job: Job, n: nat)
    returns (es': seq<Event>)
    requires 0 < workers && Run(workers, es) == Reached(Queued(workers, now, job)) && now < job.availableAt
    ensures Run(workers, es') == Reached(Queued(workers, now, Looked(job, n))) && Pushes(es') == Pushes(es)
  {
    if n == 0 {
      es' := es;
      assert Looked(job, 0) == job;
    } else {
      es' := LookOften(workers, es, now, job, n - 1);
      es' := LookOnce(workers, es', now, Looked(job, n - 1));
      assert Looked(Looked(job, n - 1), 1) == Looked(job, n);
    }
  }

  /** The job is executed now and fails; it has no retry left. */
  lemma FailForGood(workers: nat, es: seq<Event>, now: int, job: Job, at: int, m: int, d: int) returns (es': seq<Event>)
    requires 0 < workers && Run(workers, es) == Reached(Queued(workers, now, job)) && Pushes(es) == [(m, d)]
    requires now <= at && job.availableAt <= at && job.maxRetry <= job.retryCount
    ensures GivenUp(workers, es', m, d, 0)
    ensures Run(workers, es').state.jobs[0].executions == job.executions + 1
  {
    hide Run, Pushes;
    var s;
    es', s := Then(workers, es, Queued(workers, now, job), Tick(at - now));
    es', s := Then(workers, es', s, Pop(0));
    es', s := Then(workers, es', s, Inspect(0, true));
    es', s := Then(workers, es', s, Finish(0, Failure));
  }

  lemma PushOne(workers: nat, m: int, d: int) returns (es: seq<Event>)
    ensures Run(workers, es) == Reached(Queued(workers, 0, Job(m, 0, d, 0, 0, d, 0))) && Pushes(es) == [(m, d)]
  {
    var s;
    es, s := Then(workers, [], Init(workers), Push(m, d));
  }

  /** A delayed job uses up all its retries before it is executed for the first time. */
  lemma DelayCostsTries(workers: nat, m: int, d: int) returns (es: seq<Event>)
    requires 0 < workers && 0 < m && 0 < d
    ensures GivenUp(workers, es, m, d, 0) && !AllTries(workers, es, m, 0)
  {
    var job := Job(m, 0, d, 0, 0, d, 0);
    es := PushOne(workers, m, d);
    es := LookOften(workers, es, 0, job, m);
    es := FailForGood(workers, es, 0, Looked(job, m), d, m, d);
  }

  lemma FailOnce(workers: nat, m: int, d: int) returns (es: seq<Event>)
    requires 0 < workers && 1 < m && d <= 0
    ensures Run(workers, es) == Reached(Queued(workers, 0, Job(m, 1, BACKOFF, 1, 0, d, 0))) && Pushes(es) == [(m, d)]
  {
    hide Run, Pushes;
    es := PushOne(workers, m, d);
    var s;
    es, s := Then(workers, es, Queued(workers, 0, Job(m, 0, d, 0, 0, d, 0)), Pop(0));
    es, s := Then(workers, es, s, Inspect(0, true));
    es, s := Then(workers, es, s, Finish(0, Failure));
    es, s := Then(workers, es, s, PutBack(0));
    assert s == Queued(workers, 0, Job(m, 1, BACKOFF, 1, 0, d, 0));
  }

  /** A job without delay uses up its retries during its first backoff. */
  lemma BackoffCostsTries(workers: nat, m: int, d: int) returns (es: seq<Event>)
    requires 0 < workers && 1 < m && d <= 0
    ensures GivenUp(workers, es, m, d, 0) && !AllTries(workers, es, m, 0)
  {
    var job := Job(m, 1, BACKOFF, 1, 0, d, 0);
    es := FailOnce(workers, m, d);
    es := LookOften(workers, es, 0, job, m - 1);
    es := FailForGood(workers, es, 0, Looked(job, m - 1), BACKOFF, m, d);
  }

  /** A job pushed with m and d that failed was executed MaxRetry + 1 times, in all runs with any
      number of workers and whatever other jobs, exactly when it has no retries, or a single one
      and no delay: only then no worker can take it too early while it has retries to lose. */
  lemma AllTriesIff(workers: nat, m: int, d: int)
    requires 0 < workers
    ensures (forall es, j: nat :: GivenUp(workers, es, m, d, j) ==> AllTries(workers, es, m, j)) <==>
            m <= 0 || (m == 1 && d <= 0)
  {
    if m <= 0 || (m == 1 && d <= 0) {
      forall es, j: nat | GivenUp(workers, es, m, d, j) ensures AllTries(workers, es, m, j) {
        GetsAllTries(workers, es, m, d, j);
      }
    } else if d > 0 {
      var es := DelayCostsTries(workers, m, d);
    } else {
      var es := BackoffCostsTries(workers, m, d);
    }
  }
}
