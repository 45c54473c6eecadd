/** The queue's objects: jobs changed in place, the in-memory driver, and one round of the
    worker loop.  Clock readings are parameters. */
module QueueProgram {
  import opened JobQueue

  class JobWrapper {
    const maxRetry: int
    /** A handler is registered for the job, or the job can handle itself. */
    const handled: bool
    var retryCount: int
    var availableAt: int

    constructor (maxRetry: int, delay: int, handled: bool, now: int)
      ensures this.maxRetry == maxRetry && this.handled == handled
      ensures retryCount == 0 && availableAt == now + delay
    {
      this.maxRetry, this.handled, retryCount, availableAt := maxRetry, handled, 0, now + delay;
    }
  }

  class SyncDriver {
    var jobs: seq<JobWrapper>

    constructor ()
      ensures jobs == []
    {
      jobs := [];
    }

    method Push(job: JobWrapper)
      modifies this
      ensures jobs == old(jobs) + [job]
    {
      jobs := jobs + [job];
    }

    method Pop() returns (job: JobWrapper?)
      modifies this
      ensures job == null <==> old(jobs) == []
      ensures job == null ==> jobs == []
      ensures job != null ==> job == old(jobs)[0] && jobs == old(jobs)[1..]
    {
      if |jobs| == 0 {
        return null;
      }
      job := jobs[0];
      jobs := jobs[1..];
    }

    method Release(job: JobWrapper, delay: int, now: int)
      modifies this, job
      ensures jobs == old(jobs) + [job]
      ensures job.availableAt == now + delay && job.retryCount == old(job.retryCount)
    {
      job.availableAt := now + delay;
      jobs := jobs + [job];
    }

    method Peek() returns (job: JobWrapper?)
      ensures jobs == [] <==> job == null
      ensures jobs != [] ==> job == jobs[0]
    {
      job := if |jobs| == 0 then null else jobs[0];
    }

    method Size() returns (n: nat)
      ensures n == |jobs|
    {
      n := |jobs|;
    }

    method Clear()
      modifies this
      ensures jobs == []
    {
      jobs := [];
    }
  }

  /** The clock readings of one round: the check of AvailableAt, the measuring of the
      remaining delay, and the two readings inside the releases. */
  datatype Clock = Clock(check: int, measure: int, release: int, driverRelease: int) {
    predicate Forward() {
      check <= measure <= release <= driverRelease
    }
  }

  datatype Taken = Nothing | GivenBackUnexecuted | Dropped | Deleted | Retried

  /** The fields of a job that change. */
  datatype Fields = Fields(retryCount: int, availableAt: int)

  datatype RoundResult = RoundResult(taken: Taken, fields: Fields) {
    predicate InQueueAgain() {
      taken.GivenBackUnexecuted? || taken.Retried?
    }
  }

  /** What one round does to the job it takes from the queue. */
  function AfterRound(maxRetry: int, handled: bool, f: Fields, t: Clock, outcome: Outcome): RoundResult {
    if t.check < f.availableAt then
      RoundResult(GivenBackUnexecuted, Fields(f.retryCount + 1, t.driverRelease + (f.availableAt - t.measure)))
    else if !handled then RoundResult(Dropped, f)
    else if outcome.Failure? && f.retryCount < maxRetry then
      RoundResult(Retried, Fields(f.retryCount + 1, t.driverRelease + (f.retryCount + 1) * BACKOFF))
    else RoundResult(Deleted, f)
  }

  class Queue {
    const driver: SyncDriver

    constructor (driver: SyncDriver)
      ensures this.driver == driver
    {
      this.driver := driver;
    }

    method Release(job: JobWrapper, delay: int, t: Clock)
      modifies driver, job
      ensures driver.jobs == old(driver.jobs) + [job]
      ensures job.retryCount == old(job.retryCount) + 1
      ensures job.availableAt == t.driverRelease + delay
    {
      job.retryCount := job.retryCount + 1;
      job.availableAt := t.release + delay;
      driver.Release(job, delay, t.driverRelease);
    }

    method HandleFailure(job: JobWrapper, t: Clock) returns (r: Taken)
      modifies driver, job
      ensures r == if old(job.retryCount) < job.maxRetry then Retried else Deleted
      ensures r == Retried ==>
                && driver.jobs == old(driver.jobs) + [job]
                && job.retryCount == old(job.retryCount) + 1
                && job.availableAt == t.driverRelease + job.retryCount * 10_000
      ensures r == Deleted ==> unchanged(driver) && unchanged(job)
    {
      if job.retryCount < job.maxRetry {
        var backoff := (job.retryCount + 1) * BACKOFF;
        Release(job, backoff, t);
        return Retried;
      }
      return Deleted;
    }

    /** One round of the worker loop with the job at the head of the queue; the other jobs
        keep their order and their fields. */
    method Round(t: Clock, outcome: Outcome) returns (r: Taken, ghost executed: bool)
      modifies driver, driver.jobs
      ensures r == Nothing <==> old(driver.jobs) == []
      ensures r == Nothing ==> driver.jobs == [] && !executed
      ensures r != Nothing ==>
                var job := old(driver.jobs)[0];
                var after := AfterRound(job.maxRetry, job.handled,
                                        Fields(old(job.retryCount), old(job.availableAt)), t, outcome);
                && (forall x :: x in old(driver.jobs) && x != job ==> unchanged(x))
                && r == after.taken && Fields(job.retryCount, job.availableAt) == after.fields
                && driver.jobs == old(driver.jobs)[1..] + (if after.InQueueAgain() then [job] else [])
                && executed == (r == Deleted || r == Retried)
    {
      executed := false;
      var job := driver.Pop();
      if job == null {
        return Nothing, false;
      }
      assert driver.jobs == old(driver.jobs)[1..];
      if t.check < job.availableAt {
        Release(job, job.availableAt - t.measure, t);
        return GivenBackUnexecuted, false;
      }
      if !job.handled {
        return Dropped, false;
      }
      executed := true;
      if outcome.Failure? {
        r := HandleFailure(job, t);
      } else {
        r := Deleted;
      }
    }

    method Size() returns (n: nat)
      ensures n == |driver.jobs|
    {
      n := driver.Size();
    }

    /** The job that the next round will take, without taking it. */
    method Peek() returns (job: JobWrapper?)
      ensures driver.jobs == [] <==> job == null
      ensures driver.jobs != [] ==> job == driver.jobs[0]
    {
      job := driver.Peek();
    }

    method Clear()
      modifies driver
      ensures driver.jobs == []
    {
      driver.Clear();
    }
  }

  function FateOf(outcome: Outcome): Fate {
    if outcome.Success? then Succeeded else Failed
  }

  /** A round is a stretch of a run of the transition system, so everything proved about runs
      holds of programs that work in rounds: the worker is free again, the job's fields and
      the queue are what Round makes them, and a job that is not queued again is gone. */
  lemma RoundIsARun(workers: nat, es: seq<Event>, s: State, w: nat, t: Clock, outcome: Outcome, handled: bool)
    returns (es': seq<Event>, s': State)
    requires Run(workers, es) == Reached(s) && Enabled(s, Pop(w)) && s.now <= t.check && t.Forward()
    ensures Run(workers, es') == Reached(s')
    ensures var j := s.queue[0];
            var after := AfterRound(s.jobs[j].maxRetry, handled,
                                    Fields(s.jobs[j].retryCount, s.jobs[j].availableAt), t, outcome);
            && |s'.jobs| == |s.jobs| && (forall i :: 0 <= i < |s.jobs| && i != j ==> s'.jobs[i] == s.jobs[i])
            && Fields(s'.jobs[j].retryCount, s'.jobs[j].availableAt) == after.fields
            && s'.queue == s.queue[1..] + (if after.InQueueAgain() then [j] else [])
            && s'.workers == s.workers
            && (!after.InQueueAgain() ==>
                  j in s'.gone && s'.gone[j] == if !handled then Unhandled else FateOf(outcome))
            && s'.jobs[j].executions ==
               s.jobs[j].executions + (if after.taken.Deleted? || after.taken.Retried? then 1 else 0)
  {
    hide Run;
    var j := s.queue[0];
    es', s' := TakeUp(workers, es, s, w, t.check, handled);
    if t.check < s.jobs[j].availableAt {
      es', s' := More(workers, es', s', Tick(t.measure - t.check));
      es', s' := More(workers, es', s', MeasureDelay(w));
      es', s' := More(workers, es', s', Tick(t.driverRelease - t.measure));
      es', s' := More(workers, es', s', PutBack(w));
    } else if handled {
      es', s' := More(workers, es', s', Finish(w, outcome));
      if outcome.Failure? && s.jobs[j].retryCount < s.jobs[j].maxRetry {
        es', s' := More(workers, es', s', Tick(t.driverRelease - t.check));
        es', s' := More(workers, es', s', PutBack(w));
      }
    }
  }

  /** From the head of the queue to the decision what to do with the job. */
  lemma TakeUp(workers: nat, es: seq<Event>, s: State, w: nat, at: int, handled: bool)
    returns (es': seq<Event>, s': State)
    requires Run(workers, es) == Reached(s) && Enabled(s, Pop(w)) && s.now <= at
    ensures Run(workers, es') == Reached(s')
    ensures var j := s.queue[0];
            s' == if at < s.jobs[j].availableAt then
                    State(at, s.queue[1..], s.workers[w := TooEarly(j)], s.jobs, s.gone)
                  else if !handled then
                    State(at, s.queue[1..], s.workers[w := Free], s.jobs, s.gone[j := Unhandled])
                  else
                    State(at, s.queue[1..], s.workers[w := Running(j)],
                          s.jobs[j := s.jobs[j].(executions := s.jobs[j].executions + 1, lastStart := at)], s.gone)
  {
    hide Run;
    es', s' := More(workers, es, s, Tick(at - s.now));
    es', s' := More(workers, es', s', Pop(w));
    var j := s.queue[0];
    assert s'.workers[w] == Popped(j);
    es', s' := More(workers, es', s', Inspect(w, handled));
    assert s.workers[w := Popped(j)][w := TooEarly(j)] == s.workers[w := TooEarly(j)];
    assert s.workers[w := Popped(j)][w := Running(j)] == s.workers[w := Running(j)];
    assert s.workers[w := Popped(j)][w := Free] == s.workers[w := Free];
  }
}
