/** The job queue over the in-memory driver: any number of workers, as a transition system.
    Times are milliseconds. */
module JobQueue {

  /** One job.  The last four fields are the history the theorems speak about. */
  datatype Job = Job(maxRetry: int, retryCount: int, availableAt: int,
                     executions: nat, early: nat, firstAvailable: int, lastStart: int)

  datatype Fate = Succeeded | Failed | Unhandled | Cleared

  /** What a worker does with the job it took from the queue. */
  datatype Worker =
    | Free
    | Popped(j: nat)
    | TooEarly(j: nat)
    | Returning(j: nat, delay: int, unexecuted: bool)
    | Running(j: nat)

  datatype State = State(now: int, queue: seq<nat>, workers: seq<Worker>, jobs: seq<Job>, gone: map<nat, Fate>)

  datatype Outcome = Success | Failure

  datatype Event =
    | Tick(elapsed: nat)
    | Push(maxRetry: int, delay: int)
    | Pop(w: nat)
    | Inspect(w: nat, handled: bool)
    | MeasureDelay(w: nat)
    | PutBack(w: nat)
    | Finish(w: nat, outcome: Outcome)
    | Clear

  const BACKOFF := 10_000

  function Init(workers: nat): State {
    State(0, [], seq(workers, _ => Free), [], map[])
  }

  predicate Enabled(s: State, e: Event) {
    match e
    case Tick(_) => true
    case Push(_, _) => true
    case Pop(w) => w < |s.workers| && s.workers[w].Free? && s.queue != [] && s.queue[0] < |s.jobs|
    case Inspect(w, _) => w < |s.workers| && s.workers[w].Popped? && s.workers[w].j < |s.jobs|
    case MeasureDelay(w) => w < |s.workers| && s.workers[w].TooEarly? && s.workers[w].j < |s.jobs|
    case PutBack(w) => w < |s.workers| && s.workers[w].Returning? && s.workers[w].j < |s.jobs|
    case Finish(w, _) => w < |s.workers| && s.workers[w].Running? && s.workers[w].j < |s.jobs|
    case Clear => true
  }

  function Step(s: State, e: Event): State
    requires Enabled(s, e)
  {
    match e
    case Tick(d) => s.(now := s.now + d)
    case Push(maxRetry, delay) =>
      s.(queue := s.queue + [|s.jobs|],
         jobs := s.jobs + [Job(maxRetry, 0, s.now + delay, 0, 0, s.now + delay, 0)])
    case Pop(w) => s.(queue := s.queue[1..], workers := s.workers[w := Popped(s.queue[0])])
    case Inspect(w, handled) =>
      var j := s.workers[w].j;
      if s.now < s.jobs[j].availableAt then s.(workers := s.workers[w := TooEarly(j)])
      else if !handled then s.(workers := s.workers[w := Free], gone := s.gone[j := Unhandled])
      else s.(workers := s.workers[w := Running(j)],
              jobs := s.jobs[j := s.jobs[j].(executions := s.jobs[j].executions + 1, lastStart := s.now)])
    case MeasureDelay(w) =>
      var j := s.workers[w].j;
      s.(workers := s.workers[w := Returning(j, s.jobs[j].availableAt - s.now, true)])
    case PutBack(w) =>
      var p := s.workers[w];
      var job := s.jobs[p.j];
      s.(queue := s.queue + [p.j], workers := s.workers[w := Free],
         jobs := s.jobs[p.j := job.(retryCount := job.retryCount + 1, availableAt := s.now + p.delay,
                                    early := if p.unexecuted then job.early + 1 else job.early)])
    case Finish(w, outcome) =>
      var j := s.workers[w].j;
      if outcome.Success? then s.(workers := s.workers[w := Free], gone := s.gone[j := Succeeded])
      else if s.jobs[j].retryCount < s.jobs[j].maxRetry then
        s.(workers := s.workers[w := Returning(j, (s.jobs[j].retryCount + 1) * BACKOFF, false)])
      else s.(workers := s.workers[w := Free], gone := s.gone[j := Failed])
    case Clear =>
      s.(queue := [], gone := s.gone + map j | j in s.queue :: Cleared)
  }

  datatype Result = Stuck | Reached(state: State)

  function Run(workers: nat, es: seq<Event>): Result {
    if es == [] then Reached(Init(workers))
    else
      var r := Run(workers, es[..|es| - 1]);
      if r.Reached? && Enabled(r.state, es[|es| - 1]) then Reached(Step(r.state, es[|es| - 1])) else Stuck
  }

  // ----- each job is in one place -----

  predicate Holds(s: State, w: nat, j: nat) {
    w < |s.workers| && !s.workers[w].Free? && s.workers[w].j == j
  }

  datatype Place = InQueue(position: nat) | AtWorker(w: nat) | Gone

  predicate At(s: State, j: nat, p: Place) {
    match p
    case InQueue(i) => i < |s.queue| && s.queue[i] == j
    case AtWorker(w) => Holds(s, w, j)
    case Gone => j in s.gone
  }

  ghost predicate NoRepeats(queue: seq<nat>) {
    forall i, k :: 0 <= i < k < |queue| ==> queue[i] != queue[k]
  }

  ghost predicate QueueLive(s: State) {
    forall i :: 0 <= i < |s.queue| ==> s.queue[i] < |s.jobs| && s.queue[i] !in s.gone
  }

  ghost predicate GoneKnown(s: State) {
    forall j :: j in s.gone ==> j < |s.jobs|
  }

  ghost predicate QueueOk(s: State) {
    NoRepeats(s.queue) && QueueLive(s) && GoneKnown(s)
  }

  ghost predicate WorkersOk(s: State) {
    && (forall v: nat, w: nat, j: nat :: Holds(s, v, j) && Holds(s, w, j) ==> v == w)
    && (forall w: nat, j: nat :: Holds(s, w, j) ==> j < |s.jobs| && j !in s.gone)
  }

  ghost predicate Apart(s: State) {
    forall w: nat, j: nat, i :: Holds(s, w, j) && 0 <= i < |s.queue| ==> s.queue[i] != j
  }

  ghost predicate Disjoint(s: State) {
    QueueOk(s) && WorkersOk(s) && Apart(s)
  }

  predicate Somewhere(s: State, j: nat) {
    j in s.queue || j in s.gone || exists w :: 0 <= w < |s.workers| && Holds(s, w, j)
  }

  ghost predicate Covered(s: State) {
    forall j: nat :: j < |s.jobs| ==> Somewhere(s, j)
  }

  lemma AppendOne(queue: seq<nat>, j: nat)
    requires NoRepeats(queue) && j !in queue
    ensures NoRepeats(queue + [j])
  {
  }

  lemma StepKeepsNoRepeats(s: State, e: Event)
    requires Disjoint(s) && Enabled(s, e)
    ensures NoRepeats(Step(s, e).queue)
  {
    if e.Push? {
      hide WorkersOk, Apart, NoRepeats;
      AppendOne(s.queue, |s.jobs|);
    } else if e.PutBack? {
      assert Holds(s, e.w, s.workers[e.w].j);
      hide WorkersOk, QueueLive, GoneKnown, NoRepeats;
      AppendOne(s.queue, s.workers[e.w].j);
    }
  }

  lemma StepKeepsQueueLive(s: State, e: Event)
    requires Disjoint(s) && Enabled(s, e)
    ensures QueueLive(Step(s, e))
  {
    hide NoRepeats;
    if e.PutBack? || e.Inspect? || e.Finish? {
      assert Holds(s, e.w, s.workers[e.w].j);
    }
  }

  lemma StepKeepsGoneKnown(s: State, e: Event)
    requires Disjoint(s) && Enabled(s, e)
    ensures GoneKnown(Step(s, e))
  {
    hide NoRepeats, Apart;
  }

  lemma StepKeepsWorkersOk(s: State, e: Event)
    requires Disjoint(s) && Enabled(s, e)
    ensures WorkersOk(Step(s, e))
  {
    var s' := Step(s, e);
    assert forall w: nat, j: nat :: Holds(s', w, j) && !Holds(s, w, j) ==>
             e.Pop? && e.w == w && j == s.queue[0];
    if e.PutBack? || e.Inspect? || e.Finish? {
      assert Holds(s, e.w, s.workers[e.w].j);
    }
  }

  lemma StepKeepsApart(s: State, e: Event)
    requires Disjoint(s) && Enabled(s, e)
    ensures Apart(Step(s, e))
  {
    var s' := Step(s, e);
    assert forall w: nat, j: nat :: Holds(s', w, j) && !Holds(s, w, j) ==>
             e.Pop? && e.w == w && j == s.queue[0];
    if e.PutBack? {
      assert Holds(s, e.w, s.workers[e.w].j);
    }
  }

  lemma StepKeepsCovered(s: State, e: Event)
    requires Covered(s) && Enabled(s, e)
    ensures Covered(Step(s, e))
  {
    var s' := Step(s, e);
    forall j: nat | j < |s'.jobs| ensures Somewhere(s', j) {
      if |s.jobs| <= j {
        assert s'.queue[|s.queue|] == j;
      } else if j in s.queue {
        var i :| 0 <= i < |s.queue| && s.queue[i] == j;
        if e.Pop? {
          assert if i == 0 then Holds(s', e.w, j) else s'.queue[i - 1] == j;
        } else if !e.Clear? {
          assert s'.queue[i] == j;
        }
      } else if j !in s.gone {
        assert Somewhere(s, j);
        var w :| 0 <= w < |s.workers| && Holds(s, w, j);
        assert Holds(s', w, j) || j in s'.gone || s'.queue[|s.queue|] == j;
      }
    }
  }

  // ----- counters, retries and times of a single job -----

  /** The executions that the retry counter and the worker's state account for. */
  ghost predicate Account(job: Job, pending: nat) {
    && 0 <= job.retryCount
    && pending <= job.executions
    && job.executions - pending + job.early == job.retryCount
    && (job.executions == pending || job.executions - pending <= job.maxRetry)
    && job.firstAvailable <= job.availableAt
  }

  /** After k executions the next one waits at least k backoff steps. */
  ghost predicate Spaced(job: Job) {
    job.executions > 0 ==> job.lastStart + job.executions * BACKOFF <= job.availableAt
  }

  ghost predicate WorkerOk(s: State, w: Worker)
  {
    !w.Free? && w.j < |s.jobs| ==>
      var job := s.jobs[w.j];
      match w
      case Popped(_) => Account(job, 0) && Spaced(job)
      case TooEarly(_) => Account(job, 0) && Spaced(job)
      case Running(_) => Account(job, 1) && job.availableAt <= job.lastStart <= s.now
      case Returning(_, delay, unexecuted) =>
        && job.availableAt <= s.now + delay
        && (if unexecuted then Account(job, 0) && Spaced(job)
            else Account(job, 1) && job.retryCount < job.maxRetry && job.lastStart <= s.now
                 && delay == (job.retryCount + 1) * BACKOFF)
      case Free => true
  }

  ghost predicate GoneOk(s: State, j: nat) {
    j in s.gone && j < |s.jobs| ==>
      var job := s.jobs[j];
      match s.gone[j]
      case Succeeded => Account(job, 1)
      case Failed => Account(job, 1) && job.maxRetry <= job.retryCount
      case Unhandled => Account(job, 0)
      case Cleared => Account(job, 0)
  }

  ghost predicate QueueCounted(s: State) {
    forall i :: 0 <= i < |s.queue| && s.queue[i] < |s.jobs| ==>
      Account(s.jobs[s.queue[i]], 0) && Spaced(s.jobs[s.queue[i]])
  }

  ghost predicate WorkersCounted(s: State) {
    forall w :: 0 <= w < |s.workers| ==> WorkerOk(s, s.workers[w])
  }

  ghost predicate GoneCounted(s: State) {
    forall j :: j in s.gone ==> GoneOk(s, j)
  }

  ghost predicate Inv(s: State) {
    Disjoint(s) && Covered(s) && QueueCounted(s) && WorkersCounted(s) && GoneCounted(s)
  }

  lemma StepKeepsQueueCounted(s: State, e: Event)
    requires Inv(s) && Enabled(s, e)
    ensures QueueCounted(Step(s, e))
  {
    if e.PutBack? || e.Inspect? {
      assert WorkerOk(s, s.workers[e.w]);
      assert Holds(s, e.w, s.workers[e.w].j);
    }
  }

  lemma OwnWorkerKept(s: State, e: Event)
    requires Inv(s) && Enabled(s, e) && !e.Tick? && !e.Push? && !e.Clear?
    ensures WorkerOk(Step(s, e), Step(s, e).workers[e.w])
  {
    assert WorkerOk(s, s.workers[e.w]);
  }

  lemma OtherWorkerKept(s: State, e: Event, w: nat)
    requires Inv(s) && Enabled(s, e) && w < |s.workers|
    requires e.Tick? || e.Push? || e.Clear? || e.w != w
    ensures WorkerOk(Step(s, e), Step(s, e).workers[w])
  {
    hide Account, Spaced, Covered, QueueCounted, GoneCounted, NoRepeats, QueueLive, GoneKnown;
    assert WorkerOk(s, s.workers[w]);
    if !s.workers[w].Free? {
      assert Holds(s, w, s.workers[w].j);
    }
    if e.PutBack? || e.Inspect? {
      assert Holds(s, e.w, s.workers[e.w].j);
    }
  }

  lemma StepKeepsWorkersCounted(s: State, e: Event)
    requires Inv(s) && Enabled(s, e)
    ensures WorkersCounted(Step(s, e))
  {
    forall w | 0 <= w < |s.workers| ensures WorkerOk(Step(s, e), Step(s, e).workers[w]) {
      if e.Tick? || e.Push? || e.Clear? || e.w != w {
        OtherWorkerKept(s, e, w);
      } else {
        OwnWorkerKept(s, e);
      }
    }
  }

  /** A job that was gone stays as it was; a job that goes takes its account with it. */
  lemma GoneKept(s: State, e: Event, j: nat)
    requires Inv(s) && Enabled(s, e) && j in Step(s, e).gone
    ensures GoneOk(Step(s, e), j)
  {
    hide Covered, NoRepeats, Apart, Spaced;
    if j in s.gone {
      hide Account, QueueCounted, WorkersCounted, QueueLive, GoneKnown;
      assert GoneOk(s, j);
      if e.PutBack? || e.Inspect? || e.Finish? {
        assert Holds(s, e.w, s.workers[e.w].j);
      }
    } else if e.Inspect? || e.Finish? {
      assert WorkerOk(s, s.workers[e.w]);
    }
  }

  lemma StepKeepsGoneCounted(s: State, e: Event)
    requires Inv(s) && Enabled(s, e)
    ensures GoneCounted(Step(s, e))
  {
    forall j | j in Step(s, e).gone ensures GoneOk(Step(s, e), j) {
      GoneKept(s, e, j);
    }
  }

  lemma {:induction false} RunKeepsInv(workers: nat, es: seq<Event>)
    ensures Run(workers, es).Reached? ==> Inv(Run(workers, es).state)
  {
    if es != [] {
      var front, e := es[..|es| - 1], es[|es| - 1];
      RunKeepsInv(workers, front);
      if Run(workers, es).Reached? {
        var s := Run(workers, front).state;
        StepKeepsNoRepeats(s, e);
        StepKeepsQueueLive(s, e);
        StepKeepsGoneKnown(s, e);
        StepKeepsWorkersOk(s, e);
        StepKeepsApart(s, e);
        StepKeepsCovered(s, e);
        StepKeepsQueueCounted(s, e);
        StepKeepsWorkersCounted(s, e);
        StepKeepsGoneCounted(s, e);
      }
    }
  }

  // ----- the theorems -----

  /** Conservation: in every interleaving each pushed job is in exactly one place: at one
      position of the queue, with one worker, or gone. */
  lemma ExactlyOnePlace(workers: nat, es: seq<Event>, j: nat)
    requires Run(workers, es).Reached? && j < |Run(workers, es).state.jobs|
    ensures var s := Run(workers, es).state;
            exists p :: At(s, j, p) && forall q :: At(s, j, q) ==> q == p
  {
    RunKeepsInv(workers, es);
    var s := Run(workers, es).state;
    assert Somewhere(s, j);
    var p: Place;
    if j in s.queue {
      var i :| 0 <= i < |s.queue| && s.queue[i] == j;
      p := InQueue(i);
    } else if j in s.gone {
      p := Gone;
    } else {
      var w :| 0 <= w < |s.workers| && Holds(s, w, j);
      p := AtWorker(w);
    }
    assert At(s, j, p);
    assert forall q :: At(s, j, q) ==> q == p;
  }

  /** No job is executed more than maxRetry + 1 times; a job given up as failed was executed
      at least maxRetry + 1 times less its early releases, which cost retries too. */
  lemma RetryBound(workers: nat, es: seq<Event>, j: nat)
    requires Run(workers, es).Reached? && j < |Run(workers, es).state.jobs|
    ensures var s := Run(workers, es).state; var job := s.jobs[j];
            && job.executions <= 1 + (if job.maxRetry < 0 then 0 else job.maxRetry)
            && (j in s.gone && s.gone[j] == Failed ==> job.maxRetry + 1 - job.early <= job.executions)
  {
    RunKeepsInv(workers, es);
    var s := Run(workers, es).state;
    assert Somewhere(s, j);
    if j in s.queue {
      var i :| 0 <= i < |s.queue| && s.queue[i] == j;
      assert s.queue[i] !in s.gone;
    } else if j in s.gone {
      assert GoneOk(s, j);
    } else {
      var w :| 0 <= w < |s.workers| && Holds(s, w, j);
      assert WorkerOk(s, s.workers[w]);
    }
  }

  /** A job's available-at time never moves earlier; an execution starts no earlier than it,
      hence no earlier than the time set at the push, and the (k+1)-st execution starts at
      least k backoff steps after the k-th. */
  lemma NeverEarly(workers: nat, es: seq<Event>, e: Event, j: nat)
    requires Run(workers, es).Reached? && j < |Run(workers, es).state.jobs|
    requires Enabled(Run(workers, es).state, e)
    ensures var s := Run(workers, es).state; var s' := Step(s, e);
            && s.jobs[j].availableAt <= s'.jobs[j].availableAt
            && s'.jobs[j].firstAvailable == s.jobs[j].firstAvailable
            && (s'.jobs[j].executions != s.jobs[j].executions ==>
                  && s'.jobs[j].executions == s.jobs[j].executions + 1
                  && s'.jobs[j].lastStart == s'.now
                  && s.jobs[j].firstAvailable <= s.jobs[j].availableAt <= s'.now
                  && (s.jobs[j].executions > 0 ==>
                        s.jobs[j].lastStart + s.jobs[j].executions * 10_000 <= s'.now))
  {
    RunKeepsInv(workers, es);
    var s := Run(workers, es).state;
    if e.Inspect? || e.PutBack? {
      assert WorkerOk(s, s.workers[e.w]);
      assert Holds(s, e.w, s.workers[e.w].j);
    }
  }

  // ----- what is gone -----

  lemma GoneStays(s: State, e: Event, j: nat)
    requires Inv(s) && Enabled(s, e) && j in s.gone
    ensures j < |s.jobs| <= |Step(s, e).jobs|
    ensures j in Step(s, e).gone && Step(s, e).gone[j] == s.gone[j] && Step(s, e).jobs[j] == s.jobs[j]
  {
    hide Covered, GoneCounted, WorkersCounted, QueueCounted, NoRepeats, Apart;
    if e.PutBack? || e.Inspect? || e.Finish? {
      assert Holds(s, e.w, s.workers[e.w].j);
    }
  }

  /** A job that is gone is never executed again: whatever happens, its fate, its executions and
      its retries stay as they are. */
  lemma {:induction false} GoneForGood(workers: nat, es: seq<Event>, more: seq<Event>, j: nat)
    requires Run(workers, es).Reached? && j in Run(workers, es).state.gone && j < |Run(workers, es).state.jobs|
    ensures var r := Run(workers, es + more);
            r.Reached? ==>
              && j in r.state.gone && r.state.gone[j] == Run(workers, es).state.gone[j]
              && j < |r.state.jobs| && r.state.jobs[j] == Run(workers, es).state.jobs[j]
    decreases more
  {
    if more == [] {
      assert es + more == es;
    } else {
      var front, e := more[..|more| - 1], more[|more| - 1];
      GoneForGood(workers, es, front, j);
      RunKeepsInv(workers, es + front);
      assert (es + more)[..|es + more| - 1] == es + front && (es + more)[|es + more| - 1] == e;
      if Run(workers, es + more).Reached? {
        GoneStays(Run(workers, es + front).state, e, j);
      }
    }
  }

  /** Clear empties the queue: the jobs in it are gone as cleared, and the others stay where
      they are. */
  lemma ClearEmptiesQueue(workers: nat, es: seq<Event>)
    requires Run(workers, es).Reached?
    ensures var s, r := Run(workers, es).state, Run(workers, es + [Clear]);
            && r.Reached? && r.state.queue == [] && r.state.workers == s.workers && r.state.jobs == s.jobs
            && (forall j :: j in s.queue ==> j in r.state.gone && r.state.gone[j] == Cleared)
            && (forall j :: j !in s.queue ==> (j in r.state.gone <==> j in s.gone))
  {
    assert (es + [Clear])[..|es|] == es;
  }

  // ----- the order of the queue -----

  /** The jobs that were never put back. */
  function Fresh(s: State): set<nat> {
    set j: nat | j < |s.jobs| && s.jobs[j].retryCount == 0
  }

  /** The jobs of this set stand in the order of their numbers, in which they were pushed. */
  ghost predicate InOrder(queue: seq<nat>, jobs: set<nat>) {
    forall a, b :: 0 <= a < b < |queue| && queue[a] in jobs && queue[b] in jobs ==> queue[a] < queue[b]
  }

  /** What an event takes from the head of the queue and adds at its end. */
  function Taken(e: Event): nat {
    if e.Pop? then 1 else 0
  }

  function Added(s: State, e: Event): seq<nat>
    requires Enabled(s, e)
  {
    if e.Push? then [|s.jobs|] else if e.PutBack? then [s.workers[e.w].j] else []
  }

  lemma QueueAfter(s: State, e: Event)
    requires Enabled(s, e) && !e.Clear?
    ensures Taken(e) <= |s.queue| && Step(s, e).queue == s.queue[Taken(e)..] + Added(s, e)
  {
  }

  /** Whoever is still fresh was fresh before. */
  lemma WasFresh(s: State, e: Event, j: nat)
    requires Inv(s) && Enabled(s, e) && j < |s.jobs| && Step(s, e).jobs[j].retryCount == 0
    ensures s.jobs[j].retryCount == 0
  {
    hide Covered, WorkersOk, Apart, GoneCounted, NoRepeats, GoneKnown, Spaced, QueueCounted;
    if e.PutBack? {
      assert WorkerOk(s, s.workers[e.w]);
    }
  }

  lemma PutBackIsNotFresh(s: State, e: Event)
    requires Inv(s) && Enabled(s, e) && e.PutBack?
    ensures s.workers[e.w].j !in Fresh(Step(s, e))
  {
    hide Covered, WorkersOk, Apart, GoneCounted, NoRepeats, GoneKnown, Spaced, QueueCounted;
    assert WorkerOk(s, s.workers[e.w]);
  }

  lemma OrderKept(queue: seq<nat>, taken: nat, added: seq<nat>, before: set<nat>, after: set<nat>)
    requires InOrder(queue, before) && taken <= |queue| && |added| <= 1
    requires forall i :: 0 <= i < |queue| && queue[i] in after ==> queue[i] in before
    requires added != [] && added[0] in after ==> forall i :: 0 <= i < |queue| ==> queue[i] < added[0]
    ensures InOrder(queue[taken..] + added, after)
  {
  }

  lemma StepKeepsOrder(s: State, e: Event)
    requires Inv(s) && Enabled(s, e) && InOrder(s.queue, Fresh(s))
    ensures InOrder(Step(s, e).queue, Fresh(Step(s, e)))
  {
    if !e.Clear? {
      QueueAfter(s, e);
      assert QueueLive(s);
      forall i | 0 <= i < |s.queue| && s.queue[i] in Fresh(Step(s, e)) ensures s.queue[i] in Fresh(s) {
        WasFresh(s, e, s.queue[i]);
      }
      if e.PutBack? {
        PutBackIsNotFresh(s, e);
      }
      hide Inv, Step, Fresh, InOrder;
      OrderKept(s.queue, Taken(e), Added(s, e), Fresh(s), Fresh(Step(s, e)));
    }
  }

  /** First in, first out, in every run: of two jobs that were never put back, the one that was
      pushed first is nearer to the head of the queue. */
  lemma {:induction false} FirstInFirstOut(workers: nat, es: seq<Event>)
    ensures var r := Run(workers, es); r.Reached? ==> InOrder(r.state.queue, Fresh(r.state))
  {
    if es != [] {
      var front := es[..|es| - 1];
      FirstInFirstOut(workers, front);
      RunKeepsInv(workers, front);
      if Run(workers, es).Reached? {
        StepKeepsOrder(Run(workers, front).state, es[|es| - 1]);
      }
    }
  }

  lemma Extend(workers: nat, es: seq<Event>, s: State, e: Event, s': State) returns (es': seq<Event>)
    requires Run(workers, es) == Reached(s) && Enabled(s, e) && s' == Step(s, e)
    ensures Run(workers, es') == Reached(s')
  {
    es' := es + [e];
    assert es'[..|es|] == es;
  }

  lemma More(workers: nat, es: seq<Event>, s: State, e: Event) returns (es': seq<Event>, s': State)
    requires Run(workers, es) == Reached(s) && Enabled(s, e)
    ensures s' == Step(s, e) && Run(workers, es') == Reached(s')
  {
    s' := Step(s, e);
    es' := Extend(workers, es, s, e, s');
  }

  lemma FoundEarly() returns (es: seq<Event>)
    ensures Run(1, es) == Reached(State(0, [], [TooEarly(0)], [Job(1, 0, 1, 0, 0, 1, 0)], map[]))
  {
    var pushed := Job(1, 0, 1, 0, 0, 1, 0);
    var s1 := State(0, [0], [Free], [pushed], map[]);
    es := Extend(1, [], Init(1), Push(1, 1), s1);
    var s2 := State(0, [], [Popped(0)], [pushed], map[]);
    es := Extend(1, es, s1, Pop(0), s2);
    es := Extend(1, es, s2, Inspect(0, true), State(0, [], [TooEarly(0)], [pushed], map[]));
  }

  lemma ReleasedEarly() returns (es: seq<Event>)
    ensures Run(1, es) == Reached(State(0, [0], [Free], [Job(1, 1, 1, 0, 1, 1, 0)], map[]))
  {
    hide Run;
    var pushed, released := Job(1, 0, 1, 0, 0, 1, 0), Job(1, 1, 1, 0, 1, 1, 0);
    es := FoundEarly();
    var s3, s4 := State(0, [], [TooEarly(0)], [pushed], map[]),
                  State(0, [], [Returning(0, 1, true)], [pushed], map[]);
    es := Extend(1, es, s3, MeasureDelay(0), s4);
    es := Extend(1, es, s4, PutBack(0), State(0, [0], [Free], [released], map[]));
  }

  /** Looking at a delayed job too early uses up its retries: in this run a job that always
      fails and may be retried once is executed a single time. */
  lemma EarlyReleaseCostsRetries() returns (es: seq<Event>)
    ensures Run(1, es) == Reached(State(1, [], [Free], [Job(1, 1, 1, 1, 1, 1, 1)], map[0 := Failed]))
  {
    hide Run;
    var released, executed := Job(1, 1, 1, 0, 1, 1, 0), Job(1, 1, 1, 1, 1, 1, 1);
    es := ReleasedEarly();
    var s5, s6 := State(0, [0], [Free], [released], map[]), State(1, [0], [Free], [released], map[]);
    es := Extend(1, es, s5, Tick(1), s6);
    var s7 := State(1, [], [Popped(0)], [released], map[]);
    es := Extend(1, es, s6, Pop(0), s7);
    var s8 := State(1, [], [Running(0)], [executed], map[]);
    es := Extend(1, es, s7, Inspect(0, true), s8);
    var s9 := State(1, [], [Free], [executed], map[0 := Failed]);
    es := Extend(1, es, s8, Finish(0, Failure), s9);
  }
}
