/** The single-server lock with its renewing watchdog, as a transition system. */
module WatchdogLock {
  import opened KeyServer

  datatype LockConfig = LockConfig(ttl: int, retry: nat)

  predicate ValidConfig(locks: seq<LockConfig>) {
    forall o :: 0 <= o < |locks| ==> 0 < locks[o].ttl
  }

  /** Critical is the time between a true Lock and the release: fn runs, and the watchdog
      ticks until its first failed renewal or until it is stopped.  `renewedAt` is the time of
      the acquisition or of the last renewal that found the key, `leaseEnd` that time plus the
      ttl that was set. */
  datatype Phase =
    | Idle
    | Locking(attempt: nat)
    | Critical(renewedAt: int, leaseEnd: int, watchdog: bool)
    | Unlocking

  datatype State = State(now: int, entry: Entry, phase: seq<Phase>)

  datatype Delivery = NotExecuted | ReplyLost | Answered

  datatype Event =
    | Tick(elapsed: nat)
    | BeginLock(o: nat)
    | SendSetNX(o: nat, delivery: Delivery)
    | WatchdogTick(o: nat, delivery: Delivery)
    | Extend(o: nat, ttl: int, delivery: Delivery)
    | StopWatchdog(o: nat)
    | BeginUnlock(o: nat)
    | SendDelete(o: nat, delivery: Delivery)

  function Init(locks: seq<LockConfig>): State {
    State(0, Absent, seq(|locks|, _ => Idle))
  }

  /** Extend is public and can also still be under way after the watchdog was stopped, so
      it is possible in every phase. */
  predicate Enabled(s: State, e: Event) {
    match e
    case Tick(_) => true
    case BeginLock(o) => o < |s.phase| && s.phase[o].Idle?
    case SendSetNX(o, _) => o < |s.phase| && s.phase[o].Locking?
    case WatchdogTick(o, _) => o < |s.phase| && s.phase[o].Critical? && s.phase[o].watchdog
    case Extend(o, _, _) => o < |s.phase|
    case StopWatchdog(o) => o < |s.phase| && s.phase[o].Critical?
    case BeginUnlock(o) => o < |s.phase| && (s.phase[o].Idle? || s.phase[o].Critical?)
    case SendDelete(o, _) => o < |s.phase| && s.phase[o].Unlocking?
  }

  function NextAttempt(locks: seq<LockConfig>, o: nat, attempt: nat): Phase
    requires o < |locks|
  {
    if attempt < locks[o].retry then Locking(attempt) else Idle
  }

  function Renewed(p: Phase, entry: Entry, o: nat, now: int, ttl: int): Phase {
    if p.Critical? && OwnedBy(entry, o, now) then p.(renewedAt := now, leaseEnd := now + ttl) else p
  }

  function Step(locks: seq<LockConfig>, s: State, e: Event): State
    requires |s.phase| == |locks| && Enabled(s, e)
  {
    match e
    case Tick(d) => s.(now := s.now + d)
    case BeginLock(o) => s.(phase := s.phase[o := NextAttempt(locks, o, 0)])
    case SendSetNX(o, d) =>
      var ttl := locks[o].ttl;
      var taken := d != NotExecuted && !Live(s.entry, s.now);
      s.(entry := if d == NotExecuted then s.entry else SetNX(s.entry, o, s.now, ttl),
         phase := s.phase[o := if taken && d == Answered then Critical(s.now, s.now + ttl, true)
                               else NextAttempt(locks, o, s.phase[o].attempt + 1)])
    case WatchdogTick(o, d) =>
      var ttl := locks[o].ttl;
      var p := s.phase[o].(watchdog := d == Answered);
      if d == NotExecuted then s.(phase := s.phase[o := p])
      else s.(entry := CompareAndExtend(s.entry, o, s.now, ttl),
              phase := s.phase[o := Renewed(p, s.entry, o, s.now, ttl)])
    case Extend(o, ttl, d) =>
      if d == NotExecuted then s
      else s.(entry := CompareAndExtend(s.entry, o, s.now, ttl),
              phase := s.phase[o := Renewed(s.phase[o], s.entry, o, s.now, ttl)])
    case StopWatchdog(o) => s.(phase := s.phase[o := s.phase[o].(watchdog := false)])
    case BeginUnlock(o) => s.(phase := s.phase[o := Unlocking])
    case SendDelete(o, d) =>
      s.(entry := if d == NotExecuted then s.entry else CompareAndDelete(s.entry, o, s.now),
         phase := s.phase[o := Idle])
  }

  datatype Outcome = Stuck | Reached(state: State)

  function Run(locks: seq<LockConfig>, events: seq<Event>): (r: Outcome)
    ensures r.Reached? ==> |r.state.phase| == |locks|
  {
    if events == [] then Reached(Init(locks))
    else
      var before := Run(locks, events[..|events| - 1]);
      var e := events[|events| - 1];
      if before.Reached? && Enabled(before.state, e)
      then Reached(Step(locks, before.state, e)) else Stuck
  }

  ghost predicate Inv(s: State) {
    forall o :: 0 <= o < |s.phase| && s.phase[o].Critical? ==>
      if s.now < s.phase[o].leaseEnd then s.entry == Key(o, s.phase[o].leaseEnd)
      else !OwnedBy(s.entry, o, s.now)
  }

  lemma StepKeepsInv(locks: seq<LockConfig>, s: State, e: Event)
    requires ValidConfig(locks) && |s.phase| == |locks| && Enabled(s, e) && Inv(s)
    ensures Inv(Step(locks, s, e))
  {
  }

  lemma StartsIdle(locks: seq<LockConfig>)
    ensures Inv(Init(locks))
  {
  }

  lemma {:induction false} RunKeepsInv(locks: seq<LockConfig>, events: seq<Event>)
    requires ValidConfig(locks)
    ensures Run(locks, events).Reached? ==> Inv(Run(locks, events).state)
  {
    hide Inv, Step, Enabled;
    if events != [] {
      RunKeepsInv(locks, events[..|events| - 1]);
      if Run(locks, events).Reached? {
        StepKeepsInv(locks, Run(locks, events[..|events| - 1]).state, events[|events| - 1]);
      }
    } else {
      StartsIdle(locks);
    }
  }

  /** In every run, an object in its critical section owns the key exactly until the end of
      its last effective lease. */
  lemma OwnsKeyIffInLease(locks: seq<LockConfig>, events: seq<Event>, o: nat)
    requires ValidConfig(locks) && Run(locks, events).Reached? && o < |locks|
    ensures var s := Run(locks, events).state;
            s.phase[o].Critical? ==> (OwnedBy(s.entry, o, s.now) <==> s.now < s.phase[o].leaseEnd)
  {
    RunKeepsInv(locks, events);
  }

  /** Every tick of the clock comes before the lease of every running critical section ends. */
  ghost predicate Timely(locks: seq<LockConfig>, events: seq<Event>)
  {
    events != [] ==>
      var before := Run(locks, events[..|events| - 1]);
      && Timely(locks, events[..|events| - 1])
      && (events[|events| - 1].Tick? && before.Reached? ==>
            forall o :: 0 <= o < |before.state.phase| && before.state.phase[o].Critical? ==>
              before.state.now + events[|events| - 1].elapsed < before.state.phase[o].leaseEnd)
  }

  /** A direct Extend that shortens the lease to nothing gives the key away. */
  predicate PositiveExtends(events: seq<Event>) {
    forall i :: 0 <= i < |events| && events[i].Extend? ==> 0 < events[i].ttl
  }

  /** Every running critical section owns the key. */
  ghost predicate Guarded(s: State) {
    forall o :: 0 <= o < |s.phase| && s.phase[o].Critical? ==> OwnedBy(s.entry, o, s.now)
  }

  ghost predicate GuardedAfter(locks: seq<LockConfig>, events: seq<Event>, k: nat)
    requires k <= |events|
  {
    Run(locks, events[..k]).Reached? ==> Guarded(Run(locks, events[..k]).state)
  }

  /** The key is never lost during a critical section exactly when no gap between its
      acquisition and its effective renewals reaches ttl. */
  lemma {:induction false} GuardedIffTimely(locks: seq<LockConfig>, events: seq<Event>)
    requires ValidConfig(locks) && PositiveExtends(events)
    ensures Timely(locks, events) <==>
            forall k :: 0 <= k <= |events| ==> GuardedAfter(locks, events, k)
  {
    var n := |events|;
    RunKeepsInv(locks, events);
    assert events[..n] == events;
    if n == 0 {
      assert GuardedAfter(locks, events, 0);
    } else {
      var front := events[..n - 1];
      assert forall i :: 0 <= i < |front| ==> front[i] == events[i];
      GuardedIffTimely(locks, front);
      forall k | 0 <= k <= n - 1
        ensures GuardedAfter(locks, front, k) == GuardedAfter(locks, events, k)
      {
        assert front[..k] == events[..k];
      }
      RunKeepsInv(locks, front);
      if Timely(locks, front) {
        assert front[..n - 1] == front && GuardedAfter(locks, front, n - 1);
        LastStepGuarded(locks, events);
        assert GuardedAfter(locks, events, n) <==> Timely(locks, events);
        assert forall k :: 0 <= k <= n - 1 ==> GuardedAfter(locks, events, k);
      } else {
        var k :| 0 <= k <= n - 1 && !GuardedAfter(locks, front, k);
        assert !GuardedAfter(locks, events, k);
      }
    }
  }

  lemma {:induction false} LastStepGuarded(locks: seq<LockConfig>, events: seq<Event>)
    requires ValidConfig(locks) && PositiveExtends(events) && events != []
    requires var before := Run(locks, events[..|events| - 1]);
             before.Reached? ==> Inv(before.state) && Guarded(before.state)
    ensures (Run(locks, events).Reached? ==> Guarded(Run(locks, events).state)) <==>
            (var before := Run(locks, events[..|events| - 1]);
             events[|events| - 1].Tick? && before.Reached? ==>
               forall o :: 0 <= o < |before.state.phase| && before.state.phase[o].Critical? ==>
                 before.state.now + events[|events| - 1].elapsed < before.state.phase[o].leaseEnd)
  {
    assert events[|events| - 1].Extend? ==> 0 < events[|events| - 1].ttl;
  }

  /** If the gaps between acquisition and effective renewals stay below ttl, critical
      sections never overlap, and each owns the key from its first moment to its last. */
  lemma {:induction false} TimelyRunsNeverOverlap(locks: seq<LockConfig>, events: seq<Event>, a: nat, b: nat)
    requires ValidConfig(locks) && Timely(locks, events) && PositiveExtends(events)
    requires Run(locks, events).Reached? && a < |locks| && b < |locks| && a != b
    ensures var s := Run(locks, events).state; !(s.phase[a].Critical? && s.phase[b].Critical?)
  {
    GuardedIffTimely(locks, events);
    assert events[..|events|] == events && GuardedAfter(locks, events, |events|);
  }

  /** The watchdog of o is running. */
  predicate Watching(s: State, o: nat) {
    o < |s.phase| && s.phase[o].Critical? && s.phase[o].watchdog
  }

  predicate EndsWatchdog(e: Event, o: nat) {
    (e.StopWatchdog? && e.o == o) || (e.WatchdogTick? && e.o == o && e.delivery != Answered)
  }

  lemma WatchdogStarts(locks: seq<LockConfig>, s: State, e: Event, o: nat)
    requires |s.phase| == |locks| && Enabled(s, e)
    ensures Watching(Step(locks, s, e), o) && !Watching(s, o) ==> e.SendSetNX? && e.o == o
    ensures EndsWatchdog(e, o) ==> !Watching(Step(locks, s, e), o)
  {
  }

  /** A watchdog ends with the first tick that is not answered, or when it is stopped: it ticks
      again only after the key has been set again. */
  lemma {:induction false} EndedWatchdogIsSilent(locks: seq<LockConfig>, events: seq<Event>, o: nat, i: nat, j: nat)
    requires i < j < |events| && Run(locks, events[..j + 1]).Reached?
    requires EndsWatchdog(events[i], o)
    requires events[j].WatchdogTick? && events[j].o == o
    ensures exists k :: i < k < j && events[k].SendSetNX? && events[k].o == o
  {
    assert events[..j + 1][..j] == events[..j];
    var k := Restarted(locks, events, o, i, j);
  }

  lemma {:induction false} Restarted(locks: seq<LockConfig>, events: seq<Event>, o: nat, i: nat, j: nat)
    returns (k: nat)
    requires i < j <= |events| && Run(locks, events[..j]).Reached? && Watching(Run(locks, events[..j]).state, o)
    requires EndsWatchdog(events[i], o)
    ensures i < k < j && events[k].SendSetNX? && events[k].o == o
    decreases j
  {
    assert events[..j][..j - 1] == events[..j - 1];
    var s := Run(locks, events[..j - 1]).state;
    WatchdogStarts(locks, s, events[j - 1], o);
    if Watching(s, o) && j - 1 > i {
      k := Restarted(locks, events, o, i, j - 1);
    } else {
      k := j - 1;
    }
  }

  /** The owner of a live key changes only by its own delete, its own non-positive extension
      or expiry, and a new owner appears only by setting a key that was not live. */
  lemma OwnerChanges(locks: seq<LockConfig>, s: State, e: Event, o: nat)
    requires |s.phase| == |locks| && Enabled(s, e)
    ensures var s' := Step(locks, s, e);
            && (OwnedBy(s.entry, o, s.now) && !OwnedBy(s'.entry, o, s'.now) ==>
                  || (e.SendDelete? && e.o == o)
                  || (e.Extend? && e.o == o && e.ttl <= 0)
                  || (e.WatchdogTick? && e.o == o && locks[o].ttl <= 0)
                  || (e.Tick? && s.entry.expiry <= s'.now))
            && (!OwnedBy(s.entry, o, s.now) && OwnedBy(s'.entry, o, s'.now) ==>
                  e.SendSetNX? && e.o == o && !Live(s.entry, s.now))
  {
  }
}
