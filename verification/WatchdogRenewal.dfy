/** The watchdog that WithWatchdogLock starts: it renews every two seconds, whatever the ttl is.
    Times are milliseconds. */
module WatchdogRenewal {
  import opened KeyServer
  import opened WatchdogLock

  const RENEWAL_INTERVAL := 2000

  /** The time does not get further than the renewal interval plus d past the acquisition or
      the last effective renewal of a critical section: d bounds how late a renewal takes effect
      and how long a critical section goes on when its watchdog has ended. */
  ghost predicate RenewedInTime(locks: seq<LockConfig>, events: seq<Event>, d: int) {
    events != [] ==>
      var before := Run(locks, events[..|events| - 1]);
      && RenewedInTime(locks, events[..|events| - 1], d)
      && (events[|events| - 1].Tick? && before.Reached? ==>
            InTime(before.state, before.state.now + events[|events| - 1].elapsed, d))
  }

  ghost predicate InTime(s: State, now: int, d: int) {
    forall o :: 0 <= o < |s.phase| && s.phase[o].Critical? ==> now <= s.phase[o].renewedAt + RENEWAL_INTERVAL + d
  }

  /** Extensions set at least the ttl of the lock object, as those of the watchdog do. */
  ghost predicate FullExtends(locks: seq<LockConfig>, events: seq<Event>) {
    forall i :: 0 <= i < |events| && events[i].Extend? ==>
                  events[i].o < |locks| && locks[events[i].o].ttl <= events[i].ttl
  }

  /** A run that keeps to all this. */
  ghost predicate Watched(locks: seq<LockConfig>, events: seq<Event>, d: int) {
    Run(locks, events).Reached? && RenewedInTime(locks, events, d) && FullExtends(locks, events)
  }

  ghost predicate Tries(locks: seq<LockConfig>, o: nat) {
    o < |locks| && 0 < locks[o].retry
  }

  /** Every critical section owns the key at every moment of the run. */
  ghost predicate AlwaysGuarded(locks: seq<LockConfig>, events: seq<Event>) {
    forall k :: 0 <= k <= |events| ==> GuardedAfter(locks, events, k)
  }

  ghost predicate OneCritical(s: State) {
    forall a, b :: 0 <= a < |s.phase| && 0 <= b < |s.phase| && s.phase[a].Critical? && s.phase[b].Critical? ==> a == b
  }

  // ----- a ttl above interval plus delay is enough -----

  ghost predicate FullLeases(locks: seq<LockConfig>, s: State) {
    forall o :: 0 <= o < |s.phase| ==>
      && (s.phase[o].Locking? || s.phase[o].Critical? ==> Tries(locks, o))
      && (s.phase[o].Critical? ==> o < |locks| && s.phase[o].renewedAt + locks[o].ttl <= s.phase[o].leaseEnd)
  }

  lemma {:induction false} LeasesAreFull(locks: seq<LockConfig>, events: seq<Event>)
    requires FullExtends(locks, events)
    ensures Run(locks, events).Reached? ==> FullLeases(locks, Run(locks, events).state)
  {
    if events != [] {
      var front := events[..|events| - 1];
      assert forall i :: 0 <= i < |front| ==> front[i] == events[i];
      LeasesAreFull(locks, front);
      assert events[|events| - 1].Extend? ==> locks[events[|events| - 1].o].ttl <= events[|events| - 1].ttl;
    }
  }

  lemma {:induction false} InTimeIsTimely(locks: seq<LockConfig>, events: seq<Event>, d: int)
    requires FullExtends(locks, events) && RenewedInTime(locks, events, d)
    requires forall o: nat :: Tries(locks, o) ==> RENEWAL_INTERVAL + d < locks[o].ttl
    ensures Timely(locks, events)
  {
    if events != [] {
      var front := events[..|events| - 1];
      assert forall i :: 0 <= i < |front| ==> front[i] == events[i];
      InTimeIsTimely(locks, front, d);
      LeasesAreFull(locks, front);
    }
  }

  lemma ShortDelayIsSafe(locks: seq<LockConfig>, events: seq<Event>, d: int)
    requires ValidConfig(locks) && Watched(locks, events, d)
    requires forall o: nat :: Tries(locks, o) ==> RENEWAL_INTERVAL + d < locks[o].ttl
    ensures AlwaysGuarded(locks, events) && OneCritical(Run(locks, events).state)
  {
    InTimeIsTimely(locks, events, d);
    GuardedIffTimely(locks, events);
    assert events[..|events|] == events && GuardedAfter(locks, events, |events|);
  }

  // ----- what one renewal achieves -----

  /** Tick i of o's watchdog was executed, and o still owned the key. */
  ghost predicate RenewsAt(locks: seq<LockConfig>, events: seq<Event>, o: nat, i: nat)
    requires i < |events|
  {
    var before := Run(locks, events[..i]);
    && events[i].WatchdogTick? && events[i].o == o && events[i].delivery != NotExecuted
    && before.Reached? && OwnedBy(before.state.entry, o, before.state.now)
  }

  /** Since event i object o has sent nothing that touches the key. */
  ghost predicate UntouchedSince(events: seq<Event>, o: nat, i: nat) {
    forall j :: i < j < |events| && (events[j].SendDelete? || events[j].Extend?) ==> events[j].o != o
  }

  /** A renewal keeps the key for a whole ttl: whatever the others do, o owns it at every time
      before renewal plus ttl, until it gives it back. */
  lemma {:induction false} RenewalLastsTtl(locks: seq<LockConfig>, events: seq<Event>, o: nat, i: nat)
    requires ValidConfig(locks) && Run(locks, events).Reached? && o < |locks| && i < |events|
    requires RenewsAt(locks, events, o, i) && UntouchedSince(events, o, i)
    requires Run(locks, events).state.now < Run(locks, events[..i]).state.now + locks[o].ttl
    ensures OwnedBy(Run(locks, events).state.entry, o, Run(locks, events).state.now)
  {
    assert events[..|events|] == events;
    RenewalLasts(locks, events, o, i, |events|);
  }

  ghost predicate OwnsUntil(s: State, o: nat, t: int) {
    s.now < t ==> s.entry.Key? && s.entry.owner == o && t <= s.entry.expiry
  }

  lemma {:induction false} RenewalLasts(locks: seq<LockConfig>, events: seq<Event>, o: nat, i: nat, k: nat)
    requires ValidConfig(locks) && o < |locks| && i < k <= |events| && Run(locks, events[..k]).Reached?
    requires RenewsAt(locks, events, o, i) && UntouchedSince(events, o, i)
    ensures Run(locks, events[..i]).state.now <= Run(locks, events[..k]).state.now
    ensures OwnsUntil(Run(locks, events[..k]).state, o, Run(locks, events[..i]).state.now + locks[o].ttl)
    decreases k
  {
    assert events[..k][..k - 1] == events[..k - 1];
    var s, t := Run(locks, events[..k - 1]).state, Run(locks, events[..i]).state.now + locks[o].ttl;
    if k == i + 1 {
      assert OwnsUntil(Step(locks, s, events[i]), o, t);
    } else {
      RenewalLasts(locks, events, o, i, k - 1);
      assert events[k - 1].SendDelete? || events[k - 1].Extend? ==> events[k - 1].o != o;
      OthersLeaveIt(locks, s, events[k - 1], o, t);
    }
  }

  lemma OthersLeaveIt(locks: seq<LockConfig>, s: State, e: Event, o: nat, t: int)
    requires ValidConfig(locks) && |s.phase| == |locks| && o < |locks| && Enabled(s, e) && OwnsUntil(s, o, t)
    requires e.SendDelete? || e.Extend? ==> e.o != o
    requires t <= s.now + locks[o].ttl
    ensures OwnsUntil(Step(locks, s, e), o, t)
  {
  }

  // ----- a job of any length -----

  /** The state after n renewals of o, one every two seconds, since it took the key at time 0. */
  function Renewed(locks: seq<LockConfig>, o: nat, n: nat): State
    requires o < |locks|
  {
    var now := 2000 * n;
    State(now, Key(o, now + locks[o].ttl), Init(locks).phase[o := Critical(now, now + locks[o].ttl, true)])
  }

  /** Object o runs in its critical section from time 0 until the last renewal at 2000 * n. */
  ghost predicate LongJob(locks: seq<LockConfig>, events: seq<Event>, o: nat, n: nat) {
    && Watched(locks, events, 0) && AlwaysGuarded(locks, events)
    && (forall i :: 0 <= i < |events| ==> !events[i].Extend?)
    && 2 <= |events| && Run(locks, events[..2]).Reached? && Run(locks, events[..2]).state.now == 0
    && (forall k :: 2 <= k <= |events| ==> CriticalThen(locks, events, o, k))
    && Run(locks, events).state.now == 2000 * n
  }

  ghost predicate CriticalThen(locks: seq<LockConfig>, events: seq<Event>, o: nat, k: nat)
    requires k <= |events|
  {
    var r := Run(locks, events[..k]);
    r.Reached? && o < |r.state.phase| && r.state.phase[o].Critical?
  }

  lemma LongJobGoesOn(locks: seq<LockConfig>, events: seq<Event>, o: nat, n: nat, s: State, e: Event, m: nat)
    returns (events': seq<Event>)
    requires LongJob(locks, events, o, n) && Run(locks, events) == Reached(s) && |s.phase| == |locks|
    requires Enabled(s, e) && !e.Extend? && (e.Tick? ==> InTime(s, s.now + e.elapsed, 0))
    requires var s' := Step(locks, s, e);
             Guarded(s') && s'.now == 2000 * m && o < |s'.phase| && s'.phase[o].Critical?
    ensures LongJob(locks, events', o, m) && Run(locks, events') == Reached(Step(locks, s, e))
  {
    hide Guarded, InTime, Step, Enabled;
    events' := events + [e];
    assert events'[..|events|] == events && events'[..|events'|] == events';
    forall k | 0 <= k <= |events'| ensures GuardedAfter(locks, events', k)
                                   ensures 2 <= k ==> CriticalThen(locks, events', o, k) {
      if k <= |events| {
        assert events'[..k] == events[..k];
        assert GuardedAfter(locks, events, k) && (2 <= k ==> CriticalThen(locks, events, o, k));
      }
    }
    assert events'[..2] == events[..2];
  }

  lemma TakesKey(locks: seq<LockConfig>, o: nat) returns (events: seq<Event>)
    requires ValidConfig(locks) && Tries(locks, o)
    ensures LongJob(locks, events, o, 0) && Run(locks, events) == Reached(Renewed(locks, o, 0))
  {
    var first, second := BeginLock(o), SendSetNX(o, Answered);
    events := [first, second];
    assert events[..0] == [] && events[..1] == [first] && [first][..0] == [] && events[..2] == events;
    var s1 := Step(locks, Init(locks), first);
    assert Run(locks, [first]) == Reached(s1);
    assert Step(locks, s1, second) == Renewed(locks, o, 0);
    assert GuardedAfter(locks, events, 0) && GuardedAfter(locks, events, 1) && GuardedAfter(locks, events, 2);
    assert RenewedInTime(locks, [first], 0) && RenewedInTime(locks, events, 0);
  }

  /** Two seconds go by, and a tick renews the lease. */
  lemma OneInterval(locks: seq<LockConfig>, o: nat, n: nat)
    requires o < |locks| && 2000 < locks[o].ttl
    ensures var s, due := Renewed(locks, o, n), Renewed(locks, o, n).(now := 2000 * (n + 1));
            && Step(locks, s, Tick(2000)) == due && InTime(s, due.now, 0) && Guarded(due)
            && Enabled(due, WatchdogTick(o, Answered))
            && Step(locks, due, WatchdogTick(o, Answered)) == Renewed(locks, o, n + 1)
            && Guarded(Renewed(locks, o, n + 1))
  {
    var due := Renewed(locks, o, n).(now := 2000 * (n + 1));
    assert 2000 * (n + 1) == 2000 * n + 2000;
    assert Step(locks, due, WatchdogTick(o, Answered)).phase == Renewed(locks, o, n + 1).phase;
  }

  /** With a ttl above two seconds the watchdog's ticks alone keep the key for a job of any
      length: object o stays in its critical section, and owns the key, for n intervals. */
  lemma {:induction false} AnyJobIsCovered(locks: seq<LockConfig>, o: nat, n: nat) returns (events: seq<Event>)
    requires ValidConfig(locks) && Tries(locks, o) && 2000 < locks[o].ttl
    ensures LongJob(locks, events, o, n) && Run(locks, events) == Reached(Renewed(locks, o, n))
  {
    if n == 0 {
      events := TakesKey(locks, o);
    } else {
      events := AnyJobIsCovered(locks, o, n - 1);
      hide LongJob, Run, Guarded, InTime, Step;
      var s, due := Renewed(locks, o, n - 1), Renewed(locks, o, n - 1).(now := 2000 * n);
      OneInterval(locks, o, n - 1);
      events := LongJobGoesOn(locks, events, o, n - 1, s, Tick(2000), n);
      events := LongJobGoesOn(locks, events, o, n, due, WatchdogTick(o, Answered), n);
    }
  }

  // ----- a smaller ttl is not -----

  lemma {:induction false} Extended(locks: seq<LockConfig>, events: seq<Event>, s: State, e: Event, d: int)
    returns (events': seq<Event>, s': State)
    requires Run(locks, events) == Reached(s) && RenewedInTime(locks, events, d) && FullExtends(locks, events)
    requires |s.phase| == |locks| && Enabled(s, e) && !e.Extend? && (e.Tick? ==> InTime(s, s.now + e.elapsed, d))
    ensures s' == Step(locks, s, e)
    ensures Run(locks, events') == Reached(s') && RenewedInTime(locks, events', d) && FullExtends(locks, events')
  {
    hide Step, Enabled;
    s' := Step(locks, s, e);
    events' := events + [e];
    assert events'[..|events|] == events;
  }

  /** An attempt on a free key is in its critical section at once. */
  lemma {:induction false} Locked(locks: seq<LockConfig>, events: seq<Event>, s: State, o: nat, d: int)
    returns (events': seq<Event>, s': State)
    requires Run(locks, events) == Reached(s) && RenewedInTime(locks, events, d) && FullExtends(locks, events)
    requires |s.phase| == |locks| && Tries(locks, o) && s.phase[o].Idle? && !Live(s.entry, s.now)
    ensures Run(locks, events') == Reached(s') && RenewedInTime(locks, events', d) && FullExtends(locks, events')
    ensures var end := s.now + locks[o].ttl;
            s' == State(s.now, Key(o, end), s.phase[o := Critical(s.now, end, true)])
  {
    hide Run, RenewedInTime, FullExtends;
    events', s' := Extended(locks, events, s, BeginLock(o), d);
    events', s' := Extended(locks, events', s', SendSetNX(o, Answered), d);
  }

  /** If a renewal may take effect as late as the ttl, the key is free by then, and another
      object is in its critical section before a has left its own. */
  lemma {:induction false} LateRenewalOverlaps(locks: seq<LockConfig>, a: nat, b: nat, d: int)
    returns (events: seq<Event>)
    requires ValidConfig(locks) && Tries(locks, a) && Tries(locks, b) && a != b
    requires locks[a].ttl <= RENEWAL_INTERVAL + d
    ensures Watched(locks, events, d) && !OneCritical(Run(locks, events).state)
    ensures !AlwaysGuarded(locks, events)
  {
    hide Run;
    var s: State;
    assert Run(locks, []) == Reached(Init(locks)) by {
      InitialRun(locks);
    }
    events, s := Locked(locks, [], Init(locks), a, d);
    events, s := Extended(locks, events, s, Tick(locks[a].ttl), d);
    events, s := Locked(locks, events, s, b, d);
    assert s.phase[a].Critical? && s.phase[b].Critical?;
    assert !OwnedBy(s.entry, a, s.now);
    assert events[..|events|] == events && !GuardedAfter(locks, events, |events|);
  }

  lemma InitialRun(locks: seq<LockConfig>)
    ensures Run(locks, []) == Reached(Init(locks))
  {
  }

  /** Critical sections whose renewals take effect at most d late keep the key, and never
      overlap, in all runs exactly when two seconds and d are less than every ttl. */
  lemma SafeIffTtlAboveInterval(locks: seq<LockConfig>, a: nat, b: nat, d: int)
    requires ValidConfig(locks) && Tries(locks, a) && Tries(locks, b) && a != b
    ensures (forall events :: Watched(locks, events, d) ==> AlwaysGuarded(locks, events)) <==>
            (forall o: nat :: Tries(locks, o) ==> RENEWAL_INTERVAL + d < locks[o].ttl)
    ensures (forall events :: Watched(locks, events, d) ==> OneCritical(Run(locks, events).state)) <==>
            (forall o: nat :: Tries(locks, o) ==> RENEWAL_INTERVAL + d < locks[o].ttl)
  {
    if forall o: nat :: Tries(locks, o) ==> RENEWAL_INTERVAL + d < locks[o].ttl {
      forall events | Watched(locks, events, d)
        ensures AlwaysGuarded(locks, events) && OneCritical(Run(locks, events).state)
      {
        ShortDelayIsSafe(locks, events, d);
      }
    } else {
      var o: nat :| Tries(locks, o) && locks[o].ttl <= RENEWAL_INTERVAL + d;
      var events := LateRenewalOverlaps(locks, o, if o == a then b else a, d);
    }
  }

  /** Renewals that are never late do not help a lock whose ttl is two seconds or less. */
  lemma {:induction false} TwoSecondTtlOverlaps(locks: seq<LockConfig>, a: nat, b: nat) returns (events: seq<Event>)
    requires ValidConfig(locks) && Tries(locks, a) && Tries(locks, b) && a != b
    requires locks[a].ttl <= RENEWAL_INTERVAL
    ensures Watched(locks, events, 0) && !OneCritical(Run(locks, events).state)
  {
    events := LateRenewalOverlaps(locks, a, b, 0);
  }
}
