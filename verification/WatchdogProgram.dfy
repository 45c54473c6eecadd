/** RedisLock.Lock and WithWatchdogLock as programs over the transition system. */
module WatchdogProgram {
  import opened WatchdogLock
  import opened KeyServer

  /** An event that may come between two statements of object me: anything of the others, and
      of its own only what its watchdog does. */
  predicate InBetween(e: Event, me: nat) {
    e.Tick? || e.o != me || e.WatchdogTick? || e.Extend?
  }

  /** How many SetNX commands object me has sent. */
  function Sets(events: seq<Event>, me: nat): nat {
    if events == [] then 0
    else
      var last := events[|events| - 1];
      Sets(events[..|events| - 1], me) + (if last.SendSetNX? && last.o == me then 1 else 0)
  }

  lemma SetsAfter(events: seq<Event>, e: Event)
    ensures forall me :: Sets(events + [e], me) == Sets(events, me) + (if e.SendSetNX? && e.o == me then 1 else 0)
  {
    assert (events + [e])[..|events|] == events;
  }

  /** `environment` is what the other objects, the watchdogs and the clock try to do between
      two statements of the object whose program runs; nothing is assumed about it. */
  class World {
    const locks: seq<LockConfig>
    const environment: nat -> seq<Event>
    var turn: nat
    var state: State
    ghost var history: seq<Event>

    ghost predicate Valid()
      reads this
    {
      ValidConfig(locks) && Run(locks, history) == Reached(state)
    }

    constructor (locks: seq<LockConfig>, environment: nat -> seq<Event>)
      requires ValidConfig(locks)
      ensures Valid() && this.locks == locks && this.environment == environment && history == []
    {
      this.locks, this.environment, turn, state, history := locks, environment, 0, Init(locks), [];
    }

    method Do(e: Event)
      requires Valid() && Enabled(state, e)
      modifies this
      ensures Valid() && history == old(history) + [e]
      ensures state == Step(locks, old(state), e)
      ensures forall me ::
                Sets(history, me) == Sets(old(history), me) + (if e.SendSetNX? && e.o == me then 1 else 0)
    {
      hide Sets, Step, Enabled;
      SetsAfter(history, e);
      state := Step(locks, state, e);
      history := history + [e];
      assert history[..|history| - 1] == old(history);
    }

    /** The environment never does anything. */
    ghost predicate Quiet() {
      forall k: nat :: environment(k) == []
    }

    /** Whatever the environment has in mind for this turn, as far as it is possible. */
    method Others(me: nat)
      requires Valid() && me < |state.phase|
      modifies this
      ensures Valid() && old(history) <= history
      ensures old(state.phase[me]).Critical? <==> state.phase[me].Critical?
      ensures !old(state.phase[me]).Critical? ==> state.phase[me] == old(state.phase[me])
      ensures Sets(history, me) == Sets(old(history), me)
      ensures Quiet() ==> state == old(state)
    {
      hide Run, Sets;
      var events := environment(turn);
      turn := turn + 1;
      for i := 0 to |events|
        invariant Valid() && old(history) <= history && |state.phase| == |locks|
        invariant old(state.phase[me]).Critical? <==> state.phase[me].Critical?
        invariant !old(state.phase[me]).Critical? ==> state.phase[me] == old(state.phase[me])
        invariant Sets(history, me) == Sets(old(history), me)
        invariant events == [] ==> state == old(state)
      {
        if Enabled(state, events[i]) && InBetween(events[i], me) {
          Do(events[i]);
        }
      }
    }
  }

  class Client {
    const world: World
    const me: nat
    const network: nat -> Delivery
    var sent: nat

    ghost predicate Ready()
      reads this, world
    {
      world.Valid() && me < |world.locks|
    }

    constructor (world: World, me: nat, network: nat -> Delivery)
      requires world.Valid() && me < |world.locks|
      ensures this.world == world && this.me == me && Ready()
    {
      this.world, this.me, this.network, this.sent := world, me, network, 0;
    }

    /** A true answer is given at the moment the key is set, with the full lease ahead.  If nobody
        else does anything, a free key and an answer are enough, and a single attempt needs both. */
    method Lock() returns (ok: bool)
      requires Ready() && world.state.phase[me].Idle?
      modifies this, world
      ensures Ready() && old(world.history) <= world.history
      ensures ok ==> world.state.phase[me] ==
                     Critical(world.state.now, world.state.now + world.locks[me].ttl, true)
      ensures ok ==> OwnedBy(world.state.entry, me, world.state.now)
      ensures !ok ==> world.state.phase[me] == Idle
      ensures !ok ==> Sets(world.history, me) == Sets(old(world.history), me) + world.locks[me].retry
      ensures world.Quiet() && !old(Live(world.state.entry, world.state.now)) && 0 < world.locks[me].retry &&
                network(old(sent)) == Answered ==>
              ok
      ensures world.Quiet() && world.locks[me].retry == 1 ==>
                (ok <==> !old(Live(world.state.entry, world.state.now)) && network(old(sent)) == Answered)
    {
      hide Run, Sets, World.Quiet;
      world.Do(BeginLock(me));
      for i := 0 to world.locks[me].retry
        invariant Ready() && old(world.history) <= world.history
        invariant world.state.phase[me] == NextAttempt(world.locks, me, i)
        invariant Sets(world.history, me) == Sets(old(world.history), me) + i
        invariant i == 0 ==> sent == old(sent) && world.state == Step(world.locks, old(world.state), BeginLock(me))
        invariant 0 < i ==> !(world.Quiet() && !old(Live(world.state.entry, world.state.now))
                              && network(old(sent)) == Answered)
      {
        world.Others(me);
        world.Do(SendSetNX(me, network(sent)));
        sent := sent + 1;
        var success := world.state.phase[me].Critical?;
        if success {
          return true;
        }
      }
      return false;
    }

    /** fn runs in Critical only; whatever happens, the object is idle afterwards, and the key is
        not its own any more unless the delete was not executed.  In a timely history nobody
        else was critical at any moment of the call. */
    method WithWatchdogLock() returns (ran: bool)
      requires Ready() && world.state.phase[me].Idle?
      modifies this, world
      ensures Ready() && old(world.history) <= world.history
      ensures world.state.phase[me].Idle?
      ensures !ran ==> Sets(world.history, me) == Sets(old(world.history), me) + world.locks[me].retry
      ensures ran ==> 0 < sent
      ensures ran && network(sent - 1) != NotExecuted ==> !OwnedBy(world.state.entry, me, world.state.now)
      ensures ran ==> exists k | |old(world.history)| <= k <= |world.history| ::
                        CriticalAt(world.locks, world.history[..k], me)
      ensures Timely(world.locks, world.history) && PositiveExtends(world.history) ==>
                forall k, b: nat | 0 <= k <= |world.history| && b != me ::
                  !(CriticalAt(world.locks, world.history[..k], me) &&
                    CriticalAt(world.locks, world.history[..k], b))
    {
      hide Run, Sets, Timely, PositiveExtends;
      ran := Lock();
      ghost var k := |world.history|;
      ghost var atLock := world.history;
      assert ran ==> CriticalAt(world.locks, atLock, me);
      hide CriticalAt;
      if ran {
        RunAndRelease();
      }
      assert world.history[..k] == atLock;
      NeverShared(world.locks, world.history, me);
    }

    /** fn runs, the watchdog is stopped and the key is deleted. */
    method RunAndRelease()
      requires Ready() && world.state.phase[me].Critical?
      modifies this, world
      ensures Ready() && old(world.history) <= world.history
      ensures world.state.phase[me].Idle?
      ensures 0 < sent
      ensures network(sent - 1) != NotExecuted ==> !OwnedBy(world.state.entry, me, world.state.now)
    {
      hide Run, Sets;
      world.Others(me);
      world.Do(StopWatchdog(me));
      world.Do(BeginUnlock(me));
      world.Others(me);
      world.Do(SendDelete(me, network(sent)));
      sent := sent + 1;
    }
  }

  ghost predicate CriticalAt(locks: seq<LockConfig>, events: seq<Event>, o: nat) {
    var r := Run(locks, events);
    r.Reached? && o < |r.state.phase| && r.state.phase[o].Critical?
  }

  lemma {:induction false} NeverShared(locks: seq<LockConfig>, events: seq<Event>, me: nat)
    requires ValidConfig(locks) && me < |locks|
    ensures Timely(locks, events) && PositiveExtends(events) ==>
              forall k, b: nat | 0 <= k <= |events| && b != me ::
                !(CriticalAt(locks, events[..k], me) && CriticalAt(locks, events[..k], b))
  {
    if Timely(locks, events) && PositiveExtends(events) {
      GuardedIffTimely(locks, events);
      forall k, b: nat | 0 <= k <= |events| && b != me
        ensures !(CriticalAt(locks, events[..k], me) && CriticalAt(locks, events[..k], b))
      {
        assert GuardedAfter(locks, events, k);
      }
    }
  }
}
