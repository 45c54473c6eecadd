/** RedLock.Lock and RedLock.Unlock as the loops they are, running against a world in
    which the other lock objects move between any two commands. */
module RedLockProgram {
  import opened KeyServer
  import opened RedLock
  import opened RedLockHold

  /** An event that does not move object me. */
  predicate OfOthers(e: Event, me: nat) {
    e.Tick? || e.o != me
  }

  datatype Command = Set | Delete

  predicate Sends(e: Event, me: nat, c: Command) {
    match c
    case Set => e.SendSetNX? && e.o == me
    case Delete => e.SendDelete? && e.o == me
  }

  /** How many of these commands object me has sent. */
  function Sent(events: seq<Event>, me: nat, c: Command): nat {
    if events == [] then 0
    else Sent(events[..|events| - 1], me, c) + (if Sends(events[|events| - 1], me, c) then 1 else 0)
  }

  lemma SentAfter(events: seq<Event>, e: Event)
    ensures forall me, c :: Sent(events + [e], me, c) == Sent(events, me, c) + (if Sends(e, me, c) then 1 else 0)
  {
    assert (events + [e])[..|events|] == events;
  }

  /** The positions, among the first k of the client list, whose key is free and whose command,
      the (from + j)-th, is answered. */
  ghost function Won(cfg: Config, s: State, network: nat -> Delivery, from: nat, k: nat): set<nat>
    requires Shape(cfg, s) && k <= |cfg.clients|
  {
    set j: nat | j < k && network(from + j) == Answered && !Live(s.servers[cfg.clients[j]], s.now)
  }

  /** More than half of the clients answer that they set the key. */
  ghost predicate MajorityWon(cfg: Config, s: State, network: nat -> Delivery, from: nat)
    requires Shape(cfg, s)
  {
    |cfg.clients| < 2 * |Won(cfg, s, network, from, |cfg.clients|)|
  }

  lemma WonNext(cfg: Config, s: State, network: nat -> Delivery, from: nat, k: nat)
    requires Shape(cfg, s) && k < |cfg.clients|
    ensures var before := Won(cfg, s, network, from, k);
            && k !in before
            && Won(cfg, s, network, from, k + 1) ==
               if network(from + k) == Answered && !Live(s.servers[cfg.clients[k]], s.now) then before + {k} else before
  {
  }

  /** Between s0 and s only my first k commands were sent. */
  ghost predicate Asked(cfg: Config, s0: State, s: State, me: nat, network: nat -> Delivery, from: nat, k: nat)
    requires Shape(cfg, s0) && Shape(cfg, s) && me < |cfg.locks| && k <= |cfg.clients|
  {
    && s.now == s0.now
    && s.phase[me].Setting? && s.phase[me].next == k
    && s.phase[me].grants == Won(cfg, s0, network, from, k)
    && s.phase[me].successCount == |Won(cfg, s0, network, from, k)|
    && forall j :: k <= j < |cfg.clients| ==> s.servers[cfg.clients[j]] == s0.servers[cfg.clients[j]]
  }

  lemma NotAskedYet(cfg: Config, s: State, me: nat, network: nat -> Delivery, from: nat)
    requires Shape(cfg, s) && me < |cfg.locks| && s.phase[me].Setting? && s.phase[me].next == 0
    requires s.phase[me].grants == {} && s.phase[me].successCount == 0
    ensures Asked(cfg, s, s, me, network, from, 0)
  {
    assert Won(cfg, s, network, from, 0) == {};
  }

  lemma SameWon(cfg: Config, s: State, s': State, network: nat -> Delivery, from: nat)
    requires Shape(cfg, s) && Shape(cfg, s') && s'.servers == s.servers && s'.now == s.now
    ensures MajorityWon(cfg, s', network, from) == MajorityWon(cfg, s, network, from)
  {
    assert Won(cfg, s', network, from, |cfg.clients|) == Won(cfg, s, network, from, |cfg.clients|);
  }

  lemma AskedAll(cfg: Config, s0: State, s: State, me: nat, network: nat -> Delivery, from: nat)
    requires Shape(cfg, s0) && Shape(cfg, s) && me < |cfg.locks| && s.phase[me].Setting?
    ensures Asked(cfg, s0, s, me, network, from, |cfg.clients|) ==>
              s.phase[me].successCount == |Won(cfg, s0, network, from, |cfg.clients|)|
  {
  }

  lemma AskOne(cfg: Config, s0: State, s: State, me: nat, network: nat -> Delivery, from: nat, k: nat)
    requires Shape(cfg, s0) && Shape(cfg, s) && me < |cfg.locks| && k < |cfg.clients| && Independent(cfg)
    requires Asked(cfg, s0, s, me, network, from, k)
    ensures Shape(cfg, Step(cfg, s, SendSetNX(me, network(from + k))))
    ensures Asked(cfg, s0, Step(cfg, s, SendSetNX(me, network(from + k))), me, network, from, k + 1)
  {
    StepShape(cfg, s, SendSetNX(me, network(from + k)));
    WonNext(cfg, s0, network, from, k);
    hide Won;
    assert forall j :: k < j < |cfg.clients| ==> cfg.clients[k] != cfg.clients[j];
  }

  /** A release that has sent its first k commands. */
  function AtPosition(p: Phase, k: nat): Phase {
    match p
    case Clearing(attempt, _) => Clearing(attempt, k)
    case Unlocking(_) => Unlocking(k)
    case _ => p
  }

  /** None of the first k positions whose command was executed is mine. */
  ghost predicate Released(cfg: Config, s: State, me: nat, network: nat -> Delivery, from: nat, k: nat)
    requires Shape(cfg, s) && k <= |cfg.clients|
  {
    forall j: nat :: j < k && network(from + j) != NotExecuted ==> !OwnedBy(s.servers[cfg.clients[j]], me, s.now)
  }

  /** Each server is as it was, or its key was mine and is free. */
  ghost predicate Freed(cfg: Config, s0: State, s: State, me: nat)
    requires Shape(cfg, s0) && Shape(cfg, s)
  {
    && s.now == s0.now
    && forall i :: 0 <= i < cfg.servers ==>
         s.servers[i] == s0.servers[i] || (OwnedBy(s0.servers[i], me, s0.now) && !Live(s.servers[i], s.now))
  }

  lemma NothingReleased(cfg: Config, s: State, me: nat, network: nat -> Delivery, from: nat)
    requires Shape(cfg, s)
    ensures Released(cfg, s, me, network, from, 0) && Freed(cfg, s, s, me)
  {
  }

  lemma OthersReleaseToo(cfg: Config, before: State, s: State, me: nat, network: nat -> Delivery, from: nat, k: nat)
    requires Shape(cfg, before) && Shape(cfg, s) && k <= |cfg.clients| && GainsNothing(before, s, me)
    requires Released(cfg, before, me, network, from, k)
    ensures Released(cfg, s, me, network, from, k)
  {
  }

  lemma SameServers(cfg: Config, before: State, s: State, me: nat, network: nat -> Delivery, from: nat, k: nat)
    requires Shape(cfg, before) && Shape(cfg, s) && k <= |cfg.clients|
    requires s.servers == before.servers && s.now == before.now
    ensures Released(cfg, before, me, network, from, k) ==> Released(cfg, s, me, network, from, k)
  {
  }

  lemma ReleaseOne(cfg: Config, s0: State, s: State, me: nat, network: nat -> Delivery, from: nat, k: nat)
    requires Shape(cfg, s0) && Shape(cfg, s) && k < |cfg.clients| && Released(cfg, s, me, network, from, k)
    requires me < |s.phase| && (s.phase[me].Clearing? || s.phase[me].Unlocking?) && s.phase[me].next == k
    ensures Shape(cfg, Step(cfg, s, SendDelete(me, network(from + k))))
    ensures var s' := Step(cfg, s, SendDelete(me, network(from + k)));
            && Released(cfg, s', me, network, from, k + 1)
            && (Freed(cfg, s0, s, me) ==> Freed(cfg, s0, s', me))
  {
    StepShape(cfg, s, SendDelete(me, network(from + k)));
  }

  /** Nobody else gives a key to me, and neither does time. */
  lemma OnlyISet(cfg: Config, s: State, e: Event, me: nat, i: nat)
    requires Shape(cfg, s) && Enabled(cfg, s, e) && i < cfg.servers && OfOthers(e, me)
    ensures OwnedBy(Step(cfg, s, e).servers[i], me, Step(cfg, s, e).now) ==> OwnedBy(s.servers[i], me, s.now)
  {
  }

  ghost predicate GainsNothing(before: State, now: State, me: nat) {
    && |now.servers| == |before.servers|
    && forall i :: 0 <= i < |now.servers| && OwnedBy(now.servers[i], me, now.now) ==>
                     OwnedBy(before.servers[i], me, before.now)
  }

  lemma StepGainsNothing(cfg: Config, s0: State, s: State, e: Event, me: nat)
    requires Shape(cfg, s) && Enabled(cfg, s, e) && OfOthers(e, me) && GainsNothing(s0, s, me)
    ensures GainsNothing(s0, Step(cfg, s, e), me)
  {
    StepShape(cfg, s, e);
    forall i | 0 <= i < |s.servers| && OwnedBy(Step(cfg, s, e).servers[i], me, Step(cfg, s, e).now)
      ensures OwnedBy(s0.servers[i], me, s0.now)
    {
      OnlyISet(cfg, s, e, me, i);
    }
  }

  lemma NothingGained(s: State, me: nat)
    ensures GainsNothing(s, s, me)
  {
  }

  /** `environment` is what the other objects and the clock try to do between two commands of
      the object whose program runs; nothing is assumed about it. */
  class World {
    const cfg: Config
    const environment: nat -> seq<Event>
    var turn: nat
    var state: State
    ghost var history: seq<Event>

    ghost predicate Valid()
      reads this
    {
      cfg.Valid() && Run(cfg, history) == Reached(state)
    }

    constructor (cfg: Config, environment: nat -> seq<Event>)
      requires cfg.Valid()
      ensures Valid() && this.cfg == cfg && this.environment == environment && history == []
    {
      this.cfg, this.environment, turn, state, history := cfg, environment, 0, Init(cfg), [];
    }

    /** One event of the transition system. */
    method Do(e: Event)
      requires Valid() && Enabled(cfg, state, e)
      modifies this
      ensures Valid() && history == old(history) + [e]
      ensures state == Step(cfg, old(state), e)
      ensures forall me, c :: Sent(history, me, c) == Sent(old(history), me, c) + (if Sends(e, me, c) then 1 else 0)
    {
      hide Sent, Sends;
      StepShape(cfg, state, e);
      SentAfter(history, e);
      state := Step(cfg, state, e);
      history := history + [e];
      assert history[..|history| - 1] == old(history);
    }

    /** The environment never does anything. */
    ghost predicate Quiet() {
      forall k: nat :: environment(k) == []
    }

    /** Whatever the environment has in mind for this turn, as far as it is possible. */
    method Others(me: nat)
      requires Valid() && me < |state.phase|
      modifies this
      ensures Valid() && old(history) <= history
      ensures state.phase[me] == old(state.phase[me])
      ensures old(state.now) <= state.now
      ensures forall c :: Sent(history, me, c) == Sent(old(history), me, c)
      ensures GainsNothing(old(state), state, me)
      ensures Quiet() ==> state == old(state)
    {
      hide Run, Sent, GainsNothing;
      ghost var s0 := state;
      NothingGained(s0, me);
      var events := environment(turn);
      turn := turn + 1;
      for i := 0 to |events|
        invariant Valid() && old(history) <= history
        invariant |state.phase| == |cfg.locks| && state.phase[me] == old(state.phase[me])
        invariant old(state.now) <= state.now
        invariant forall c :: Sent(history, me, c) == Sent(old(history), me, c)
        invariant GainsNothing(s0, state, me)
        invariant events == [] ==> state == s0
      {
        if Enabled(cfg, state, events[i]) && OfOthers(events[i], me) {
          StepGainsNothing(cfg, s0, state, events[i], me);
          Do(events[i]);
        }
      }
    }
  }

  lemma Exclusive(cfg: Config, history: seq<Event>, me: nat)
    requires cfg.Valid() && Run(cfg, history).Reached?
    ensures var s := Run(cfg, history).state;
            InLease(cfg, s, me) ==> forall b: nat :: b != me ==> !InLease(cfg, s, b)
  {
    forall b: nat | b != me
      ensures var s := Run(cfg, history).state; !(InLease(cfg, s, me) && InLease(cfg, s, b))
    {
      MutualExclusion(cfg, history, me, b);
    }
  }

  /** `network` says what happens to the commands, one after the other. */
  class Client {
    const world: World
    const me: nat
    const network: nat -> Delivery
    var sent: nat

    constructor (world: World, me: nat, network: nat -> Delivery)
      requires world.Valid() && me < |world.cfg.locks|
      ensures this.world == world && this.me == me && Ready()
    {
      this.world, this.me, this.network, this.sent := world, me, network, 0;
    }

    ghost predicate Ready()
      reads this, world
    {
      world.Valid() && me < |world.cfg.locks|
    }

    /** The loop of Lock over the clients: one SetNX each, counting the successes. */
    method SetAll() returns (successCount: nat)
      requires Ready()
      requires world.state.phase[me].Setting?
      requires world.state.phase[me].next == 0 && world.state.phase[me].successCount == 0
      requires world.state.phase[me].grants == {}
      modifies this, world
      ensures Ready() && old(world.history) <= world.history
      ensures old(world.state.now) <= world.state.now
      ensures world.state.phase[me].Setting?
      ensures world.state.phase[me] == old(world.state.phase[me])
                .(next := |world.cfg.clients|, successCount := successCount,
                  grants := world.state.phase[me].grants)
      ensures Sent(world.history, me, Set) == Sent(old(world.history), me, Set) + |world.cfg.clients|
      ensures sent == old(sent) + |world.cfg.clients|
      ensures world.Quiet() && Independent(world.cfg) ==>
                successCount == |Won(world.cfg, old(world.state), network, old(sent), |world.cfg.clients|)|
    {
      hide Run, Sent, Won, Asked, GainsNothing, Independent, World.Quiet;
      successCount := 0;
      ghost var s0 := world.state;
      NotAskedYet(world.cfg, s0, me, network, sent);
      for k := 0 to |world.cfg.clients|
        invariant Ready() && old(world.history) <= world.history
        invariant old(world.state.now) <= world.state.now
        invariant world.state.phase[me].Setting?
        invariant world.state.phase[me] == old(world.state.phase[me])
                    .(next := k, successCount := successCount, grants := world.state.phase[me].grants)
        invariant Sent(world.history, me, Set) == Sent(old(world.history), me, Set) + k
        invariant sent == old(sent) + k
        invariant world.Quiet() && Independent(world.cfg) ==>
                    Asked(world.cfg, s0, world.state, me, network, old(sent), k)
      {
        var success := SetOne(k, old(sent), s0);
        if success {
          successCount := successCount + 1;
        }
      }
      AskedAll(world.cfg, s0, world.state, me, network, old(sent));
    }

    /** One SetNX, after whatever the others do. */
    method SetOne(ghost k: nat, ghost from: nat, ghost s0: State) returns (success: bool)
      requires Ready() && Shape(world.cfg, s0) && sent == from + k && k < |world.cfg.clients|
      requires world.state.phase[me].Setting? && world.state.phase[me].next == k
      requires world.Quiet() && Independent(world.cfg) ==> Asked(world.cfg, s0, world.state, me, network, from, k)
      modifies this, world
      ensures Ready() && old(world.history) <= world.history
      ensures old(world.state.now) <= world.state.now && sent == old(sent) + 1
      ensures world.state.phase[me].Setting?
      ensures world.state.phase[me] == old(world.state.phase[me])
                .(next := k + 1, grants := world.state.phase[me].grants,
                  successCount := old(world.state.phase[me].successCount) + (if success then 1 else 0))
      ensures Sent(world.history, me, Set) == Sent(old(world.history), me, Set) + 1
      ensures world.Quiet() && Independent(world.cfg) ==>
                Asked(world.cfg, s0, world.state, me, network, from, k + 1)
    {
      hide Run, Sent, Won, Asked, GainsNothing, Independent, World.Quiet;
      var successCount := world.state.phase[me].successCount;
      world.Others(me);
      if world.Quiet() && Independent(world.cfg) {
        AskOne(world.cfg, s0, world.state, me, network, from, k);
      }
      world.Do(SendSetNX(me, network(sent)));
      sent := sent + 1;
      success := successCount < world.state.phase[me].successCount;
    }

    /** A true answer means Held, with a start inside the call; nobody else is then in lease
        as long as this object is.  If nobody else does anything, a majority of free servers
        that answer is enough, and with a single attempt nothing less is. */
    method Lock() returns (ok: bool)
      requires Ready() && (world.state.phase[me].Idle? || world.state.phase[me].Held?)
      modifies this, world
      ensures Ready() && old(world.history) <= world.history
      ensures if ok then world.state.phase[me].Held? else world.state.phase[me].Idle?
      ensures ok ==> old(world.state.now) <= world.state.phase[me].start <= world.state.now
      ensures !ok ==> Sent(world.history, me, Set) ==
                      Sent(old(world.history), me, Set) + world.cfg.locks[me].retry * |world.cfg.clients|
      ensures ok && InLease(world.cfg, world.state, me) ==>
                forall b: nat :: b != me ==> !InLease(world.cfg, world.state, b)
      ensures world.Quiet() && Independent(world.cfg) ==>
                (0 < world.cfg.locks[me].retry && MajorityWon(world.cfg, old(world.state), network, old(sent)) ==> ok)
      ensures world.Quiet() && Independent(world.cfg) && world.cfg.locks[me].retry == 1 ==>
                (ok <==> MajorityWon(world.cfg, old(world.state), network, old(sent)))
    {
      hide Run, Sent, MajorityWon, Independent, World.Quiet;
      ghost var won := MajorityWon(world.cfg, world.state, network, sent);
      world.Do(BeginLock(me));
      SameWon(world.cfg, old(world.state), world.state, network, sent);
      for i := 0 to world.cfg.locks[me].retry
        invariant Ready() && old(world.history) <= world.history
        invariant old(world.state.now) <= world.state.now
        invariant world.state.phase[me] == StartAttempt(world.cfg, world.state, me, i)
        invariant Sent(world.history, me, Set) == Sent(old(world.history), me, Set) + i * |world.cfg.clients|
        invariant i == 0 ==> MajorityWon(world.cfg, world.state, network, sent) == won
        invariant world.Quiet() && Independent(world.cfg) && 0 < i ==> !won
      {
        ok := Attempt(i);
        if ok {
          Exclusive(world.cfg, world.history, me);
          return true;
        }
        assert (i + 1) * |world.cfg.clients| == i * |world.cfg.clients| + |world.cfg.clients|;
      }
      return false;
    }

    /** One round of the retry loop. */
    method Attempt(i: nat) returns (ok: bool)
      requires Ready() && world.state.phase[me] == Setting(i, 0, 0, {}, world.state.now)
      modifies this, world
      ensures Ready() && old(world.history) <= world.history && old(world.state.now) <= world.state.now
      ensures ok ==> world.state.phase[me].Held? && world.state.phase[me].start == old(world.state.now)
      ensures !ok ==> world.state.phase[me] == StartAttempt(world.cfg, world.state, me, i + 1)
      ensures !ok ==> Sent(world.history, me, Set) == Sent(old(world.history), me, Set) + |world.cfg.clients|
      ensures world.Quiet() && Independent(world.cfg) ==>
                (ok <==> MajorityWon(world.cfg, old(world.state), network, old(sent)))
    {
      hide Run, Sent, Won, GainsNothing, Independent, World.Quiet;
      var successCount := SetAll();
      world.Others(me);
      world.Do(Decide(me));
      if successCount > |world.cfg.clients| / 2 {
        return true;
      }
      DeleteAll();
      world.Others(me);
      world.Do(EndAttempt(me));
      return false;
    }

    /** The loop of Unlock, shared by the release of a failed attempt. */
    method DeleteAll()
      requires Ready()
      requires world.state.phase[me].Clearing? || world.state.phase[me].Unlocking?
      requires world.state.phase[me].next == 0
      modifies this, world
      ensures Ready() && old(world.history) <= world.history
      ensures old(world.state.now) <= world.state.now
      ensures world.state.phase[me] == AtPosition(old(world.state.phase[me]), |world.cfg.clients|)
      ensures Sent(world.history, me, Delete) == Sent(old(world.history), me, Delete) + |world.cfg.clients|
      ensures Sent(world.history, me, Set) == Sent(old(world.history), me, Set)
      ensures sent == old(sent) + |world.cfg.clients|
      ensures Released(world.cfg, world.state, me, network, old(sent), |world.cfg.clients|)
      ensures world.Quiet() ==> Freed(world.cfg, old(world.state), world.state, me)
    {
      hide Run, Sent, GainsNothing, Released, Freed, World.Quiet;
      ghost var s0 := world.state;
      NothingReleased(world.cfg, s0, me, network, sent);
      for k := 0 to |world.cfg.clients|
        invariant Ready() && old(world.history) <= world.history
        invariant old(world.state.now) <= world.state.now
        invariant world.state.phase[me] == AtPosition(old(world.state.phase[me]), k)
        invariant Sent(world.history, me, Delete) == Sent(old(world.history), me, Delete) + k
        invariant Sent(world.history, me, Set) == Sent(old(world.history), me, Set)
        invariant sent == old(sent) + k
        invariant Released(world.cfg, world.state, me, network, old(sent), k)
        invariant world.Quiet() ==> Freed(world.cfg, s0, world.state, me)
      {
        ghost var before := world.state;
        world.Others(me);
        OthersReleaseToo(world.cfg, before, world.state, me, network, old(sent), k);
        ReleaseOne(world.cfg, s0, world.state, me, network, old(sent), k);
        world.Do(SendDelete(me, network(sent)));
        sent := sent + 1;
      }
    }

    /** Whatever the others do, no key whose command was executed is still mine; if they do
        nothing, the keys that were mine are free and the others as they were. */
    method Unlock()
      requires Ready() && (world.state.phase[me].Idle? || world.state.phase[me].Held?)
      modifies this, world
      ensures Ready() && old(world.history) <= world.history
      ensures world.state.phase[me] == Idle
      ensures Sent(world.history, me, Delete) == Sent(old(world.history), me, Delete) + |world.cfg.clients|
      ensures Released(world.cfg, world.state, me, network, old(sent), |world.cfg.clients|)
      ensures world.Quiet() ==> Freed(world.cfg, old(world.state), world.state, me)
    {
      hide Run, Sent, GainsNothing, Released, World.Quiet;
      world.Do(BeginUnlock(me));
      DeleteAll();
      ghost var before := world.state;
      world.Others(me);
      OthersReleaseToo(world.cfg, before, world.state, me, network, old(sent), |world.cfg.clients|);
      before := world.state;
      world.Do(EndUnlock(me));
      SameServers(world.cfg, before, world.state, me, network, old(sent), |world.cfg.clients|);
    }
  }
}
