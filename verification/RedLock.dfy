/** The quorum lock as a transition system.
    One event is one command on one server, one branch of the client's loop, or the
    passing of time, so a list of events is one interleaving of all lock objects. */
module RedLock {
  import opened KeyServer

  /** The settings of one lock object. */
  datatype LockConfig = LockConfig(ttl: int, retry: nat)

  /** All lock objects of one key use the same client list; a list may name a server twice. */
  datatype Config = Config(servers: nat, clients: seq<nat>, locks: seq<LockConfig>) {
    predicate Valid() {
      && (forall j :: 0 <= j < |clients| ==> clients[j] < servers)
      && (forall o :: 0 <= o < |locks| ==> 0 < locks[o].ttl)
    }
  }

  /** Where a lock object is in its program.  `grants` are the positions in the client
      list that answered "set"; `start` is the time at which the attempt began. */
  datatype Phase =
    | Idle
    | Setting(attempt: nat, next: nat, successCount: nat, grants: set<nat>, start: int)
    | Clearing(attempt: nat, next: nat)
    | Held(grants: set<nat>, start: int)
    | Unlocking(next: nat)

  datatype State = State(now: int, servers: seq<Entry>, phase: seq<Phase>)

  /** A command can be lost before it runs, run with its reply lost, or run and be answered. */
  datatype Delivery = NotExecuted | ReplyLost | Answered

  datatype Event =
    | Tick(elapsed: nat)
    | BeginLock(o: nat)
    | SendSetNX(o: nat, delivery: Delivery)
    | Decide(o: nat)
    | SendDelete(o: nat, delivery: Delivery)
    | EndAttempt(o: nat)
    | BeginUnlock(o: nat)
    | EndUnlock(o: nat)

  function Init(cfg: Config): State {
    State(0, seq(cfg.servers, _ => Absent), seq(|cfg.locks|, _ => Idle))
  }

  predicate Shape(cfg: Config, s: State) {
    && cfg.Valid()
    && |s.servers| == cfg.servers
    && |s.phase| == |cfg.locks|
  }

  predicate Enabled(cfg: Config, s: State, e: Event)
    requires Shape(cfg, s)
  {
    var n := |cfg.clients|;
    match e
    case Tick(_) => true
    case BeginLock(o) => o < |s.phase| && (s.phase[o].Idle? || s.phase[o].Held?)
    case SendSetNX(o, _) => o < |s.phase| && s.phase[o].Setting? && s.phase[o].next < n
    case Decide(o) => o < |s.phase| && s.phase[o].Setting? && n <= s.phase[o].next
    case SendDelete(o, _) =>
      o < |s.phase| && (s.phase[o].Clearing? || s.phase[o].Unlocking?) && s.phase[o].next < n
    case EndAttempt(o) => o < |s.phase| && s.phase[o].Clearing? && n <= s.phase[o].next
    case BeginUnlock(o) => o < |s.phase| && (s.phase[o].Idle? || s.phase[o].Held?)
    case EndUnlock(o) => o < |s.phase| && s.phase[o].Unlocking? && n <= s.phase[o].next
  }

  /** The head of the retry loop: the next attempt, or give up. */
  function StartAttempt(cfg: Config, s: State, o: nat, attempt: nat): Phase
    requires o < |cfg.locks|
  {
    if attempt < cfg.locks[o].retry then Setting(attempt, 0, 0, {}, s.now) else Idle
  }

  function Step(cfg: Config, s: State, e: Event): State
    requires Shape(cfg, s) && Enabled(cfg, s, e)
  {
    match e
    case Tick(d) => s.(now := s.now + d)
    case BeginLock(o) => s.(phase := s.phase[o := StartAttempt(cfg, s, o, 0)])
    case SendSetNX(o, d) =>
      var p := s.phase[o];
      var i := cfg.clients[p.next];
      var taken := d != NotExecuted && !Live(s.servers[i], s.now);
      var success := taken && d == Answered;
      State(s.now,
            if d == NotExecuted then s.servers
            else s.servers[i := SetNX(s.servers[i], o, s.now, cfg.locks[o].ttl)],
            s.phase[o := Setting(p.attempt, p.next + 1,
                                 if success then p.successCount + 1 else p.successCount,
                                 if success then p.grants + {p.next} else p.grants,
                                 p.start)])
    case Decide(o) =>
      var p := s.phase[o];
      s.(phase := s.phase[o := if p.successCount > |cfg.clients| / 2
                               then Held(p.grants, p.start)
                               else Clearing(p.attempt, 0)])
    case SendDelete(o, d) =>
      var p := s.phase[o];
      var i := cfg.clients[p.next];
      State(s.now,
            if d == NotExecuted then s.servers
            else s.servers[i := CompareAndDelete(s.servers[i], o, s.now)],
            s.phase[o := p.(next := p.next + 1)])
    case EndAttempt(o) =>
      s.(phase := s.phase[o := StartAttempt(cfg, s, o, s.phase[o].attempt + 1)])
    case BeginUnlock(o) => s.(phase := s.phase[o := Unlocking(0)])
    case EndUnlock(o) => s.(phase := s.phase[o := Idle])
  }

  lemma StepShape(cfg: Config, s: State, e: Event)
    requires Shape(cfg, s) && Enabled(cfg, s, e)
    ensures Shape(cfg, Step(cfg, s, e))
  {
  }

  datatype Outcome = Stuck | Reached(state: State)

  /** The state after a list of events, if each of them was possible in its turn. */
  function Run(cfg: Config, events: seq<Event>): (r: Outcome)
    requires cfg.Valid()
    ensures r.Reached? ==> Shape(cfg, r.state)
  {
    if events == [] then Reached(Init(cfg))
    else
      var before := Run(cfg, events[..|events| - 1]);
      var e := events[|events| - 1];
      if before.Reached? && Enabled(cfg, before.state, e) then
        StepShape(cfg, before.state, e);
        Reached(Step(cfg, before.state, e))
      else Stuck
  }

  /** Past a successful Lock, not yet unlocking, within ttl of the start of the attempt. */
  predicate InLease(cfg: Config, s: State, o: nat)
    requires Shape(cfg, s)
  {
    o < |s.phase| && s.phase[o].Held? && s.now < s.phase[o].start + cfg.locks[o].ttl
  }

  /** Server i keeps o's value at least until time t. */
  predicate Keeps(s: State, i: nat, o: nat, t: int) {
    i < |s.servers| && s.servers[i].Key? && s.servers[i].owner == o && t <= s.servers[i].expiry
  }

  /** While the lease runs, every server that granted the attempt still holds the value. */
  ghost predicate GrantsKept(cfg: Config, s: State, o: nat, grants: set<nat>, start: int)
    requires Shape(cfg, s) && o < |s.phase|
  {
    && start <= s.now
    && (forall j :: j in grants ==> j < |cfg.clients|)
    && (s.now < start + cfg.locks[o].ttl ==>
          forall j :: j in grants ==> Keeps(s, cfg.clients[j], o, start + cfg.locks[o].ttl))
  }

  ghost predicate ObjectInv(cfg: Config, s: State, o: nat)
    requires Shape(cfg, s) && o < |s.phase|
  {
    match s.phase[o]
    case Setting(_, next, count, grants, start) =>
      && next <= |cfg.clients|
      && count == |grants|
      && (forall j :: j in grants ==> j < next)
      && GrantsKept(cfg, s, o, grants, start)
    case Held(grants, start) =>
      && |cfg.clients| < 2 * |grants|
      && GrantsKept(cfg, s, o, grants, start)
    case _ => true
  }

  ghost predicate Inv(cfg: Config, s: State)
  {
    Shape(cfg, s) && forall o :: 0 <= o < |s.phase| ==> ObjectInv(cfg, s, o)
  }

  /** No step of any object, and no passing of time, takes a granted key away in lease. */
  lemma StepKeepsGrants(cfg: Config, s: State, e: Event, o: nat, grants: set<nat>, start: int)
    requires Shape(cfg, s) && Enabled(cfg, s, e) && o < |s.phase|
    requires GrantsKept(cfg, s, o, grants, start)
    requires !((e.SendDelete? || e.BeginUnlock? || e.EndUnlock? || e.EndAttempt?) && e.o == o)
    ensures GrantsKept(cfg, Step(cfg, s, e), o, grants, start)
  {
    var s' := Step(cfg, s, e);
    var t := start + cfg.locks[o].ttl;
    if s'.now < t {
      forall j | j in grants ensures Keeps(s', cfg.clients[j], o, t) {
        assert Keeps(s, cfg.clients[j], o, t);
      }
    }
  }

  lemma StepKeepsInv(cfg: Config, s: State, e: Event)
    requires Inv(cfg, s) && Enabled(cfg, s, e)
    ensures Inv(cfg, Step(cfg, s, e))
  {
    var s' := Step(cfg, s, e);
    forall o | 0 <= o < |s'.phase| ensures ObjectInv(cfg, s', o) {
      assert ObjectInv(cfg, s, o);
      var p := s.phase[o];
      if (e.SendDelete? || e.BeginUnlock? || e.EndUnlock? || e.EndAttempt?) && e.o == o {
      } else if p.Setting? || p.Held? {
        StepKeepsGrants(cfg, s, e, o, p.grants, p.start);
      }
    }
  }

  lemma {:induction false} RunKeepsInv(cfg: Config, events: seq<Event>)
    requires cfg.Valid()
    ensures Run(cfg, events).Reached? ==> Inv(cfg, Run(cfg, events).state)
  {
    if events != [] {
      var front := events[..|events| - 1];
      RunKeepsInv(cfg, front);
      if Run(cfg, events).Reached? {
        StepKeepsInv(cfg, Run(cfg, front).state, events[|events| - 1]);
      }
    }
  }

  lemma {:induction false} BoundedSetSize(n: nat, a: set<nat>)
    requires forall j :: j in a ==> j < n
    ensures |a| <= n
  {
    if n == 0 {
      assert a == {};
    } else {
      BoundedSetSize(n - 1, a - {n - 1});
    }
  }

  lemma QuorumsMeet(n: nat, a: set<nat>, b: set<nat>) returns (j: nat)
    requires forall j :: j in a + b ==> j < n
    requires n < 2 * |a| && n < 2 * |b|
    ensures j in a && j in b
  {
    if a * b == {} {
      assert |a + b| == |a| + |b|;
      BoundedSetSize(n, a + b);
      assert false;
    }
    j :| j in a * b;
  }

  /** Mutual exclusion over every interleaving, with lost commands, lost replies,
      failed attempts and expiring keys. */
  lemma MutualExclusion(cfg: Config, events: seq<Event>, a: nat, b: nat)
    requires cfg.Valid() && Run(cfg, events).Reached? && a != b
    ensures !(InLease(cfg, Run(cfg, events).state, a) && InLease(cfg, Run(cfg, events).state, b))
  {
    var s := Run(cfg, events).state;
    RunKeepsInv(cfg, events);
    if InLease(cfg, s, a) && InLease(cfg, s, b) {
      assert ObjectInv(cfg, s, a) && ObjectInv(cfg, s, b);
      var j := QuorumsMeet(|cfg.clients|, s.phase[a].grants, s.phase[b].grants);
      assert false;
    }
  }

  /** What the lease gives its holder: a majority of the list answers with its live key. */
  lemma LeaseHasMajority(cfg: Config, events: seq<Event>, o: nat)
    requires cfg.Valid() && Run(cfg, events).Reached?
    requires InLease(cfg, Run(cfg, events).state, o)
    ensures var s := Run(cfg, events).state;
            && |cfg.clients| < 2 * |s.phase[o].grants|
            && forall j :: j in s.phase[o].grants ==>
                 j < |cfg.clients| && OwnedBy(s.servers[cfg.clients[j]], o, s.now)
  {
    RunKeepsInv(cfg, events);
    var s := Run(cfg, events).state;
    assert ObjectInv(cfg, s, o);
    forall j | j in s.phase[o].grants
      ensures j < |cfg.clients| && OwnedBy(s.servers[cfg.clients[j]], o, s.now)
    {
      assert Keeps(s, cfg.clients[j], o, s.phase[o].start + cfg.locks[o].ttl);
    }
  }

  /** A live key leaves its owner only through that owner's own delete or through expiry. */
  lemma OnlyOwnerOrTimeFrees(cfg: Config, s: State, e: Event, i: nat, o: nat)
    requires Shape(cfg, s) && Enabled(cfg, s, e) && i < cfg.servers
    requires OwnedBy(s.servers[i], o, s.now)
    ensures var s' := Step(cfg, s, e);
            || OwnedBy(s'.servers[i], o, s'.now)
            || (e.SendDelete? && e.o == o && cfg.clients[s.phase[o].next] == i)
            || (e.Tick? && s.servers[i].expiry <= s'.now)
  {
  }

  const LATE_CONFIG := Config(1, [0], [LockConfig(1, 1), LockConfig(1, 1)])
  const LATE_RUN := [BeginLock(0), SendSetNX(0, Answered), Tick(1), Decide(0),
                     BeginLock(1), SendSetNX(1, Answered), Decide(1)]

  /** Lock does not look at the clock, so its answer alone is not exclusive: a slow attempt
      is told "true" after its keys are gone. */
  lemma LateLockIsNotExclusive()
    ensures LATE_CONFIG.Valid() && Run(LATE_CONFIG, LATE_RUN).Reached?
    ensures var s := Run(LATE_CONFIG, LATE_RUN).state; s.phase[0].Held? && s.phase[1].Held?
  {
    var c := LATE_CONFIG;
    var s0 := Init(c);
    assert Run(c, LATE_RUN[..0]) == Reached(s0);
    var s1 := Step(c, s0, LATE_RUN[0]);
    assert LATE_RUN[..1][..0] == LATE_RUN[..0] && Run(c, LATE_RUN[..1]) == Reached(s1);
    var s2 := Step(c, s1, LATE_RUN[1]);
    assert LATE_RUN[..2][..1] == LATE_RUN[..1] && Run(c, LATE_RUN[..2]) == Reached(s2);
    var s3 := Step(c, s2, LATE_RUN[2]);
    assert LATE_RUN[..3][..2] == LATE_RUN[..2] && Run(c, LATE_RUN[..3]) == Reached(s3);
    var s4 := Step(c, s3, LATE_RUN[3]);
    assert LATE_RUN[..4][..3] == LATE_RUN[..3] && Run(c, LATE_RUN[..4]) == Reached(s4);
    var s5 := Step(c, s4, LATE_RUN[4]);
    assert LATE_RUN[..5][..4] == LATE_RUN[..4] && Run(c, LATE_RUN[..5]) == Reached(s5);
    var s6 := Step(c, s5, LATE_RUN[5]);
    assert LATE_RUN[..6][..5] == LATE_RUN[..5] && Run(c, LATE_RUN[..6]) == Reached(s6);
    assert LATE_RUN[..6] == LATE_RUN[..|LATE_RUN| - 1];
  }
}
