/** When a true answer of RedLock.Lock is exclusive: how long its holders may go on with it. */
module RedLockHold {
  import opened KeyServer
  import opened RedLock

  /** Every object past a true Lock is within d of the start of its successful attempt. */
  ghost predicate Brief(s: State, d: int) {
    forall o :: 0 <= o < |s.phase| && s.phase[o].Held? ==> s.now < s.phase[o].start + d
  }

  /** This is so at every moment of the run: callers unlock, or begin to, in time. */
  ghost predicate HeldBriefly(cfg: Config, events: seq<Event>, d: int)
    requires cfg.Valid()
  {
    && (Run(cfg, events).Reached? ==> Brief(Run(cfg, events).state, d))
    && (events != [] ==> HeldBriefly(cfg, events[..|events| - 1], d))
  }

  ghost predicate OneHolder(s: State) {
    forall a, b :: 0 <= a < |s.phase| && 0 <= b < |s.phase| && s.phase[a].Held? && s.phase[b].Held? ==> a == b
  }

  /** The objects that try at all. */
  ghost predicate Tries(cfg: Config, o: nat) {
    o < |cfg.locks| && 0 < cfg.locks[o].retry
  }

  /** Independent instances, at least one. */
  ghost predicate Independent(cfg: Config) {
    cfg.clients != [] && forall i, j :: 0 <= i < j < |cfg.clients| ==> cfg.clients[i] != cfg.clients[j]
  }

  // ----- short holds are exclusive -----

  ghost predicate BusyTries(cfg: Config, s: State) {
    forall o: nat ::
      o < |s.phase| && (s.phase[o].Setting? || s.phase[o].Clearing? || s.phase[o].Held?) ==> Tries(cfg, o)
  }

  lemma {:induction false} OnlyTriersHold(cfg: Config, events: seq<Event>)
    requires cfg.Valid()
    ensures Run(cfg, events).Reached? ==> BusyTries(cfg, Run(cfg, events).state)
  {
    if events != [] {
      OnlyTriersHold(cfg, events[..|events| - 1]);
    }
  }

  lemma {:induction false} BriefHoldersAreAlone(cfg: Config, events: seq<Event>, d: int)
    requires cfg.Valid() && Run(cfg, events).Reached? && HeldBriefly(cfg, events, d)
    requires forall o: nat :: Tries(cfg, o) ==> d <= cfg.locks[o].ttl
    ensures OneHolder(Run(cfg, events).state)
  {
    var s := Run(cfg, events).state;
    OnlyTriersHold(cfg, events);
    forall a, b | 0 <= a < |s.phase| && 0 <= b < |s.phase| && s.phase[a].Held? && s.phase[b].Held? && a != b
      ensures false
    {
      assert InLease(cfg, s, a) && InLease(cfg, s, b);
      MutualExclusion(cfg, events, a, b);
    }
  }

  // ----- longer holds are not -----

  lemma {:induction false} Extend(cfg: Config, events: seq<Event>, s: State, e: Event, d: int)
    returns (events': seq<Event>)
    requires cfg.Valid() && Run(cfg, events) == Reached(s) && HeldBriefly(cfg, events, d)
    requires Enabled(cfg, s, e) && Brief(Step(cfg, s, e), d)
    ensures Run(cfg, events') == Reached(Step(cfg, s, e)) && HeldBriefly(cfg, events', d)
  {
    events' := events + [e];
    assert events'[..|events|] == events;
  }

  /** The servers after the first k clients have taken o's value. */
  function Taken(cfg: Config, servers: seq<Entry>, o: nat, now: int, k: nat): (r: seq<Entry>)
    requires cfg.Valid() && |servers| == cfg.servers && o < |cfg.locks| && k <= |cfg.clients|
    ensures |r| == |servers|
  {
    if k == 0 then servers
    else Taken(cfg, servers, o, now, k - 1)[cfg.clients[k - 1] := Key(o, now + cfg.locks[o].ttl)]
  }

  function Positions(k: nat): set<nat> {
    if k == 0 then {} else Positions(k - 1) + {k - 1}
  }

  function Sending(cfg: Config, s: State, o: nat, k: nat): State
    requires Shape(cfg, s) && o < |cfg.locks| && k <= |cfg.clients|
  {
    State(s.now, Taken(cfg, s.servers, o, s.now, k), s.phase[o := Setting(0, k, k, Positions(k), s.now)])
  }

  ghost predicate Free(cfg: Config, s: State)
    requires Shape(cfg, s)
  {
    forall j :: 0 <= j < |cfg.clients| ==> !Live(s.servers[cfg.clients[j]], s.now)
  }

  lemma {:induction false} TakenAt(cfg: Config, servers: seq<Entry>, o: nat, now: int, k: nat, j: nat)
    requires cfg.Valid() && |servers| == cfg.servers && o < |cfg.locks| && k <= |cfg.clients| && j < |cfg.clients|
    requires Independent(cfg)
    ensures Taken(cfg, servers, o, now, k)[cfg.clients[j]] ==
            if j < k then Key(o, now + cfg.locks[o].ttl) else servers[cfg.clients[j]]
  {
    if k != 0 {
      TakenAt(cfg, servers, o, now, k - 1, j);
      assert j != k - 1 ==> cfg.clients[j] != cfg.clients[k - 1];
    }
  }

  lemma {:induction false} SendAll(cfg: Config, events: seq<Event>, s: State, o: nat, k: nat, d: int)
    returns (events': seq<Event>)
    requires Shape(cfg, s) && Independent(cfg) && Tries(cfg, o) && s.phase[o].Idle? && Free(cfg, s)
    requires Run(cfg, events) == Reached(s) && HeldBriefly(cfg, events, d) && k <= |cfg.clients|
    ensures Run(cfg, events') == Reached(Sending(cfg, s, o, k)) && HeldBriefly(cfg, events', d)
  {
    hide Run;
    if k == 0 {
      assert Brief(s, d);
      assert Step(cfg, s, BeginLock(o)) == Sending(cfg, s, o, 0);
      events' := Extend(cfg, events, s, BeginLock(o), d);
    } else {
      events' := SendAll(cfg, events, s, o, k - 1, d);
      var before := Sending(cfg, s, o, k - 1);
      TakenAt(cfg, s.servers, o, s.now, k - 1, k - 1);
      assert !Live(before.servers[cfg.clients[k - 1]], s.now);
      assert Step(cfg, before, SendSetNX(o, Answered)) == Sending(cfg, s, o, k);
      events' := Extend(cfg, events', before, SendSetNX(o, Answered), d);
    }
  }

  /** On free servers an attempt takes every key in no time. */
  lemma {:induction false} LockAll(cfg: Config, events: seq<Event>, s: State, o: nat, d: int)
    returns (events': seq<Event>, s': State)
    requires Shape(cfg, s) && Independent(cfg) && Tries(cfg, o) && s.phase[o].Idle? && Free(cfg, s)
    requires Run(cfg, events) == Reached(s) && HeldBriefly(cfg, events, d) && 0 < d
    ensures Run(cfg, events') == Reached(s') && HeldBriefly(cfg, events', d) && |s'.phase| == |s.phase|
    ensures s'.now == s.now && s'.phase == s.phase[o := s'.phase[o]]
    ensures s'.phase[o].Held? && s'.phase[o].start == s.now
    ensures |s'.servers| == |s.servers|
    ensures forall j :: 0 <= j < |cfg.clients| ==> s'.servers[cfg.clients[j]] == Key(o, s.now + cfg.locks[o].ttl)
  {
    var n := |cfg.clients|;
    events' := SendAll(cfg, events, s, o, n, d);
    var ready := Sending(cfg, s, o, n);
    s' := Step(cfg, ready, Decide(o));
    events' := Extend(cfg, events', ready, Decide(o), d);
    forall j | 0 <= j < n ensures s'.servers[cfg.clients[j]] == Key(o, s.now + cfg.locks[o].ttl) {
      TakenAt(cfg, s.servers, o, s.now, n, j);
    }
  }

  /** If a may hold longer than its ttl, b can be told true while a still goes on. */
  lemma {:induction false} LongHoldsOverlap(cfg: Config, a: nat, b: nat, d: int) returns (events: seq<Event>)
    requires cfg.Valid() && Independent(cfg) && Tries(cfg, a) && Tries(cfg, b) && a != b && cfg.locks[a].ttl < d
    ensures Run(cfg, events).Reached? && HeldBriefly(cfg, events, d) && !OneHolder(Run(cfg, events).state)
  {
    var s: State;
    events, s := LockAll(cfg, [], Init(cfg), a, d);
    var t := Tick(cfg.locks[a].ttl);
    var late := Step(cfg, s, t);
    events := Extend(cfg, events, s, t, d);
    events, s := LockAll(cfg, events, late, b, d);
    assert s.phase[a].Held? && s.phase[b].Held?;
  }

  /** Lock's answer is exclusive for all callers that hold it for less than d since the start
      of the attempt exactly when d is at most the ttl of every object that tries. */
  lemma {:induction false} AnswerIsExclusiveIff(cfg: Config, a: nat, b: nat, d: int)
    requires cfg.Valid() && Independent(cfg) && Tries(cfg, a) && Tries(cfg, b) && a != b
    ensures (forall events :: Run(cfg, events).Reached? && HeldBriefly(cfg, events, d) ==>
                                OneHolder(Run(cfg, events).state)) <==>
            (forall o: nat :: Tries(cfg, o) ==> d <= cfg.locks[o].ttl)
  {
    if forall o: nat :: Tries(cfg, o) ==> d <= cfg.locks[o].ttl {
      forall events | Run(cfg, events).Reached? && HeldBriefly(cfg, events, d)
        ensures OneHolder(Run(cfg, events).state)
      {
        BriefHoldersAreAlone(cfg, events, d);
      }
    } else {
      var o: nat :| Tries(cfg, o) && cfg.locks[o].ttl < d;
      var events := LongHoldsOverlap(cfg, o, if o == a then b else a, d);
    }
  }
}
