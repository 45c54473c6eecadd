/** The circuit breaker: counting failures, opening, and trying again after a timeout. */
module CircuitBreaker {

  datatype State = Closed | Open | HalfOpen

  /** `resetTimeout` and all times are in one unit, whole numbers. */
  datatype Config = Config(maxFailures: int, resetTimeout: int)

  datatype Breaker = Breaker(state: State, failureCount: int, lastFailure: int, stateChangeAt: int)

  /** The readings of the clock during one Call: at its entry, when the operation starts,
      and when it has returned. */
  datatype Clock = Clock(entry: int, begin: int, end: int) {
    predicate Forward() {
      entry <= begin <= end
    }
  }

  // ----- one call and one cleanup as functions -----

  function Admit(c: Config, b: Breaker, t: Clock): Breaker {
    if b.state.Open? && c.resetTimeout <= t.entry - b.stateChangeAt
    then b.(state := HalfOpen, stateChangeAt := t.begin) else b
  }

  predicate Invokes(c: Config, b: Breaker, t: Clock) {
    !Admit(c, b, t).state.Open?
  }

  function OnFailure(c: Config, b: Breaker, t: Clock): Breaker {
    var failed := b.(failureCount := b.failureCount + 1, lastFailure := t.end);
    if c.maxFailures <= failed.failureCount && !failed.state.Open?
    then failed.(state := Open, stateChangeAt := t.end) else failed
  }

  function OnSuccess(b: Breaker, t: Clock): Breaker {
    b.(failureCount := 0, state := Closed, stateChangeAt := t.end)
  }

  function CallStep(c: Config, b: Breaker, t: Clock, fails: bool): Breaker {
    var a := Admit(c, b, t);
    if a.state.Open? then a else if fails then OnFailure(c, a, t) else OnSuccess(a, t)
  }

  function CleanupStep(c: Config, b: Breaker, now: int): Breaker {
    if now - b.lastFailure > c.resetTimeout * 2 then b.(failureCount := 0) else b
  }

  function ResetStep(b: Breaker, now: int, zeroTime: int): Breaker {
    Breaker(Closed, 0, zeroTime, now)
  }

  // ----- every run -----

  datatype Event =
    | Call(clock: Clock, fails: bool)
    | Cleanup(now: int)
    | Reset(now: int)

  function Begins(e: Event): int {
    match e
    case Call(t, _) => t.entry
    case Cleanup(now) => now
    case Reset(now) => now
  }

  function Ends(e: Event): int {
    if e.Call? then e.clock.end else Begins(e)
  }

  /** Events hold the mutex, so they do not overlap. */
  ghost predicate InOrder(start: int, es: seq<Event>) {
    && (forall i :: 0 <= i < |es| ==> start <= Begins(es[i]) && (es[i].Call? ==> es[i].clock.Forward()))
    && (forall i, j :: 0 <= i < j < |es| ==> Ends(es[i]) <= Begins(es[j]))
  }

  /** Go's zero time, long before any clock reading. */
  function After(c: Config, zeroTime: int, es: seq<Event>): Breaker {
    if es == [] then Breaker(Closed, 0, zeroTime, zeroTime)
    else
      var b := After(c, zeroTime, es[..|es| - 1]);
      match es[|es| - 1]
      case Call(t, fails) => CallStep(c, b, t, fails)
      case Cleanup(now) => CleanupStep(c, b, now)
      case Reset(now) => ResetStep(b, now, zeroTime)
  }

  /** Between calls the breaker is open unless the threshold is still ahead. */
  lemma {:induction false} ClosedMeansBelowThreshold(c: Config, zeroTime: int, es: seq<Event>)
    requires 1 <= c.maxFailures
    ensures var b := After(c, zeroTime, es);
            0 <= b.failureCount && (!b.state.Open? ==> b.failureCount < c.maxFailures)
  {
    if es != [] {
      ClosedMeansBelowThreshold(c, zeroTime, es[..|es| - 1]);
    }
  }

  // ----- throttling -----

  /** A run from some breaker: where it ended, how often the operation was invoked, and when
      for the first and for the last time. */
  datatype Tally = Tally(b: Breaker, used: nat, first: int, last: int)

  function Count(c: Config, b0: Breaker, zeroTime: int, es: seq<Event>): Tally {
    if es == [] then Tally(b0, 0, 0, 0)
    else
      var r := Count(c, b0, zeroTime, es[..|es| - 1]);
      match es[|es| - 1]
      case Call(t, fails) =>
        if Invokes(c, r.b, t) then
          Tally(CallStep(c, r.b, t, fails), r.used + 1, if r.used == 0 then t.begin else r.first, t.begin)
        else r.(b := CallStep(c, r.b, t, fails))
      case Cleanup(now) => r.(b := CleanupStep(c, r.b, now))
      case Reset(now) => r.(b := ResetStep(r.b, now, zeroTime))
  }

  ghost predicate OnlyFailures(es: seq<Event>) {
    forall i :: 0 <= i < |es| ==> !es[i].Reset? && (es[i].Call? ==> es[i].fails)
  }

  /** Invocations still possible before the breaker opens. */
  function Room(c: Config, b: Breaker): int {
    if b.state.Open? then 0 else c.maxFailures - b.failureCount
  }

  /** The invocations so far fill k blocks of maxFailures each, the k-th beginning no earlier
      than `first + (k - 1) * resetTimeout`, where `first` is the first invocation.  A block
      ends when the breaker opens; a cleanup may begin one that is still untouched. */
  ghost predicate Blocks(c: Config, b: Breaker, used: nat, k: nat, first: int, last: int, now: int) {
    var begin := first + (k - 1) * c.resetTimeout;
    && 1 <= k && last <= now && begin <= now
    && used + Room(c, b) <= c.maxFailures * k
    && (if b.state.Open? then begin <= b.stateChangeAt && begin <= last
        else (begin <= b.lastFailure && begin <= last)
             || (used + c.maxFailures <= c.maxFailures * k && begin - c.resetTimeout <= last))
  }

  lemma NextBlock(c: Config, k: nat, first: int)
    ensures first + (k + 1 - 1) * c.resetTimeout == first + (k - 1) * c.resetTimeout + c.resetTimeout
    ensures c.maxFailures * (k + 1) == c.maxFailures * k + c.maxFailures
  {
  }

  predicate Sane(c: Config, b: Breaker) {
    && 1 <= c.maxFailures && 0 < c.resetTimeout
    && 0 <= b.failureCount && (!b.state.Open? ==> b.failureCount < c.maxFailures)
  }

  lemma CallKeepsBlocks(c: Config, b: Breaker, t: Clock, used: nat, k: nat, first: int, last: int, now: int)
    returns (k': nat)
    requires Sane(c, b) && Blocks(c, b, used, k, first, last, now) && now <= t.entry && t.Forward()
    ensures if Invokes(c, b, t)
            then Blocks(c, CallStep(c, b, t, true), used + 1, k', first, t.begin, t.end)
            else Blocks(c, CallStep(c, b, t, true), used, k', first, last, t.end)
  {
    k' := k;
    if b.state.Open? && Invokes(c, b, t) {
      k' := k + 1;
      NextBlock(c, k, first);
    }
  }

  lemma CleanupKeepsBlocks(c: Config, b: Breaker, at: int, used: nat, k: nat, first: int, last: int, now: int)
    returns (k': nat)
    requires Sane(c, b) && Blocks(c, b, used, k, first, last, now) && now <= at
    ensures Blocks(c, CleanupStep(c, b, at), used, k', first, last, at)
  {
    k' := k;
    if !b.state.Open? && at - b.lastFailure > c.resetTimeout * 2 &&
       first + (k - 1) * c.resetTimeout <= b.lastFailure && first + (k - 1) * c.resetTimeout <= last {
      k' := k + 1;
      NextBlock(c, k, first);
    }
  }

  lemma FirstBlock(c: Config, b: Breaker, t: Clock)
    requires Sane(c, b) && Invokes(c, b, t) && t.Forward()
    ensures Blocks(c, CallStep(c, b, t, true), 1, 1, t.begin, t.begin, t.end)
  {
  }

  lemma StepStaysSane(c: Config, b: Breaker, e: Event)
    requires Sane(c, b)
    ensures e.Call? ==> Sane(c, CallStep(c, b, e.clock, e.fails))
    ensures e.Cleanup? ==> Sane(c, CleanupStep(c, b, e.now))
  {
  }

  lemma {:induction false} RunFillsBlocks(c: Config, b0: Breaker, zeroTime: int, es: seq<Event>, start: int)
    returns (k: nat)
    requires Sane(c, b0) && InOrder(start, es) && OnlyFailures(es)
    ensures var r := Count(c, b0, zeroTime, es);
            && Sane(c, r.b)
            && (r.used > 0 ==>
                  es != [] && r.first <= r.last &&
                  Blocks(c, r.b, r.used, k, r.first, r.last, Ends(es[|es| - 1])))
  {
    k := 1;
    if es != [] {
      var front, e := es[..|es| - 1], es[|es| - 1];
      assert forall i :: 0 <= i < |front| ==> front[i] == es[i];
      k := RunFillsBlocks(c, b0, zeroTime, front, start);
      var r := Count(c, b0, zeroTime, front);
      StepStaysSane(c, r.b, e);
      assert !e.Reset? && (e.Call? ==> e.fails && e.clock.Forward());
      if r.used > 0 {
        var now := Ends(front[|front| - 1]);
        assert now <= Begins(e);
        if e.Call? {
          k := CallKeepsBlocks(c, r.b, e.clock, r.used, k, r.first, r.last, now);
        } else {
          k := CleanupKeepsBlocks(c, r.b, e.now, r.used, k, r.first, r.last, now);
        }
      } else if e.Call? && Invokes(c, r.b, e.clock) {
        k := 1;
        FirstBlock(c, r.b, e.clock);
      }
    }
  }

  lemma BlocksBound(c: Config, b: Breaker, used: nat, k: nat, first: int, last: int, now: int)
    requires Sane(c, b) && Blocks(c, b, used, k, first, last, now) && first <= last
    ensures used <= c.maxFailures * (1 + (last - first) / c.resetTimeout)
  {
    var q := (last - first) / c.resetTimeout;
    if first + (k - 1) * c.resetTimeout <= last {
      QuotientAtLeast(last - first, c.resetTimeout, k - 1);
      MulMonotone(k, 1 + q, c.maxFailures);
    } else {
      NextBlock(c, k, first);
      QuotientAtLeast(last - first, c.resetTimeout, k - 2);
      MulMonotone(k - 1, 1 + q, c.maxFailures);
    }
  }

  lemma MulMonotone(a: int, b: int, c: int)
    requires a <= b && 0 <= c
    ensures c * a <= c * b
  {
    assert 0 <= c * (b - a);
  }

  lemma QuotientAtLeast(a: int, r: int, n: int)
    requires 0 < r && n * r <= a
    ensures n <= a / r
  {
    assert a == r * (a / r) + a % r;
    if a / r + 1 <= n {
      MulMonotone(a / r + 1, n, r);
      assert false;
    }
  }

  /** In any run of failing calls without a Reset, over a time T between its first and its
      last invocation, the operation is invoked at most maxFailures * (1 + T / resetTimeout)
      times, whatever cleanups come in between and whatever happened before. */
  lemma Throttled(c: Config, zeroTime: int, past: seq<Event>, es: seq<Event>, start: int)
    requires 1 <= c.maxFailures && 0 < c.resetTimeout
    requires InOrder(start, es) && OnlyFailures(es)
    ensures var r := Count(c, After(c, zeroTime, past), zeroTime, es);
            r.used > 0 ==> r.used <= c.maxFailures * (1 + (r.last - r.first) / c.resetTimeout)
  {
    var b0 := After(c, zeroTime, past);
    ClosedMeansBelowThreshold(c, zeroTime, past);
    var k := RunFillsBlocks(c, b0, zeroTime, es, start);
    var r := Count(c, b0, zeroTime, es);
    if r.used > 0 {
      BlocksBound(c, r.b, r.used, k, r.first, r.last, Ends(es[|es| - 1]));
    }
  }

  // ----- the object -----

  class CircuitBreaker {
    const maxFailures: int
    const resetTimeout: int
    var requestCount: int
    var failureCount: int
    var lastFailure: int
    var state: State
    var stateChangeAt: int

    ghost function Contents(): Breaker
      reads this
    {
      Breaker(state, failureCount, lastFailure, stateChangeAt)
    }

    ghost function Settings(): Config {
      Config(maxFailures, resetTimeout)
    }

    constructor (maxFailures: int, resetTimeout: int, zeroTime: int)
      ensures this.maxFailures == maxFailures && this.resetTimeout == resetTimeout
      ensures Contents() == After(Settings(), zeroTime, [])
    {
      this.maxFailures, this.resetTimeout := maxFailures, resetTimeout;
      requestCount, failureCount, lastFailure, state, stateChangeAt := 0, 0, zeroTime, Closed, zeroTime;
    }

    /** `fails` is the outcome of the operation, should it be invoked. */
    method Call(t: Clock, fails: bool) returns (invoked: bool, ok: bool)
      modifies this
      ensures invoked == Invokes(Settings(), old(Contents()), t)
      ensures ok == (invoked && !fails)
      ensures Contents() == CallStep(Settings(), old(Contents()), t, fails)
      ensures requestCount == old(requestCount) + (if invoked then 1 else 0)
    {
      if state == Open && t.entry - stateChangeAt >= resetTimeout {
        state := HalfOpen;
        stateChangeAt := t.begin;
      }
      if state == Open {
        return false, false;
      }
      requestCount := requestCount + 1;
      if fails {
        RecordFailure(t.end);
        return true, false;
      }
      failureCount := 0;
      state := Closed;
      stateChangeAt := t.end;
      return true, true;
    }

    method RecordFailure(now: int)
      modifies this
      ensures requestCount == old(requestCount)
      ensures Contents() == OnFailure(Settings(), old(Contents()), Clock(now, now, now))
    {
      failureCount := failureCount + 1;
      lastFailure := now;
      if failureCount >= maxFailures && state != Open {
        state := Open;
        stateChangeAt := now;
      }
    }

    /** One round of the periodic cleanup. */
    method Cleanup(now: int)
      modifies this
      ensures Contents() == CleanupStep(Settings(), old(Contents()), now)
      ensures requestCount == if now - old(lastFailure) > resetTimeout * 2 then 0 else old(requestCount)
    {
      if now - lastFailure > resetTimeout * 2 {
        requestCount := 0;
        failureCount := 0;
      }
    }

    method Reset(now: int, zeroTime: int)
      modifies this
      ensures Contents() == ResetStep(old(Contents()), now, zeroTime) && requestCount == 0
    {
      requestCount, failureCount := 0, 0;
      state := Closed;
      stateChangeAt := now;
      lastFailure := zeroTime;
    }
  }
}
