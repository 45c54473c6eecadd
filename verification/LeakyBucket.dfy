/** The leaky bucket with a whole-numbered water level. */
module LeakyBucket {
  import opened Requests

  datatype Level = Level(water: int, last: int)

  /** int(elapsed * rate), with elapsed in seconds: the fraction of a unit is dropped. */
  function Leak(rate: int, elapsed: int): int {
    var x := elapsed * rate;
    if x < 0 then -(-x / TICKS) else x / TICKS
  }

  function Drained(rate: int, l: Level, now: int): int {
    var leaked := Leak(rate, now - l.last);
    l.water - (if leaked > l.water then l.water else leaked)
  }

  predicate Allows(capacity: int, rate: int, l: Level, r: Request) {
    Drained(rate, l, r.now) + r.n <= capacity
  }

  function Pour(capacity: int, rate: int, l: Level, r: Request): Level {
    var water := Drained(rate, l, r.now);
    Level(if Allows(capacity, rate, l, r) then water + r.n else water, r.now)
  }

  function After(capacity: int, rate: int, start: int, rs: seq<Request>): Level {
    if rs == [] then Level(0, start)
    else Pour(capacity, rate, After(capacity, rate, start, rs[..|rs| - 1]), rs[|rs| - 1])
  }

  function Answer(capacity: int, rate: int, start: int, rs: seq<Request>, i: nat): bool
    requires i < |rs|
  {
    Allows(capacity, rate, After(capacity, rate, start, rs[..i]), rs[i])
  }

  function Answers(capacity: int, rate: int, start: int, rs: seq<Request>): (ok: seq<bool>)
    ensures |ok| == |rs|
  {
    seq(|rs|, i requires 0 <= i < |rs| => Answer(capacity, rate, start, rs, i))
  }

  // ----- the ideal bucket -----

  function RealMax(a: real, b: real): real {
    if a < b then b else a
  }

  /** A bucket that leaks continuously and is fed exactly what the limiter granted. */
  function Ideal(capacity: int, rate: int, start: int, rs: seq<Request>): real {
    if rs == [] then 0.0
    else
      var front, r := rs[..|rs| - 1], rs[|rs| - 1];
      var last := After(capacity, rate, start, front).last;
      RealMax(0.0, Ideal(capacity, rate, start, front) - Earned(rate, r.now - last)) +
      (if Allows(capacity, rate, After(capacity, rate, start, front), r) then r.n as real else 0.0)
  }

  lemma LeakAtMostEarned(rate: int, elapsed: int)
    requires 0 <= rate && 0 <= elapsed
    ensures 0 <= Leak(rate, elapsed) && Leak(rate, elapsed) as real <= Earned(rate, elapsed)
  {
    hide TickLength;
    var x, whole, rest := elapsed * rate, elapsed * rate / TICKS, elapsed * rate % TICKS;
    assert 0 <= x && x == whole * TICKS + rest;
    WholeSeconds(whole);
    assert Seconds(whole * TICKS) + rest as real * TickLength() == x as real * TickLength();
    assert x as real == elapsed as real * rate as real;
    assert x as real * TickLength() == Earned(rate, elapsed);
  }

  lemma {:induction false} LastTime(capacity: int, rate: int, start: int, rs: seq<Request>)
    requires 0 <= rate && 0 <= capacity && Sorted(start, rs) && NonNegative(rs)
    ensures var l := After(capacity, rate, start, rs);
            0 <= l.water <= capacity && l.last == if rs == [] then start else rs[|rs| - 1].now
  {
    hide Earned;
    if rs != [] {
      var front := rs[..|rs| - 1];
      assert forall i :: 0 <= i < |front| ==> front[i] == rs[i];
      LastTime(capacity, rate, start, front);
      LeakAtMostEarned(rate, rs[|rs| - 1].now - After(capacity, rate, start, front).last);
    }
  }

  /** Dropping fractions only ever keeps water: the level never falls below the ideal one. */
  lemma {:induction false} NeverBelowIdeal(capacity: int, rate: int, start: int, rs: seq<Request>)
    requires 0 <= rate && 0 <= capacity && Sorted(start, rs) && NonNegative(rs)
    ensures Ideal(capacity, rate, start, rs) <= After(capacity, rate, start, rs).water as real
  {
    hide Earned;
    if rs != [] {
      var front := rs[..|rs| - 1];
      assert forall i :: 0 <= i < |front| ==> front[i] == rs[i];
      NeverBelowIdeal(capacity, rate, start, front);
      LastTime(capacity, rate, start, front);
      LeakAtMostEarned(rate, rs[|rs| - 1].now - After(capacity, rate, start, front).last);
    }
  }

  // ----- a full bucket that is polled too often -----

  /** The first request fills the bucket, and after that it is asked for one unit at a time. */
  ghost predicate FillsThenPolls(capacity: int, rs: seq<Request>) {
    rs != [] && rs[0].n == capacity && forall i :: 1 <= i < |rs| ==> rs[i].n == 1
  }

  /** The time since the call before is too short for a whole unit to leak. */
  predicate TooSoon(rate: int, rs: seq<Request>, i: nat)
    requires 1 <= i < |rs|
  {
    (rs[i].now - rs[i - 1].now) * rate < TICKS
  }

  ghost predicate AlwaysTooSoon(rate: int, rs: seq<Request>, n: nat)
    requires n <= |rs|
  {
    forall i :: 1 <= i < n ==> TooSoon(rate, rs, i)
  }

  lemma WholeParts(x: int, unit: int)
    requires 0 <= x && 0 < unit
    ensures 0 <= x / unit && (x / unit == 0 <==> x < unit)
  {
    var whole, rest := x / unit, x % unit;
    assert x == whole * unit + rest;
    if whole > 0 {
      assert (whole - 1) * unit >= 0;
    }
  }

  /** A full bucket loses something exactly when a whole unit has leaked since the last call;
      an empty one loses nothing. */
  lemma DrainedIff(rate: int, l: Level, now: int)
    requires 0 <= rate && l.last <= now && 0 <= l.water
    ensures 0 <= Drained(rate, l, now) <= l.water
    ensures 0 < l.water ==> (Drained(rate, l, now) == l.water <==> (now - l.last) * rate < TICKS)
  {
    var x := (now - l.last) * rate;
    assert 0 <= x;
    WholeParts(x, TICKS);
    assert Leak(rate, now - l.last) == x / TICKS;
    hide Leak;
  }

  /** Polled faster than a unit leaks, the bucket stays full however much time goes by: the
      fraction of a unit is dropped and the clock of the leak is set anew by every call. */
  lemma {:induction false} FullStaysFull(capacity: int, rate: int, start: int, rs: seq<Request>, k: nat)
    requires 0 < capacity && 0 <= rate && Sorted(start, rs) && FillsThenPolls(capacity, rs)
    requires 1 <= k <= |rs| && AlwaysTooSoon(rate, rs, k)
    ensures After(capacity, rate, start, rs[..k]) == Level(capacity, rs[k - 1].now)
    decreases k
  {
    hide Drained;
    assert rs[..k][..k - 1] == rs[..k - 1];
    DrainedIff(rate, if k == 1 then Level(0, start) else Level(capacity, rs[k - 2].now), rs[k - 1].now);
    if k > 1 {
      FullStaysFull(capacity, rate, start, rs, k - 1);
      assert TooSoon(rate, rs, k - 1);
    }
  }

  lemma NextAnswer(capacity: int, rate: int, start: int, rs: seq<Request>, k: nat)
    requires 0 < capacity && 0 <= rate && Sorted(start, rs) && FillsThenPolls(capacity, rs)
    requires 1 <= k < |rs| && AlwaysTooSoon(rate, rs, k)
    ensures Answer(capacity, rate, start, rs, k) <==> !TooSoon(rate, rs, k)
  {
    hide Drained, After;
    FullStaysFull(capacity, rate, start, rs, k);
    DrainedIff(rate, Level(capacity, rs[k - 1].now), rs[k].now);
  }

  /** The promise that a full bucket drains at its rate fails: all later calls are refused, over
      any stretch of time, exactly when each comes so soon after the one before that rate times
      the gap is less than one unit. */
  lemma RefusedForeverIff(capacity: int, rate: int, start: int, rs: seq<Request>)
    requires 0 < capacity && 0 <= rate && Sorted(start, rs) && FillsThenPolls(capacity, rs)
    ensures (forall i :: 1 <= i < |rs| ==> !Answer(capacity, rate, start, rs, i)) <==>
            (forall i :: 1 <= i < |rs| ==> TooSoon(rate, rs, i))
  {
    if AlwaysTooSoon(rate, rs, |rs|) {
      forall i | 1 <= i < |rs| ensures !Answer(capacity, rate, start, rs, i) {
        NextAnswer(capacity, rate, start, rs, i);
      }
    } else {
      var k := FirstPause(rate, rs, |rs|);
      NextAnswer(capacity, rate, start, rs, k);
    }
  }

  lemma {:induction false} FirstPause(rate: int, rs: seq<Request>, n: nat) returns (k: nat)
    requires n <= |rs| && !AlwaysTooSoon(rate, rs, n)
    ensures 1 <= k < n && AlwaysTooSoon(rate, rs, k) && !TooSoon(rate, rs, k)
  {
    k := n - 1;
    if !AlwaysTooSoon(rate, rs, n - 1) {
      k := FirstPause(rate, rs, n - 1);
    }
  }

  function Poll(capacity: int, start: int, gap: nat, i: nat): Request {
    Request(start + i * gap, if i == 0 then capacity else 1)
  }

  /** n calls, each `gap` after the one before, on a bucket that the first call fills. */
  function Polls(capacity: int, start: int, gap: nat, n: nat): (rs: seq<Request>)
    ensures |rs| == n
  {
    seq(n, i requires 0 <= i => Poll(capacity, start, gap, i))
  }

  lemma PollsAreSorted(capacity: int, start: int, gap: nat, n: nat)
    ensures Sorted(start, Polls(capacity, start, gap, n))
  {
    var rs := Polls(capacity, start, gap, n);
    forall i, j | 0 <= i <= j < n ensures start <= rs[i].now <= rs[j].now {
      Later(gap, i, j);
    }
  }

  lemma Later(gap: nat, i: nat, j: nat)
    requires i <= j
    ensures 0 <= i * gap <= j * gap
  {
    assert j * gap == i * gap + (j - i) * gap;
  }

  lemma PollsAtOneGap(capacity: int, rate: int, start: int, gap: nat, n: nat, i: nat)
    requires 1 <= i < n
    ensures TooSoon(rate, Polls(capacity, start, gap, n), i) <==> gap * rate < TICKS
  {
    var rs := Polls(capacity, start, gap, n);
    assert i * gap == (i - 1) * gap + gap;
    assert rs[i].now - rs[i - 1].now == gap;
  }

  /** So polling a full bucket at a fixed gap, as WaitN does, succeeds at once or never. */
  lemma PollingIff(capacity: int, rate: int, start: int, gap: nat, n: nat)
    requires 0 < capacity && 0 <= rate && 1 < n
    ensures (forall i :: 1 <= i < n ==> !Answer(capacity, rate, start, Polls(capacity, start, gap, n), i)) <==>
            gap * rate < TICKS
  {
    var rs := Polls(capacity, start, gap, n);
    assert FillsThenPolls(capacity, rs);
    PollsAreSorted(capacity, start, gap, n);
    hide Polls, Sorted, FillsThenPolls, TooSoon, Answer;
    RefusedForeverIff(capacity, rate, start, rs);
    forall i | 1 <= i < n ensures TooSoon(rate, rs, i) <==> gap * rate < TICKS {
      PollsAtOneGap(capacity, rate, start, gap, n, i);
    }
    PollsAtOneGap(capacity, rate, start, gap, n, 1);
  }

  // ----- how much the dropped fractions can keep -----

  lemma LeakNearlyEarned(rate: int, elapsed: int)
    requires 0 <= rate && 0 <= elapsed
    ensures Earned(rate, elapsed) < Leak(rate, elapsed) as real + 1.0
  {
    hide TickLength;
    var x, whole, rest := elapsed * rate, elapsed * rate / TICKS, elapsed * rate % TICKS;
    assert 0 <= x && x == whole * TICKS + rest;
    WholeSeconds(whole);
    assert Seconds(whole * TICKS) + rest as real * TickLength() == x as real * TickLength();
    assert x as real == elapsed as real * rate as real;
    assert x as real * TickLength() == Earned(rate, elapsed);
    PartOfUnit(rest as real, TICKS as real, TickLength());
  }

  lemma PositiveProduct(a: real, b: real) returns (r: real)
    requires 0.0 < a && 0.0 < b
    ensures 0.0 < r && r == a * b
  {
    r := a * b;
  }

  lemma PartOfUnit(part: real, ticks: real, length: real)
    requires part < ticks && 0.0 < length && length * ticks == 1.0
    ensures part * length < 1.0
  {
    var rest := PositiveProduct(length, ticks - part);
    assert rest == 1.0 - part * length;
  }

  /** Each call keeps less than one unit too much. */
  lemma {:induction false} CloseToIdeal(capacity: int, rate: int, start: int, rs: seq<Request>)
    requires 0 <= rate && 0 <= capacity && Sorted(start, rs) && NonNegative(rs)
    ensures After(capacity, rate, start, rs).water as real <= Ideal(capacity, rate, start, rs) + |rs| as real
  {
    hide Earned, Leak;
    if rs != [] {
      var front := rs[..|rs| - 1];
      assert forall i :: 0 <= i < |front| ==> front[i] == rs[i];
      CloseToIdeal(capacity, rate, start, front);
      LastTime(capacity, rate, start, front);
      LeakNearlyEarned(rate, rs[|rs| - 1].now - After(capacity, rate, start, front).last);
    }
  }

  /** A refused request would have overfilled the ideal bucket, but for less than one unit kept
      by each call. */
  lemma RefusalIsJustified(capacity: int, rate: int, start: int, rs: seq<Request>, r: Request)
    requires 0 <= rate && 0 <= capacity && Sorted(start, rs + [r]) && NonNegative(rs)
    requires !Allows(capacity, rate, After(capacity, rate, start, rs), r)
    ensures var last := After(capacity, rate, start, rs).last;
            capacity as real <
            RealMax(0.0, Ideal(capacity, rate, start, rs) - Earned(rate, r.now - last)) + (|rs| + 1 + r.n) as real
  {
    hide Earned, Leak, After, Ideal;
    assert (rs + [r])[..|rs|] == rs && (rs + [r])[|rs|] == r;
    Prefix(start, rs + [r], |rs|);
    hide Sorted, NonNegative;
    CloseToIdeal(capacity, rate, start, rs);
    LastTime(capacity, rate, start, rs);
    LeakNearlyEarned(rate, r.now - After(capacity, rate, start, rs).last);
  }

  lemma PotentialStep(capacity: int, rate: int, l: Level, r: Request, got: int, s: int)
    requires 0 <= rate && 0 <= l.water && l.last <= r.now && s <= r.now && 0 <= r.n
    requires if s <= l.last then got as real <= l.water as real + Earned(rate, l.last - s) else got == 0
    ensures (if Allows(capacity, rate, l, r) then got + r.n else got) as real
            <= Pour(capacity, rate, l, r).water as real + Earned(rate, r.now - s)
  {
    hide Earned;
    LeakAtMostEarned(rate, r.now - l.last);
    EarnedNonNegative(rate, r.now - s);
    if s <= l.last {
      EarnedAdds(rate, l.last - s, r.now - l.last);
    }
  }

  /** What was granted since s is still in the bucket or has leaked since. */
  lemma {:induction false} GrantPotential(capacity: int, rate: int, start: int, rs: seq<Request>, k: nat,
                                          s: int, t: int)
    requires 0 <= rate && 0 <= capacity && Sorted(start, rs) && NonNegative(rs) && k <= |rs|
    requires forall i :: 0 <= i < k ==> rs[i].now <= t
    ensures var got := Granted(rs, Answers(capacity, rate, start, rs), k, s, t);
            var l := After(capacity, rate, start, rs[..k]);
            if k > 0 && s <= rs[k - 1].now
            then got as real <= l.water as real + Earned(rate, rs[k - 1].now - s)
            else got == 0
  {
    hide Earned, Pour, Allows;
    if k != 0 {
      GrantPotential(capacity, rate, start, rs, k - 1, s, t);
      assert rs[..k][..k - 1] == rs[..k - 1];
      LastTime(capacity, rate, start, rs[..k - 1]);
      var l := After(capacity, rate, start, rs[..k - 1]);
      var got := Granted(rs, Answers(capacity, rate, start, rs), k - 1, s, t);
      if s <= rs[k - 1].now {
        if k == 1 && s <= l.last {
          EarnedNonNegative(rate, l.last - s);
        }
        PotentialStep(capacity, rate, l, rs[k - 1], got, s);
      }
    }
  }

  /** The rate bound, in every run, over every closed interval. */
  lemma RateBound(capacity: int, rate: int, start: int, rs: seq<Request>, s: int, t: int)
    requires 0 <= rate && 0 <= capacity && Sorted(start, rs) && NonNegative(rs) && s <= t
    ensures Granted(rs, Answers(capacity, rate, start, rs), |rs|, s, t) as real
            <= capacity as real + Earned(rate, t - s)
  {
    hide Earned, After, Answers;
    var k := SplitAt(start, rs, |rs|, t);
    LateGrantsDoNotCount(rs, Answers(capacity, rate, start, rs), k, |rs|, s, t);
    GrantPotential(capacity, rate, start, rs, k, s, t);
    EarnedNonNegative(rate, t - s);
    if k > 0 && s <= rs[k - 1].now {
      assert forall i :: 0 <= i < k ==> rs[..k][i] == rs[i];
      LastTime(capacity, rate, start, rs[..k]);
      EarnedIsMonotone(rate, rs[k - 1].now - s, t - s);
    }
  }

  class LeakyBucketLimiter {
    const capacity: int
    const leakRate: int
    var water: int
    var lastLeak: int

    ghost function Contents(): Level
      reads this
    {
      Level(water, lastLeak)
    }

    constructor (capacity: int, rate: int, now: int)
      ensures this.capacity == capacity && leakRate == rate
      ensures Contents() == After(capacity, rate, now, [])
    {
      this.capacity, leakRate, water, lastLeak := capacity, rate, 0, now;
    }

    method AllowN(n: int, now: int) returns (ok: bool)
      modifies this
      ensures ok == Allows(capacity, leakRate, old(Contents()), Request(now, n))
      ensures Contents() == Pour(capacity, leakRate, old(Contents()), Request(now, n))
    {
      var leaked := Leak(leakRate, now - lastLeak);
      if leaked > water {
        leaked := water;
      }
      water := water - leaked;
      lastLeak := now;
      if water + n <= capacity {
        water := water + n;
        return true;
      }
      return false;
    }
  }
}
