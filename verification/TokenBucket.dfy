/** The in-memory token bucket and the Redis script that keeps the same bucket under an
    expiring key.  Tokens are reals. */
module TokenBucket {
  import opened Requests

  function Min(a: real, b: real): real {
    if a < b then a else b
  }

  // ----- the in-memory bucket -----

  datatype Bucket = Bucket(tokens: real, last: int)

  function Refill(rate: int, burst: int, b: Bucket, now: int): real {
    Min(burst as real, b.tokens + Earned(rate, now - b.last))
  }

  predicate Allows(rate: int, burst: int, b: Bucket, r: Request) {
    Refill(rate, burst, b, r.now) >= r.n as real
  }

  function Take(rate: int, burst: int, b: Bucket, r: Request): Bucket {
    var filled := Refill(rate, burst, b, r.now);
    Bucket(if Allows(rate, burst, b, r) then filled - r.n as real else filled, r.now)
  }

  /** The bucket after a history of requests to a limiter created at time `start`. */
  function After(rate: int, burst: int, start: int, rs: seq<Request>): Bucket {
    if rs == [] then Bucket(burst as real, start)
    else Take(rate, burst, After(rate, burst, start, rs[..|rs| - 1]), rs[|rs| - 1])
  }

  function Answer(rate: int, burst: int, start: int, rs: seq<Request>, i: nat): bool
    requires i < |rs|
  {
    Allows(rate, burst, After(rate, burst, start, rs[..i]), rs[i])
  }

  function Answers(rate: int, burst: int, start: int, rs: seq<Request>): (ok: seq<bool>)
    ensures |ok| == |rs|
  {
    seq(|rs|, i requires 0 <= i < |rs| => Answer(rate, burst, start, rs, i))
  }

  lemma {:induction false} TokensNonNegative(rate: int, burst: int, start: int, rs: seq<Request>)
    requires 0 <= rate && 0 <= burst && Sorted(start, rs)
    ensures var b := After(rate, burst, start, rs);
            0.0 <= b.tokens && b.last == if rs == [] then start else rs[|rs| - 1].now
  {
    hide Earned;
    if rs != [] {
      var front := rs[..|rs| - 1];
      assert forall i :: 0 <= i < |front| ==> front[i] == rs[i];
      TokensNonNegative(rate, burst, start, front);
      var b := After(rate, burst, start, front);
      EarnedNonNegative(rate, rs[|rs| - 1].now - b.last);
    }
  }

  lemma PotentialStep(rate: int, burst: int, b: Bucket, r: Request, got: int, s: int, counting: bool)
    requires 0 <= rate && b.last <= r.now && s <= r.now
    requires if counting then s <= b.last && got as real + b.tokens <= burst as real + Earned(rate, b.last - s)
             else got == 0
    ensures (if Allows(rate, burst, b, r) then got + r.n else got) as real + Take(rate, burst, b, r).tokens
            <= burst as real + Earned(rate, r.now - s)
  {
    hide Earned;
    EarnedNonNegative(rate, r.now - s);
    if counting {
      EarnedAdds(rate, b.last - s, r.now - b.last);
    }
  }

  /** Tokens in hand plus grants since s never exceed what the bucket could have held at s
      plus what it has earned since. */
  lemma {:induction false} GrantPotential(rate: int, burst: int, start: int, rs: seq<Request>, k: nat,
                                          s: int, t: int)
    requires 0 <= rate && 0 <= burst && Sorted(start, rs) && k <= |rs|
    requires forall i :: 0 <= i < k ==> rs[i].now <= t
    ensures var got := Granted(rs, Answers(rate, burst, start, rs), k, s, t) as real;
            if k > 0 && s <= rs[k - 1].now
            then got + After(rate, burst, start, rs[..k]).tokens
                 <= burst as real + Earned(rate, rs[k - 1].now - s)
            else got == 0.0
  {
    hide Earned;
    if k != 0 {
      GrantPotential(rate, burst, start, rs, k - 1, s, t);
      assert rs[..k][..k - 1] == rs[..k - 1];
      TokensNonNegative(rate, burst, start, rs[..k - 1]);
      var b := After(rate, burst, start, rs[..k - 1]);
      var got := Granted(rs, Answers(rate, burst, start, rs), k - 1, s, t);
      if s <= rs[k - 1].now {
        PotentialStep(rate, burst, b, rs[k - 1], got, s, k > 1 && s <= rs[k - 2].now);
      }
    }
  }

  /** The rate bound: in every run, over every closed interval, whatever the request sizes. */
  lemma RateBound(rate: int, burst: int, start: int, rs: seq<Request>, s: int, t: int)
    requires 0 <= rate && 0 <= burst && Sorted(start, rs) && s <= t
    ensures Granted(rs, Answers(rate, burst, start, rs), |rs|, s, t) as real <= burst as real + Earned(rate, t - s)
  {
    hide Earned;
    var k := SplitAt(start, rs, |rs|, t);
    LateGrantsDoNotCount(rs, Answers(rate, burst, start, rs), k, |rs|, s, t);
    GrantPotential(rate, burst, start, rs, k, s, t);
    EarnedNonNegative(rate, t - s);
    if k > 0 && s <= rs[k - 1].now {
      TokensNonNegative(rate, burst, start, rs[..k]);
      EarnedIsMonotone(rate, rs[k - 1].now - s, t - s);
    }
  }

  // ----- the decision, without any bucket -----

  /** x more units at time `now` keep every interval that begins with one of the first k requests
      within the burst and what is earned in it; so does the moment itself. */
  ghost predicate Fits(rate: int, burst: int, rs: seq<Request>, ok: seq<bool>, k: nat, now: int, x: real)
    requires k <= |rs| == |ok|
  {
    x <= burst as real && forall j :: 0 <= j < k ==> FitsSince(rate, burst, rs, ok, j, k, now, x)
  }

  predicate FitsSince(rate: int, burst: int, rs: seq<Request>, ok: seq<bool>, j: nat, k: nat, now: int, x: real)
    requires j < k <= |rs| == |ok|
  {
    GrantedFrom(rs, ok, j, k) as real + x <= burst as real + Earned(rate, now - rs[j].now)
  }

  /** The tokens in hand are exactly what fits. */
  lemma {:induction false} RefillIsWhatFits(rate: int, burst: int, start: int, rs: seq<Request>, k: nat, now: int,
                                            x: real)
    requires 0 <= rate && 0 <= burst && Sorted(start, rs) && k <= |rs|
    requires start <= now && (k > 0 ==> rs[k - 1].now <= now)
    ensures x <= Refill(rate, burst, After(rate, burst, start, rs[..k]), now) <==>
            Fits(rate, burst, rs, Answers(rate, burst, start, rs), k, now, x)
    decreases k
  {
    hide Earned, Answers;
    var ok := Answers(rate, burst, start, rs);
    if k == 0 {
      EarnedNonNegative(rate, now - start);
    } else {
      var r := rs[k - 1];
      var spent := if ok[k - 1] then r.n as real else 0.0;
      var x' := x + spent - Earned(rate, now - r.now);
      RefillIsWhatFits(rate, burst, start, rs, k - 1, r.now, x');
      TokensAfter(rate, burst, start, rs, k);
      FitsStep(rate, burst, rs, ok, k, now, x);
      EarnedNonNegative(rate, now - r.now);
    }
  }

  lemma TokensAfter(rate: int, burst: int, start: int, rs: seq<Request>, k: nat)
    requires 0 < k <= |rs|
    ensures var b, r := After(rate, burst, start, rs[..k - 1]), rs[k - 1];
            var spent := if Answers(rate, burst, start, rs)[k - 1] then r.n as real else 0.0;
            After(rate, burst, start, rs[..k]) == Bucket(Refill(rate, burst, b, r.now) - spent, r.now)
  {
    hide Earned, Refill;
    assert rs[..k][..k - 1] == rs[..k - 1];
  }

  lemma FitsStep(rate: int, burst: int, rs: seq<Request>, ok: seq<bool>, k: nat, now: int, x: real)
    requires 0 < k <= |rs| == |ok|
    ensures var r := rs[k - 1];
            var x' := x + (if ok[k - 1] then r.n as real else 0.0) - Earned(rate, now - r.now);
            Fits(rate, burst, rs, ok, k, now, x) <==>
            x <= burst as real && Fits(rate, burst, rs, ok, k - 1, r.now, x')
  {
    hide Earned;
    var r := rs[k - 1];
    var x' := x + (if ok[k - 1] then r.n as real else 0.0) - Earned(rate, now - r.now);
    assert GrantedFrom(rs, ok, k - 1, k - 1) == 0;
    assert FitsSince(rate, burst, rs, ok, k - 1, k, now, x) <==> x' <= burst as real;
    hide FitsSince;
    if Fits(rate, burst, rs, ok, k, now, x) {
      var before := k - 1;
      forall j | 0 <= j < before ensures FitsSince(rate, burst, rs, ok, j, before, r.now, x') {
        SinceStep(rate, burst, rs, ok, j, k, now, x);
      }
    }
    if x <= burst as real && Fits(rate, burst, rs, ok, k - 1, r.now, x') {
      forall j | 0 <= j < k ensures FitsSince(rate, burst, rs, ok, j, k, now, x) {
        if j < k - 1 {
          SinceStep(rate, burst, rs, ok, j, k, now, x);
        }
      }
    }
  }

  lemma SinceStep(rate: int, burst: int, rs: seq<Request>, ok: seq<bool>, j: nat, k: nat, now: int, x: real)
    requires j < k - 1 && k <= |rs| == |ok|
    ensures var r := rs[k - 1];
            var x' := x + (if ok[k - 1] then r.n as real else 0.0) - Earned(rate, now - r.now);
            FitsSince(rate, burst, rs, ok, j, k, now, x) <==> FitsSince(rate, burst, rs, ok, j, k - 1, r.now, x')
  {
    hide Earned;
    EarnedAdds(rate, rs[k - 1].now - rs[j].now, now - rs[k - 1].now);
  }

  /** A request is granted exactly when no interval that ends with it, and begins with it or with
      an earlier request, then gets more than the burst and what is earned in the interval. */
  lemma DecisionIsExact(rate: int, burst: int, start: int, rs: seq<Request>, k: nat)
    requires 0 <= rate && 0 <= burst && Sorted(start, rs) && k < |rs|
    ensures Answers(rate, burst, start, rs)[k] <==>
            Fits(rate, burst, rs, Answers(rate, burst, start, rs), k, rs[k].now, rs[k].n as real)
  {
    RefillIsWhatFits(rate, burst, start, rs, k, rs[k].now, rs[k].n as real);
  }

  // ----- the bucket under an expiring key -----

  datatype Stored = Missing | Hash(tokens: real, lastTime: int, expiry: int)

  /** One execution of the script; `interval` is in whole seconds. */
  function ScriptTokens(rate: int, burst: int, st: Stored, now: int): real {
    if st.Missing? || st.expiry <= now then Min(burst as real, burst as real + Earned(rate, now - now))
    else Min(burst as real, st.tokens + Earned(rate, now - st.lastTime))
  }

  predicate ScriptAllows(rate: int, burst: int, st: Stored, r: Request) {
    ScriptTokens(rate, burst, st, r.now) >= r.n as real
  }

  function Script(rate: int, burst: int, interval: int, st: Stored, r: Request): Stored {
    var filled := ScriptTokens(rate, burst, st, r.now);
    Hash(if ScriptAllows(rate, burst, st, r) then filled - r.n as real else filled,
         r.now, r.now + interval * TICKS)
  }

  function StoredAfter(rate: int, burst: int, interval: int, rs: seq<Request>): Stored {
    if rs == [] then Missing
    else Script(rate, burst, interval, StoredAfter(rate, burst, interval, rs[..|rs| - 1]), rs[|rs| - 1])
  }

  function ScriptAnswer(rate: int, burst: int, interval: int, rs: seq<Request>, i: nat): bool
    requires i < |rs|
  {
    ScriptAllows(rate, burst, StoredAfter(rate, burst, interval, rs[..i]), rs[i])
  }

  ghost predicate SameAnswers(rate: int, burst: int, interval: int, start: int, rs: seq<Request>) {
    forall i :: 0 <= i < |rs| ==>
      ScriptAnswer(rate, burst, interval, rs, i) == Answer(rate, burst, start, rs, i)
  }

  ghost predicate Simulates(rate: int, burst: int, interval: int, start: int, rs: seq<Request>) {
    var st, b := StoredAfter(rate, burst, interval, rs), After(rate, burst, start, rs);
    if rs == [] then st.Missing?
    else st == Hash(b.tokens, b.last, b.last + interval * TICKS)
  }

  /** A bucket left alone for the whole interval is full. */
  lemma IdleFills(rate: int, burst: int, interval: int, elapsed: int)
    requires 0 < rate && burst <= rate * interval && interval * TICKS <= elapsed
    ensures burst as real <= Earned(rate, elapsed)
  {
    EarnedIsMonotone(rate, interval * TICKS, elapsed);
    WholeSeconds(interval);
    assert (rate * interval) as real == interval as real * rate as real;
  }

  lemma SameStep(rate: int, burst: int, interval: int, start: int, rs: seq<Request>, r: Request)
    requires 0 < rate && 0 < burst && burst <= rate * interval
    requires Sorted(start, rs) && Sorted(start, rs + [r])
    requires Simulates(rate, burst, interval, start, rs)
    ensures var st, b := StoredAfter(rate, burst, interval, rs), After(rate, burst, start, rs);
            ScriptTokens(rate, burst, st, r.now) == Refill(rate, burst, b, r.now)
  {
    hide Earned;
    var b := After(rate, burst, start, rs);
    assert (rs + [r])[|rs|] == r && forall i :: 0 <= i < |rs| ==> (rs + [r])[i] == rs[i];
    TokensNonNegative(rate, burst, start, rs);
    EarnedNonNegative(rate, r.now - b.last);
    if rs != [] && b.last + interval * TICKS <= r.now {
      IdleFills(rate, burst, interval, r.now - b.last);
    }
    NothingEarned(rate);
  }

  lemma {:induction false} Simulation(rate: int, burst: int, interval: int, start: int, rs: seq<Request>)
    requires 0 < rate && 0 < burst && burst <= rate * interval && Sorted(start, rs)
    ensures Simulates(rate, burst, interval, start, rs)
  {
    hide Earned;
    if rs != [] {
      var front := rs[..|rs| - 1];
      assert forall i :: 0 <= i < |front| ==> front[i] == rs[i];
      assert front + [rs[|rs| - 1]] == rs;
      Simulation(rate, burst, interval, start, front);
      SameStep(rate, burst, interval, start, front, rs[|rs| - 1]);
    }
  }

  /** Losing the key to its expiry is invisible. */
  lemma ExpiryIsInvisible(rate: int, burst: int, interval: int, start: int, rs: seq<Request>)
    requires 0 < rate && 0 < burst && burst <= rate * interval && Sorted(start, rs)
    ensures SameAnswers(rate, burst, interval, start, rs)
  {
    hide Earned;
    forall i | 0 <= i < |rs|
      ensures ScriptAnswer(rate, burst, interval, rs, i) == Answer(rate, burst, start, rs, i)
    {
      var front := rs[..i];
      assert forall j :: 0 <= j < |front| ==> front[j] == rs[j];
      assert front + [rs[i]] == rs[..i + 1];
      Simulation(rate, burst, interval, start, front);
      SameStep(rate, burst, interval, start, front, rs[i]);
    }
  }

  /** A burst larger than one interval's earnings is granted again as soon as the key is gone. */
  lemma ExpiryShows(rate: int, burst: int, interval: int, start: int) returns (rs: seq<Request>)
    requires 0 < rate && 0 < burst && rate * interval < burst
    ensures Sorted(start, rs) && !SameAnswers(rate, burst, interval, start, rs)
  {
    var wait := if interval < 0 then 0 else interval * TICKS;
    rs := [Request(start, burst), Request(start + wait, burst)];
    assert rs[..0] == [] && rs[..1] == [rs[0]] && rs[..1][..0] == [];
    NothingEarned(rate);
    var b := After(rate, burst, start, rs[..1]);
    assert After(rate, burst, start, []) == Bucket(burst as real, start);
    assert Refill(rate, burst, Bucket(burst as real, start), start) == burst as real;
    assert b == Bucket(0.0, start);
    assert ScriptAnswer(rate, burst, interval, rs, 1);
    assert Earned(rate, wait) < burst as real by {
      if interval >= 0 {
        WholeSeconds(interval);
        assert (rate * interval) as real == interval as real * rate as real;
      }
    }
    assert !Answer(rate, burst, start, rs, 1);
  }

  /** The script answers like the in-memory limiter in every run exactly when the burst is
      earned back within the expiry interval.  Intervals below a second count as zero. */
  lemma RefinesIff(rate: int, burst: int, interval: int, start: int)
    requires 0 < rate && 0 < burst
    ensures (forall rs :: Sorted(start, rs) ==> SameAnswers(rate, burst, interval, start, rs)) <==>
            burst <= rate * interval
  {
    if burst <= rate * interval {
      forall rs | Sorted(start, rs) ensures SameAnswers(rate, burst, interval, start, rs) {
        ExpiryIsInvisible(rate, burst, interval, start, rs);
      }
    } else {
      var rs := ExpiryShows(rate, burst, interval, start);
    }
  }

  // ----- the objects -----

  class TokenBucketLimiter {
    var tokens: real
    var maxTokens: real
    var refillRate: real
    var lastRefill: int
    ghost const rate: int
    ghost const burst: int

    ghost predicate Valid()
      reads this
    {
      maxTokens == burst as real && refillRate == rate as real
    }

    ghost function Contents(): Bucket
      reads this
    {
      Bucket(tokens, lastRefill)
    }

    constructor (rate: int, burst: int, now: int)
      ensures Valid() && this.rate == rate && this.burst == burst
      ensures Contents() == After(rate, burst, now, [])
    {
      tokens, maxTokens, refillRate, lastRefill := burst as real, burst as real, rate as real, now;
      this.rate, this.burst := rate, burst;
    }

    method AllowN(n: int, now: int) returns (ok: bool)
      requires Valid()
      modifies this
      ensures Valid()
      ensures ok == Allows(rate, burst, old(Contents()), Request(now, n))
      ensures Contents() == Take(rate, burst, old(Contents()), Request(now, n))
    {
      var elapsed := Seconds(now - lastRefill);
      tokens := tokens + elapsed * refillRate;
      if tokens > maxTokens {
        tokens := maxTokens;
      }
      lastRefill := now;
      if tokens >= n as real {
        tokens := tokens - n as real;
        return true;
      }
      return false;
    }
  }

  /** Truncation towards zero, as in Go. */
  function InSeconds(ns: int): (s: int)
    ensures 0 <= ns ==> s * 1_000_000_000 <= ns < (s + 1) * 1_000_000_000
    ensures ns < 0 ==> (s - 1) * 1_000_000_000 < ns <= s * 1_000_000_000
  {
    if ns < 0 then -(-ns / 1_000_000_000) else ns / 1_000_000_000
  }

  ghost predicate EarnsBurst(rate: int, burst: int, intervalNs: int, s: int) {
    s * 1_000_000_000 <= intervalNs && burst <= rate * s
  }

  lemma WholeSecondsEarn(rate: int, burst: int, intervalNs: int)
    requires 0 < rate && 0 < burst && 0 < intervalNs
    ensures (exists s :: EarnsBurst(rate, burst, intervalNs, s)) <==> burst <= rate * InSeconds(intervalNs)
  {
    var whole := InSeconds(intervalNs);
    if burst <= rate * whole {
      assert EarnsBurst(rate, burst, intervalNs, whole);
    }
    if s :| EarnsBurst(rate, burst, intervalNs, s) {
      hide InSeconds;
      assert s <= whole;
      MoreEarnsMore(rate, s, whole);
    }
  }

  lemma MoreEarnsMore(rate: int, a: int, b: int)
    requires 0 < rate && a <= b
    ensures rate * a <= rate * b
  {
    assert 0 <= rate * (b - a);
  }

  /** An interval option stands for its whole seconds, so the limiter refines the one in memory
      exactly when some whole number of seconds within the option earns the burst. */
  lemma OptionRefinesIff(rate: int, burst: int, intervalNs: int, start: int)
    requires 0 < rate && 0 < burst && 0 < intervalNs
    ensures (forall rs :: Sorted(start, rs) ==> SameAnswers(rate, burst, InSeconds(intervalNs), start, rs)) <==>
            exists s :: EarnsBurst(rate, burst, intervalNs, s)
  {
    hide *;
    RefinesIff(rate, burst, InSeconds(intervalNs), start);
    WholeSecondsEarn(rate, burst, intervalNs);
  }

  class DistributedLimiter {
    const rate: int
    const burst: int
    const interval: int
    var stored: Stored

    /** Missing or non-positive options get their defaults; the interval is given in
        nanoseconds and handed to the script in whole seconds. */
    constructor (rate: int, burst: int, intervalNs: int)
      ensures this.rate == (if rate <= 0 then 100 else rate)
      ensures this.burst == (if burst <= 0 then this.rate * 2 else burst)
      ensures this.interval == (if intervalNs == 0 then 1 else InSeconds(intervalNs))
      ensures 0 < this.rate && 0 < this.burst && stored == Missing
    {
      var r := if rate <= 0 then 100 else rate;
      this.rate := r;
      this.burst := if burst <= 0 then r * 2 else burst;
      this.interval := if intervalNs == 0 then 1 else InSeconds(intervalNs);
      stored := Missing;
    }

    method AllowN(n: int, now: int) returns (ok: bool)
      modifies this
      ensures ok == ScriptAllows(rate, burst, old(stored), Request(now, n))
      ensures stored == Script(rate, burst, interval, old(stored), Request(now, n))
    {
      var tokens, lastTime := burst as real, now;
      if stored.Hash? && now < stored.expiry {
        tokens, lastTime := stored.tokens, stored.lastTime;
      }
      var elapsed := Seconds(now - lastTime);
      var newTokens := Min(burst as real, tokens + elapsed * rate as real);
      ok := false;
      if newTokens >= n as real {
        newTokens := newTokens - n as real;
        ok := true;
      }
      stored := Hash(newTokens, now, now + interval * TICKS);
    }
  }
}
