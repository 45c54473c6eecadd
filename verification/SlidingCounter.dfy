/** The Redis sliding counter: one expiring counter per precision bucket.
    Times, window and precision are whole milliseconds. */
module SlidingCounter {

  datatype Config = Config(rate: nat, window: int, precision: int) {
    /** Zero is replaced by a default, and the script divides by the precision. */
    predicate Valid() {
      0 < rate && 0 < window && 0 < precision
    }

    /** math.ceil(window / precision) */
    function Windows(): (w: nat)
      requires Valid()
      ensures 1 <= w && window <= w * precision < window + precision
    {
      CeilBounds(window, precision);
      (window + precision - 1) / precision
    }

    function Bucket(now: int): int
      requires Valid()
    {
      now / precision
    }
  }

  lemma CeilBounds(a: int, b: int)
    requires 0 < a && 0 < b
    ensures var w := (a + b - 1) / b; 1 <= w && a <= w * b < a + b
  {
    var w := (a + b - 1) / b;
    assert w * b + (a + b - 1) % b == a + b - 1;
    if w <= 0 {
      MulMonotone(w, 0, b);
      assert false;
    }
  }

  datatype Counter = Counter(value: int, expiry: int)

  type Store = map<int, Counter>

  /** GET k or '0' */
  function Get(st: Store, now: int, k: int): int {
    if k in st && now < st[k].expiry then st[k].value else 0
  }

  /** The sum over buckets index - count + 1, ..., index. */
  function Count(st: Store, now: int, index: int, count: nat): int {
    if count == 0 then 0 else Count(st, now, index, count - 1) + Get(st, now, index - (count - 1))
  }

  /** AllowN(n) at time now; Allow is the case n = 1. */
  datatype Request = Request(now: int, n: int)

  predicate Allows(cfg: Config, st: Store, r: Request)
    requires cfg.Valid()
  {
    Count(st, r.now, cfg.Bucket(r.now), cfg.Windows()) + r.n <= cfg.rate
  }

  /** INCRBY and PEXPIRE on the current bucket. */
  function Step(cfg: Config, st: Store, r: Request): Store
    requires cfg.Valid()
  {
    var k := cfg.Bucket(r.now);
    if Allows(cfg, st, r) then st[k := Counter(Get(st, r.now, k) + r.n, r.now + cfg.window)] else st
  }

  function After(cfg: Config, rs: seq<Request>): Store
    requires cfg.Valid()
  {
    if rs == [] then map[] else Step(cfg, After(cfg, rs[..|rs| - 1]), rs[|rs| - 1])
  }

  /** What a history was granted in one bucket. */
  function InBucket(cfg: Config, rs: seq<Request>, b: int): int
    requires cfg.Valid()
  {
    if rs == [] then 0
    else
      var front, r := rs[..|rs| - 1], rs[|rs| - 1];
      InBucket(cfg, front, b) +
      (if cfg.Bucket(r.now) == b && Allows(cfg, After(cfg, front), r) then r.n else 0)
  }

  /** What a history was granted in the buckets b, b + 1, ..., b + count - 1. */
  function InBuckets(cfg: Config, rs: seq<Request>, b: int, count: nat): int
    requires cfg.Valid()
  {
    if count == 0 then 0 else InBuckets(cfg, rs, b, count - 1) + InBucket(cfg, rs, b + count - 1)
  }

  ghost predicate Sorted(rs: seq<Request>) {
    forall i, j :: 0 <= i < j < |rs| ==> rs[i].now <= rs[j].now
  }

  ghost predicate NonNegative(rs: seq<Request>) {
    forall i :: 0 <= i < |rs| ==> 0 <= rs[i].n
  }

  // ----- the counters are exact where they are read -----

  lemma BucketBounds(cfg: Config, now: int)
    requires cfg.Valid()
    ensures cfg.Bucket(now) * cfg.precision <= now < (cfg.Bucket(now) + 1) * cfg.precision
  {
    assert now == cfg.Bucket(now) * cfg.precision + now % cfg.precision;
  }

  lemma MulMonotone(a: int, b: int, c: int)
    requires a <= b && 0 <= c
    ensures a * c <= b * c
  {
    assert 0 <= (b - a) * c;
  }

  lemma BucketMonotone(cfg: Config, s: int, t: int)
    requires cfg.Valid() && s <= t
    ensures cfg.Bucket(s) <= cfg.Bucket(t)
  {
    BucketBounds(cfg, s);
    BucketBounds(cfg, t);
    if cfg.Bucket(t) + 1 <= cfg.Bucket(s) {
      MulMonotone(cfg.Bucket(t) + 1, cfg.Bucket(s), cfg.precision);
      assert false;
    }
  }

  /** A counter keeps its value as long as its bucket can be read, that is, until the first
      bucket for which it is out of the window begins. */
  ghost predicate Exact(cfg: Config, st: Store, rs: seq<Request>, b: int)
    requires cfg.Valid()
  {
    if b in st then
      st[b].value == InBucket(cfg, rs, b) && (b + cfg.Windows()) * cfg.precision <= st[b].expiry
    else InBucket(cfg, rs, b) == 0
  }

  lemma ExactIsRead(cfg: Config, st: Store, rs: seq<Request>, now: int, b: int)
    requires cfg.Valid() && Exact(cfg, st, rs, b)
    requires cfg.Bucket(now) - cfg.Windows() < b
    ensures Get(st, now, b) == InBucket(cfg, rs, b)
  {
    BucketBounds(cfg, now);
    MulMonotone(cfg.Bucket(now) + 1, b + cfg.Windows(), cfg.precision);
  }

  lemma {:induction false} CountIsExact(cfg: Config, st: Store, rs: seq<Request>, now: int, count: nat)
    requires cfg.Valid() && count <= cfg.Windows()
    requires forall b :: Exact(cfg, st, rs, b)
    ensures Count(st, now, cfg.Bucket(now), count) ==
            InBuckets(cfg, rs, cfg.Bucket(now) - count + 1, count)
  {
    if count != 0 {
      CountIsExact(cfg, st, rs, now, count - 1);
      ExactIsRead(cfg, st, rs, now, cfg.Bucket(now) - (count - 1));
      FirstBucket(cfg, rs, cfg.Bucket(now) - count + 1, count);
    }
  }

  lemma {:induction false} FirstBucket(cfg: Config, rs: seq<Request>, b: int, count: nat)
    requires cfg.Valid() && 0 < count
    ensures InBuckets(cfg, rs, b, count) == InBucket(cfg, rs, b) + InBuckets(cfg, rs, b + 1, count - 1)
  {
    if count > 1 {
      FirstBucket(cfg, rs, b, count - 1);
    }
  }

  lemma {:induction false} CountersAreExact(cfg: Config, rs: seq<Request>)
    requires cfg.Valid() && cfg.window == cfg.Windows() * cfg.precision
    ensures forall b :: Exact(cfg, After(cfg, rs), rs, b)
  {
    if rs != [] {
      var front, r := rs[..|rs| - 1], rs[|rs| - 1];
      var st, k := After(cfg, front), cfg.Bucket(r.now);
      CountersAreExact(cfg, front);
      ExactIsRead(cfg, st, front, r.now, k);
      BucketBounds(cfg, r.now);
      assert (k + cfg.Windows()) * cfg.precision == k * cfg.precision + cfg.window;
      forall b ensures Exact(cfg, After(cfg, rs), rs, b) {
        assert Exact(cfg, st, front, b);
      }
    }
  }

  // ----- the bound -----

  /** Nothing was granted yet in a bucket later than the last request's. */
  lemma {:induction false} FutureIsEmpty(cfg: Config, rs: seq<Request>, last: int, b: int)
    requires cfg.Valid() && (forall i :: 0 <= i < |rs| ==> rs[i].now <= last)
    requires cfg.Bucket(last) < b
    ensures InBucket(cfg, rs, b) == 0
  {
    if rs != [] {
      FutureIsEmpty(cfg, rs[..|rs| - 1], last, b);
      BucketMonotone(cfg, rs[|rs| - 1].now, last);
    }
  }

  lemma {:induction false} OtherBuckets(cfg: Config, rs: seq<Request>, b: int, count: nat)
    requires cfg.Valid() && rs != []
    ensures var front, r := rs[..|rs| - 1], rs[|rs| - 1];
            InBuckets(cfg, rs, b, count) == InBuckets(cfg, front, b, count) +
              (if b <= cfg.Bucket(r.now) < b + count && Allows(cfg, After(cfg, front), r) then r.n else 0)
  {
    if count != 0 {
      OtherBuckets(cfg, rs, b, count - 1);
    }
  }

  lemma {:induction false} SplitBuckets(cfg: Config, rs: seq<Request>, b: int, m: nat, n: nat)
    requires cfg.Valid()
    ensures InBuckets(cfg, rs, b, m + n) == InBuckets(cfg, rs, b, m) + InBuckets(cfg, rs, b + m, n)
  {
    if n != 0 {
      SplitBuckets(cfg, rs, b, m, n - 1);
    }
  }

  lemma {:induction false} LateBuckets(cfg: Config, rs: seq<Request>, last: int, b: int, count: nat)
    requires cfg.Valid() && (forall i :: 0 <= i < |rs| ==> rs[i].now <= last)
    requires cfg.Bucket(last) < b
    ensures InBuckets(cfg, rs, b, count) == 0
  {
    if count != 0 {
      LateBuckets(cfg, rs, last, b, count - 1);
      FutureIsEmpty(cfg, rs, last, b + count - 1);
    }
  }

  lemma {:induction false} BucketNonNegative(cfg: Config, rs: seq<Request>, b: int)
    requires cfg.Valid() && NonNegative(rs)
    ensures 0 <= InBucket(cfg, rs, b)
  {
    if rs != [] {
      var front := rs[..|rs| - 1];
      assert forall i :: 0 <= i < |front| ==> front[i] == rs[i];
      BucketNonNegative(cfg, front, b);
    }
  }

  lemma {:induction false} BucketsNonNegative(cfg: Config, rs: seq<Request>, b: int, count: nat)
    requires cfg.Valid() && NonNegative(rs)
    ensures 0 <= InBuckets(cfg, rs, b, count)
  {
    if count != 0 {
      BucketsNonNegative(cfg, rs, b, count - 1);
      BucketNonNegative(cfg, rs, b + count - 1);
    }
  }

  /** If the precision divides the window, any `Windows()` consecutive buckets together are
      granted at most `rate`, in every run, although the counters expire. */
  lemma {:induction false} WindowBound(cfg: Config, rs: seq<Request>, b: int)
    requires cfg.Valid() && Sorted(rs) && NonNegative(rs) && cfg.window == cfg.Windows() * cfg.precision
    ensures InBuckets(cfg, rs, b, cfg.Windows()) <= cfg.rate
  {
    var w := cfg.Windows();
    if rs == [] {
      EmptyRun(cfg, b, w);
    } else {
      var front, r := rs[..|rs| - 1], rs[|rs| - 1];
      assert forall i :: 0 <= i < |front| ==> front[i] == rs[i];
      var st, k := After(cfg, front), cfg.Bucket(r.now);
      WindowBound(cfg, front, b);
      OtherBuckets(cfg, rs, b, w);
      if b <= k < b + w && Allows(cfg, st, r) {
        CountersAreExact(cfg, front);
        CountIsExact(cfg, st, front, r.now, w);
        SplitBuckets(cfg, front, k - w + 1, w - (k - b + 1), k - b + 1);
        BucketsNonNegative(cfg, front, k - w + 1, w - (k - b + 1));
        SplitBuckets(cfg, front, b, k - b + 1, w - (k - b + 1));
        LateBuckets(cfg, front, r.now, k + 1, w - (k - b + 1));
      }
    }
  }

  /** If the precision divides the window, a request is granted exactly when its units and those
      granted in the window's buckets that end with its own are together at most the rate. */
  lemma DecisionIsExact(cfg: Config, rs: seq<Request>, r: Request)
    requires cfg.Valid() && cfg.window == cfg.Windows() * cfg.precision
    ensures Allows(cfg, After(cfg, rs), r) <==>
            InBuckets(cfg, rs, cfg.Bucket(r.now) - cfg.Windows() + 1, cfg.Windows()) + r.n <= cfg.rate
  {
    CountersAreExact(cfg, rs);
    CountIsExact(cfg, After(cfg, rs), rs, r.now, cfg.Windows());
  }

  lemma {:induction false} EmptyRun(cfg: Config, b: int, count: nat)
    requires cfg.Valid()
    ensures InBuckets(cfg, [], b, count) == 0
  {
    if count != 0 {
      EmptyRun(cfg, b, count - 1);
    }
  }

  /** What a history was granted between times s and t, both included. */
  function Between(cfg: Config, rs: seq<Request>, s: int, t: int): int
    requires cfg.Valid()
  {
    if rs == [] then 0
    else
      var front, r := rs[..|rs| - 1], rs[|rs| - 1];
      Between(cfg, front, s, t) + (if s <= r.now <= t && Allows(cfg, After(cfg, front), r) then r.n else 0)
  }

  lemma {:induction false} BetweenInBuckets(cfg: Config, rs: seq<Request>, s: int, t: int, b: int, count: nat)
    requires cfg.Valid() && NonNegative(rs) && b == cfg.Bucket(s) && cfg.Bucket(t) < b + count
    ensures Between(cfg, rs, s, t) <= InBuckets(cfg, rs, b, count)
  {
    if rs != [] {
      var front, r := rs[..|rs| - 1], rs[|rs| - 1];
      assert forall i :: 0 <= i < |front| ==> front[i] == rs[i];
      BetweenInBuckets(cfg, front, s, t, b, count);
      OtherBuckets(cfg, rs, b, count);
      if s <= r.now <= t {
        BucketMonotone(cfg, s, r.now);
        BucketMonotone(cfg, r.now, t);
      }
    } else {
      EmptyRun(cfg, b, count);
    }
  }

  /** Hence any closed interval one precision step shorter than the window gets at most `rate`. */
  lemma IntervalBound(cfg: Config, rs: seq<Request>, s: int, t: int)
    requires cfg.Valid() && Sorted(rs) && NonNegative(rs) && cfg.window == cfg.Windows() * cfg.precision
    requires t - s <= cfg.window - cfg.precision
    ensures Between(cfg, rs, s, t) <= cfg.rate
  {
    var b, c := cfg.Bucket(s), cfg.Bucket(t);
    BucketBounds(cfg, s);
    BucketBounds(cfg, t);
    assert (b + cfg.Windows()) * cfg.precision == b * cfg.precision + cfg.window;
    assert (b + 1) * cfg.precision == b * cfg.precision + cfg.precision;
    if b + cfg.Windows() <= c {
      MulMonotone(b + cfg.Windows(), c, cfg.precision);
      assert false;
    }
    BetweenInBuckets(cfg, rs, s, t, b, cfg.Windows());
    WindowBound(cfg, rs, b);
  }

  /** If the precision does not divide the window, a full first bucket expires while it is
      still read, and the whole rate is granted once more. */
  lemma UnevenWindowLeaks(cfg: Config) returns (rs: seq<Request>)
    requires cfg.Valid() && cfg.window != cfg.Windows() * cfg.precision
    ensures Sorted(rs) && NonNegative(rs) && cfg.rate < InBuckets(cfg, rs, 0, cfg.Windows())
  {
    var w, p := cfg.Windows(), cfg.precision;
    rs := [Request(0, cfg.rate), Request(cfg.window, cfg.rate)];
    assert rs[..1] == [rs[0]] && rs[..1][..0] == [] && rs[..0] == [];
    var k := cfg.Bucket(cfg.window);
    BucketBounds(cfg, 0);
    BucketBounds(cfg, cfg.window);
    LastBucket(cfg, k);
    AllEmpty(cfg, map[], 0, 0, w);
    assert Allows(cfg, map[], rs[0]);
    var st := After(cfg, rs[..1]);
    assert cfg.Bucket(0) == 0 && After(cfg, []) == map[];
    assert st == Step(cfg, map[], rs[0]);
    assert st == map[0 := Counter(cfg.rate, cfg.window)];
    AllEmpty(cfg, st, cfg.window, k, w);
    assert Allows(cfg, st, rs[1]);
    OtherBuckets(cfg, rs, 0, w);
    OtherBuckets(cfg, rs[..1], 0, w);
    EmptyRun(cfg, 0, w);
  }

  lemma LastBucket(cfg: Config, k: int)
    requires cfg.Valid() && cfg.window < cfg.Windows() * cfg.precision
    requires k * cfg.precision <= cfg.window < (k + 1) * cfg.precision
    ensures k == cfg.Windows() - 1
  {
    var w, p := cfg.Windows(), cfg.precision;
    assert (w - 1) * p == w * p - p;
    if k <= w - 2 {
      MulMonotone(k + 1, w - 1, p);
      assert false;
    }
    if w <= k {
      MulMonotone(w, k, p);
      assert false;
    }
  }

  lemma {:induction false} AllEmpty(cfg: Config, st: Store, now: int, index: int, count: nat)
    requires forall b :: b in st ==> st[b].expiry <= now
    ensures Count(st, now, index, count) == 0
  {
    if count != 0 {
      AllEmpty(cfg, st, now, index, count - 1);
    }
  }

  /** The limiter keeps its promise in every run exactly when the precision divides the window. */
  lemma BoundHoldsIff(cfg: Config)
    requires cfg.Valid()
    ensures (forall rs, b :: Sorted(rs) && NonNegative(rs) ==> InBuckets(cfg, rs, b, cfg.Windows()) <= cfg.rate) <==>
            cfg.window % cfg.precision == 0
  {
    var w, p := cfg.Windows(), cfg.precision;
    DividesIff(cfg.window, p, w);
    if cfg.window == w * p {
      forall rs, b | Sorted(rs) && NonNegative(rs) ensures InBuckets(cfg, rs, b, w) <= cfg.rate {
        WindowBound(cfg, rs, b);
      }
    } else {
      var rs := UnevenWindowLeaks(cfg);
    }
  }

  lemma DividesIff(a: int, p: int, w: int)
    requires 0 < a && 0 < p && a <= w * p < a + p
    ensures a % p == 0 <==> a == w * p
  {
    if a % p == 0 {
      var q := a / p;
      assert a == q * p;
      if q < w { MulMonotone(q + 1, w, p); } else { MulMonotone(w, q, p); }
    } else if a == w * p {
      MulMod(w, p);
    }
  }

  lemma {:induction false} MulMod(w: int, p: int)
    requires 0 < p && 0 < w * p
    ensures (w * p) % p == 0
  {
    var q, r := w * p / p, (w * p) % p;
    assert w * p == q * p + r;
    assert (w - q) * p == r;
    if w - q >= 1 { MulMonotone(1, w - q, p); } else { MulMonotone(w - q, 0, p); }
  }

  // ----- the object -----

  class DistributedRateLimiter {
    const cfg: Config
    var store: Store

    constructor (rate: int, window: nat, precision: nat)
      ensures cfg == Config(if rate <= 0 then 100 else rate,
                            if window == 0 then 1000 else window,
                            if precision == 0 then 100 else precision)
      ensures cfg.Valid() && store == After(cfg, [])
    {
      cfg := Config(if rate <= 0 then 100 else rate,
                    if window == 0 then 1000 else window,
                    if precision == 0 then 100 else precision);
      store := map[];
    }

    method AllowN(n: int, now: int) returns (ok: bool)
      requires cfg.Valid()
      modifies this
      ensures ok == Allows(cfg, old(store), Request(now, n))
      ensures store == Step(cfg, old(store), Request(now, n))
    {
      var index := now / cfg.precision;
      var windows := cfg.Windows();
      var count := 0;
      for i := 0 to windows
        invariant count == Count(store, now, index, i)
      {
        count := count + Get(store, now, index - i);
      }
      if count + n > cfg.rate {
        return false;
      }
      store := store[index := Counter(Get(store, now, index) + n, now + cfg.window)];
      return true;
    }

    /** Allow refuses when the count has reached the rate, which is AllowN(1). */
    method Allow(now: int) returns (ok: bool)
      requires cfg.Valid()
      modifies this
      ensures ok == Allows(cfg, old(store), Request(now, 1))
      ensures store == Step(cfg, old(store), Request(now, 1))
    {
      var index := now / cfg.precision;
      var windows := cfg.Windows();
      var count := 0;
      for i := 0 to windows
        invariant count == Count(store, now, index, i)
      {
        count := count + Get(store, now, index - i);
      }
      if count >= cfg.rate {
        return false;
      }
      store := store[index := Counter(Get(store, now, index) + 1, now + cfg.window)];
      return true;
    }
  }
}
