/** Histories of limiter calls, and the amount a rate earns over a time.
    Rates are per second; times are ticks of a clock of any resolution. */
module Requests {

  type Resolution = ticks: int | 0 < ticks witness 1000

  /** The ticks of a second: a thousand for the script, which is given milliseconds, and a
      thousand million for the limiters in memory.  Nothing is assumed about it. */
  const TICKS: Resolution

  /** One call of AllowN(n) at time now. */
  datatype Request = Request(now: int, n: int)

  /** The clock does not run backwards, and no call comes before the limiter was created. */
  ghost predicate Sorted(start: int, rs: seq<Request>) {
    && (forall i :: 0 <= i < |rs| ==> start <= rs[i].now)
    && (forall i, j :: 0 <= i < j < |rs| ==> rs[i].now <= rs[j].now)
  }

  ghost predicate NonNegative(rs: seq<Request>) {
    forall i :: 0 <= i < |rs| ==> 0 <= rs[i].n
  }

  lemma Prefix(start: int, rs: seq<Request>, k: nat)
    requires Sorted(start, rs) && k <= |rs|
    ensures Sorted(start, rs[..k]) && (NonNegative(rs) ==> NonNegative(rs[..k]))
    ensures 0 < k < |rs| ==> rs[..k] != [] && rs[..k][|rs[..k]| - 1].now <= rs[k].now
    ensures k < |rs| ==> start <= rs[k].now && forall i :: 0 <= i < k ==> rs[..k][i].now <= rs[k].now
  {
    assert forall i :: 0 <= i < k ==> rs[..k][i] == rs[i];
  }

  /** The first requests of a history are those up to time t, the rest come later. */
  lemma {:induction false} SplitAt(start: int, rs: seq<Request>, n: nat, t: int) returns (k: nat)
    requires Sorted(start, rs) && n <= |rs|
    ensures k <= n
    ensures forall i :: 0 <= i < k ==> rs[i].now <= t
    ensures forall i :: k <= i < n ==> t < rs[i].now
  {
    k := n;
    if n > 0 && t < rs[n - 1].now {
      k := SplitAt(start, rs, n - 1, t);
    }
  }

  /** What the first k requests of a history with answers ok were granted between times s
      and t, both included. */
  function Granted(rs: seq<Request>, ok: seq<bool>, k: nat, s: int, t: int): int
    requires k <= |rs| == |ok|
  {
    if k == 0 then 0
    else Granted(rs, ok, k - 1, s, t) + (if s <= rs[k - 1].now <= t && ok[k - 1] then rs[k - 1].n else 0)
  }

  /** What requests j, j + 1, ..., k - 1 were granted. */
  function GrantedFrom(rs: seq<Request>, ok: seq<bool>, j: nat, k: nat): int
    requires k <= |rs| == |ok|
    decreases k
  {
    if k <= j then 0 else GrantedFrom(rs, ok, j, k - 1) + (if ok[k - 1] then rs[k - 1].n else 0)
  }

  lemma {:induction false} LateGrantsDoNotCount(rs: seq<Request>, ok: seq<bool>, k: nat, m: nat, s: int, t: int)
    requires k <= m <= |rs| == |ok| && forall i :: k <= i < m ==> t < rs[i].now
    ensures Granted(rs, ok, m, s, t) == Granted(rs, ok, k, s, t)
  {
    if k < m {
      LateGrantsDoNotCount(rs, ok, k, m - 1, s, t);
    }
  }

  function TickLength(): (r: real)
    ensures 0.0 < r && r * TICKS as real == 1.0
  {
    1.0 / TICKS as real
  }

  function Seconds(elapsed: int): real {
    elapsed as real * TickLength()
  }

  function Earned(rate: int, elapsed: int): real {
    Seconds(elapsed) * rate as real
  }

  lemma WholeSeconds(n: int)
    ensures Seconds(n * TICKS) == n as real
  {
    hide TickLength;
    var t, one := TICKS as real, TickLength();
    assert (n * TICKS) as real == n as real * t;
    assert n as real * t * one == n as real * (one * t);
  }

  lemma EarnedIsMonotone(rate: int, a: int, b: int)
    requires 0 <= rate && a <= b
    ensures Earned(rate, a) <= Earned(rate, b)
  {
    hide TickLength;
    var x, r := (b - a) as real * TickLength(), rate as real;
    assert Seconds(b) == Seconds(a) + x && 0.0 <= x;
    assert 0.0 <= x * r;
  }

  lemma EarnedAdds(rate: int, a: int, b: int)
    ensures Earned(rate, a + b) == Earned(rate, a) + Earned(rate, b)
  {
    hide TickLength;
    var x, y, r := Seconds(a), Seconds(b), rate as real;
    assert Seconds(a + b) == x + y;
    assert (x + y) * r == x * r + y * r;
  }

  lemma EarnedNonNegative(rate: int, elapsed: int)
    requires 0 <= rate && 0 <= elapsed
    ensures 0.0 <= Earned(rate, elapsed)
  {
    EarnedIsMonotone(rate, 0, elapsed);
  }

  lemma NothingEarned(rate: int)
    ensures Earned(rate, 0) == 0.0
  {
  }
}
