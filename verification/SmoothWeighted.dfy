/** The "smooth" weighted round robin balancer. */
module SmoothWeighted {

  import opened Options

  import opened Instances

  // ----- one selection as a function of the current weights -----

  function SumTo(w: seq<int>, n: nat): int
    requires n <= |w|
  {
    if n == 0 then 0 else SumTo(w, n - 1) + w[n - 1]
  }

  function Sum(w: seq<int>): int {
    SumTo(w, |w|)
  }

  function AddAll(cw: seq<int>, w: seq<int>): (r: seq<int>)
    requires |cw| == |w|
  {
    seq(|w|, i requires 0 <= i < |w| => cw[i] + w[i])
  }

  /** k is the first position of a greatest entry. */
  ghost predicate IsFirstMax(s: seq<int>, k: nat) {
    && k < |s|
    && (forall i :: 0 <= i < |s| ==> s[i] <= s[k])
    && (forall i :: 0 <= i < k ==> s[i] < s[k])
  }

  lemma {:induction false} FirstMaxExists(s: seq<int>)
    requires s != []
    ensures exists k: nat :: IsFirstMax(s, k)
  {
    if |s| == 1 {
      assert IsFirstMax(s, 0);
    } else {
      var n := |s| - 1;
      FirstMaxExists(s[..n]);
      var k: nat :| IsFirstMax(s[..n], k);
      assert IsFirstMax(s, if s[n] > s[k] then n else k);
    }
  }

  ghost function ArgMax(s: seq<int>): (k: nat)
    requires s != []
    ensures IsFirstMax(s, k)
  {
    FirstMaxExists(s);
    var k: nat :| IsFirstMax(s, k);
    k
  }

  ghost function Pick(cw: seq<int>, w: seq<int>): (k: nat)
    requires |cw| == |w| > 0
    ensures k < |w|
  {
    ArgMax(AddAll(cw, w))
  }

  ghost function Next(cw: seq<int>, w: seq<int>): (r: seq<int>)
    requires |cw| == |w| > 0
    ensures |r| == |w|
  {
    var k := Pick(cw, w);
    var a := AddAll(cw, w);
    a[k := a[k] - Sum(w)]
  }

  // ----- runs of selections over a fixed list -----

  function Zeros(n: nat): (r: seq<int>)
    ensures |r| == n
  {
    seq(n, _ => 0)
  }

  ghost function Iterate(cw: seq<int>, w: seq<int>, t: nat): (r: seq<int>)
    requires |cw| == |w| > 0
    ensures |r| == |w|
  {
    if t == 0 then cw else Next(Iterate(cw, w, t - 1), w)
  }

  /** The current weights after t selections. */
  ghost function StateAt(w: seq<int>, t: nat): (r: seq<int>)
    requires w != []
    ensures |r| == |w|
  {
    Iterate(Zeros(|w|), w, t)
  }

  /** How often instance i is chosen by selections number from, from + 1, ..., to - 1. */
  ghost function Picks(w: seq<int>, i: nat, from: nat, to: nat): nat
    requires w != [] && from <= to
  {
    if from == to then 0
    else Picks(w, i, from, to - 1) + (if Pick(StateAt(w, to - 1), w) == i then 1 else 0)
  }

  ghost predicate Weights(w: seq<int>) {
    (forall i :: 0 <= i < |w| ==> 0 <= w[i]) && 0 < Sum(w)
  }

  lemma {:induction false} SumUpdate(s: seq<int>, r: seq<int>, k: nat, n: nat)
    requires |r| == |s| && k < |s| && n <= |s|
    requires forall i :: 0 <= i < |s| && i != k ==> r[i] == s[i]
    ensures SumTo(r, n) == SumTo(s, n) + (if k < n then r[k] - s[k] else 0)
  {
    if n != 0 {
      SumUpdate(s, r, k, n - 1);
    }
  }

  lemma {:induction false} SumAdd(a: seq<int>, cw: seq<int>, w: seq<int>, n: nat)
    requires |a| == |cw| == |w| && n <= |w|
    requires forall i :: 0 <= i < |w| ==> a[i] == cw[i] + w[i]
    ensures SumTo(a, n) == SumTo(cw, n) + SumTo(w, n)
  {
    if n != 0 {
      SumAdd(a, cw, w, n - 1);
    }
  }

  lemma {:induction false} SumAtMost(s: seq<int>, n: nat, bound: int)
    requires n <= |s| && forall i :: 0 <= i < n ==> s[i] <= bound
    ensures SumTo(s, n) <= n * bound
  {
    if n != 0 {
      SumAtMost(s, n - 1, bound);
    }
  }

  lemma {:induction false} SumAtLeast(s: seq<int>, n: nat, bound: int)
    requires n <= |s| && forall i :: 0 <= i < n ==> bound <= s[i]
    ensures n * bound <= SumTo(s, n)
  {
    if n != 0 {
      SumAtLeast(s, n - 1, bound);
    }
  }

  /** Every selection hands out the total and takes it back from the chosen instance. */
  lemma NextKeepsSum(cw: seq<int>, w: seq<int>)
    requires |cw| == |w| > 0
    ensures Sum(Next(cw, w)) == Sum(cw)
  {
    var a := AddAll(cw, w);
    SumAdd(a, cw, w, |w|);
    SumUpdate(a, Next(cw, w), Pick(cw, w), |w|);
  }

  /** The greatest entry of a list with positive sum is positive, so no entry sinks to -W. */
  lemma NextKeepsBound(cw: seq<int>, w: seq<int>)
    requires |cw| == |w| > 0 && Weights(w) && Sum(cw) == 0
    requires forall i :: 0 <= i < |cw| ==> -Sum(w) < cw[i]
    ensures forall i :: 0 <= i < |w| ==> -Sum(w) < Next(cw, w)[i]
  {
    var a := AddAll(cw, w);
    SumAdd(a, cw, w, |w|);
    if a[Pick(cw, w)] <= 0 {
      SumAtMost(a, |a|, 0);
      assert false;
    }
  }

  lemma {:induction false} StateInvariant(w: seq<int>, t: nat)
    requires w != [] && Weights(w)
    ensures Sum(StateAt(w, t)) == 0
    ensures forall i :: 0 <= i < |w| ==> -Sum(w) < StateAt(w, t)[i]
  {
    if t == 0 {
      SumAtMost(Zeros(|w|), |w|, 0);
      SumAtLeast(Zeros(|w|), |w|, 0);
    } else {
      StateInvariant(w, t - 1);
      NextKeepsSum(StateAt(w, t - 1), w);
      NextKeepsBound(StateAt(w, t - 1), w);
    }
  }

  lemma NextAt(cw: seq<int>, w: seq<int>, i: nat)
    requires |cw| == |w| && i < |w|
    ensures Next(cw, w)[i] == cw[i] + w[i] - (if Pick(cw, w) == i then Sum(w) else 0)
  {
  }

  /** The closed form of the current weights. */
  lemma {:induction false} ClosedForm(w: seq<int>, t: nat, i: nat)
    requires w != [] && i < |w|
    ensures StateAt(w, t)[i] == t * w[i] - Sum(w) * Picks(w, i, 0, t)
  {
    if t != 0 {
      ClosedForm(w, t - 1, i);
      NextAt(StateAt(w, t - 1), w, i);
      var picked := if Pick(StateAt(w, t - 1), w) == i then 1 else 0;
      ClosedStep(Sum(w), w[i], t, Picks(w, i, 0, t - 1), picked);
      assert StateAt(w, t) == Next(StateAt(w, t - 1), w);
      assert Picks(w, i, 0, t) == Picks(w, i, 0, t - 1) + picked;
    }
  }

  lemma ClosedStep(total: int, wi: int, t: nat, p: nat, picked: nat)
    requires t > 0 && picked <= 1
    ensures (t - 1) * wi - total * p + wi - (if picked == 1 then total else 0) ==
            t * wi - total * (p + picked)
  {
    assert total * (p + picked) == total * p + total * picked;
  }

  /** No instance is ever ahead of its share by a whole selection. */
  lemma PrefixFairness(w: seq<int>, t: nat, i: nat)
    requires w != [] && Weights(w) && i < |w|
    ensures Sum(w) * Picks(w, i, 0, t) < t * w[i] + Sum(w)
  {
    StateInvariant(w, t);
    ClosedForm(w, t, i);
  }

  lemma ZeroWeightNeverPicked(w: seq<int>, t: nat, i: nat)
    requires w != [] && Weights(w) && i < |w| && w[i] == 0
    ensures Pick(StateAt(w, t), w) != i
  {
    PrefixFairness(w, t + 1, i);
    var p := Picks(w, i, 0, t + 1);
    MulCancel(Sum(w), p, 0);
  }

  // ----- exactness -----

  ghost function PicksUpTo(w: seq<int>, t: nat): seq<int>
    requires w != []
  {
    seq(|w|,(i: nat) => Picks(w, i, 0, t))
  }

  lemma {:induction false} PicksAddUp(w: seq<int>, t: nat)
    requires w != []
    ensures Sum(PicksUpTo(w, t)) == t
  {
    var now := PicksUpTo(w, t);
    if t == 0 {
      SumAtMost(now, |w|, 0);
      SumAtLeast(now, |w|, 0);
    } else {
      PicksAddUp(w, t - 1);
      SumUpdate(PicksUpTo(w, t - 1), now, Pick(StateAt(w, t - 1), w), |w|);
    }
  }

  /** If no entry exceeds b's and the sum is not smaller, the entries are b's. */
  lemma {:induction false} TightSum(a: seq<int>, b: seq<int>, n: nat)
    requires n <= |a| == |b| && SumTo(a, n) >= SumTo(b, n)
    requires forall i :: 0 <= i < n ==> a[i] <= b[i]
    ensures forall i :: 0 <= i < n ==> a[i] == b[i]
  {
    if n != 0 {
      SumMonotone(a, b, n - 1);
      TightSum(a, b, n - 1);
    }
  }

  lemma {:induction false} SumMonotone(a: seq<int>, b: seq<int>, n: nat)
    requires n <= |a| == |b|
    requires forall i :: 0 <= i < n ==> a[i] <= b[i]
    ensures SumTo(a, n) <= SumTo(b, n)
  {
    if n != 0 {
      SumMonotone(a, b, n - 1);
    }
  }

  lemma {:induction false} SumScale(w: seq<int>, q: seq<int>, c: int, d: int, n: nat)
    requires n <= |w| == |q|
    requires forall i :: 0 <= i < n ==> c * w[i] == d * q[i]
    ensures c * SumTo(w, n) == d * SumTo(q, n)
  {
    if n != 0 {
      SumScale(w, q, c, d, n - 1);
    }
  }

  lemma MulNonNegative(a: int, b: int)
    requires 0 <= a && 0 <= b
    ensures 0 <= a * b
  {
  }

  lemma MulCancel(c: int, x: int, y: int)
    requires 0 < c && c * x < c * y + c
    ensures x <= y
  {
    if x >= y + 1 {
      MulNonNegative(c, x - (y + 1));
      assert false;
    }
  }

  /** After t selections the state is back to zero exactly when W divides every t * w_i. */
  lemma ZeroAgainIff(w: seq<int>, t: nat)
    requires w != [] && Weights(w)
    ensures StateAt(w, t) == Zeros(|w|) <==>
            (forall i :: 0 <= i < |w| ==> exists q :: Sum(w) * q == t * w[i])
  {
    if StateAt(w, t) == Zeros(|w|) {
      forall i | 0 <= i < |w| ensures exists q :: Sum(w) * q == t * w[i] {
        ClosedForm(w, t, i);
        assert Sum(w) * Picks(w, i, 0, t) == t * w[i];
      }
    }
    if forall i :: 0 <= i < |w| ==> exists q :: Sum(w) * q == t * w[i] {
      var q := ShareOf(w, t);
      ExactShares(w, t, q);
      forall i | 0 <= i < |w| ensures StateAt(w, t)[i] == 0 {
        ClosedForm(w, t, i);
        assert Picks(w, i, 0, t) == q[i];
      }
      assert StateAt(w, t) == Zeros(|w|);
    }
  }

  lemma ShareOf(w: seq<int>, t: nat) returns (q: seq<int>)
    requires forall i :: 0 <= i < |w| ==> exists q :: Sum(w) * q == t * w[i]
    ensures |q| == |w| && forall i :: 0 <= i < |w| ==> Sum(w) * q[i] == t * w[i]
  {
    q := [];
    while |q| < |w|
      invariant |q| <= |w|
      invariant forall i :: 0 <= i < |q| ==> Sum(w) * q[i] == t * w[i]
    {
      var x :| Sum(w) * x == t * w[|q|];
      q := q + [x];
    }
  }

  /** Fairness leaves no room: whenever the shares t * w_i / W are whole, the counts are them. */
  lemma ExactShares(w: seq<int>, t: nat, q: seq<int>)
    requires w != [] && Weights(w) && |q| == |w|
    requires forall i :: 0 <= i < |w| ==> Sum(w) * q[i] == t * w[i]
    ensures forall i :: 0 <= i < |w| ==> Picks(w, i, 0, t) == q[i]
  {
    var p := PicksUpTo(w, t);
    forall i | 0 <= i < |w| ensures p[i] <= q[i] {
      PrefixFairness(w, t, i);
      MulCancel(Sum(w), p[i], q[i]);
    }
    PicksAddUp(w, t);
    SumScale(w, q, t, Sum(w), |w|);
    CancelFactor(Sum(w), t, Sum(q));
    TightSum(p, q, |w|);
  }

  lemma CancelFactor(c: int, x: int, y: int)
    requires 0 < c && x * c == c * y
    ensures x == y
  {
    if x < y { MulCancel(c, y, x); } else { MulCancel(c, x, y); }
  }

  lemma {:induction false} IterateAdds(cw: seq<int>, w: seq<int>, a: nat, b: nat)
    requires |cw| == |w| > 0
    ensures Iterate(cw, w, a + b) == Iterate(Iterate(cw, w, a), w, b)
  {
    hide Next;
    if b != 0 {
      IterateAdds(cw, w, a, b - 1);
    }
  }

  lemma {:induction false} PicksSplit(w: seq<int>, i: nat, from: nat, to: nat)
    requires w != [] && from <= to
    ensures Picks(w, i, 0, to) == Picks(w, i, 0, from) + Picks(w, i, from, to)
  {
    if from < to {
      PicksSplit(w, i, from, to - 1);
    }
  }

  /** Exactness with the smallest blocks: if g divides every weight, every W/g consecutive
      selections, wherever they start, choose instance i exactly w_i/g times, and the
      state repeats with period W/g.  With g = 1 this is the statement for W. */
  lemma EveryBlockIsExact(w: seq<int>, shares: seq<int>, g: nat, start: nat)
    requires w != [] && Weights(w) && 0 < g && |shares| == |w|
    requires forall i :: 0 <= i < |w| ==> w[i] == g * shares[i]
    ensures 0 <= Sum(shares) && Sum(w) == g * Sum(shares)
    ensures forall i :: 0 <= i < |w| ==> Picks(w, i, start, start + Sum(shares)) == shares[i]
    ensures StateAt(w, start + Sum(shares)) == StateAt(w, start)
  {
    SumScale(w, shares, 1, g, |w|);
    var n := Sum(shares);
    assert Sum(w) == g * n;
    hide Sum, SumTo, Picks, Iterate, Next;
    if n <= 0 {
      MulNonNegative(g, -n);
      assert false;
    }
    forall i | 0 <= i < |w| ensures Sum(w) * shares[i] == n * w[i] {
      MulSwap(g, n, shares[i]);
    }
    ZeroAgainIff(w, n);
    IterateAdds(Zeros(|w|), w, n, start);
    forall i | 0 <= i < |w| ensures Picks(w, i, start, start + n) == shares[i] {
      BlockIsExact(w, shares[i], n, start, i);
    }
  }

  lemma MulSwap(g: int, n: int, share: int)
    ensures (g * n) * share == n * (g * share)
  {
  }

  lemma BlockIsExact(w: seq<int>, share: int, n: nat, start: nat, i: nat)
    requires w != [] && Weights(w) && i < |w| && Sum(w) * share == n * w[i]
    requires StateAt(w, start + n) == StateAt(w, start)
    ensures Picks(w, i, start, start + n) == share
  {
    assert 0 < Sum(w) && StateAt(w, start + n)[i] == StateAt(w, start)[i];
    hide *;
    PicksSplit(w, i, start, start + n);
    ClosedForm(w, start, i);
    ClosedForm(w, start + n, i);
    BlockCount(Sum(w), w[i], n, start, share, Picks(w, i, 0, start), Picks(w, i, 0, start + n));
  }

  lemma BlockCount(total: int, wi: int, n: int, start: int, share: int, before: int, after: int)
    requires 0 < total && total * share == n * wi
    requires start * wi - total * before == (start + n) * wi - total * after
    ensures after - before == share
  {
    assert (start + n) * wi == start * wi + n * wi;
    assert total * (after - before) == total * after - total * before;
    CancelFactor(total, after - before, share);
  }

  // ----- the balancer object -----

  function WeightsOf(instances: seq<ServiceInstance>): seq<int> {
    seq(|instances|, i requires 0 <= i < |instances| => instances[i].weight)
  }

  /** What a balancer with the current weights cw chooses, one call after the other. */
  ghost predicate PicksFrom(picks: seq<nat>, cw: seq<int>, w: seq<int>)
    requires |cw| == |w| > 0
  {
    forall j :: 0 <= j < |picks| ==> picks[j] == Pick(Iterate(cw, w, j), w)
  }

  lemma NoPick(cw: seq<int>, w: seq<int>)
    requires |cw| == |w| > 0
    ensures PicksFrom([], cw, w)
  {
  }

  lemma {:induction false} NextPick(picks: seq<nat>, cw: seq<int>, w: seq<int>)
    requires |cw| == |w| > 0 && PicksFrom(picks, cw, w)
    ensures PicksFrom(picks + [Pick(Iterate(cw, w, |picks|), w)], cw, w)
  {
    hide Pick, Iterate;
  }

  class WeightedRoundRobinBalancer {
    var currentWeights: array<int>
    var index: nat

    constructor ()
      ensures currentWeights.Length == 0 && index == 0 && fresh(currentWeights)
    {
      currentWeights := new int[0];
      index := 0;
    }

    /** The weights a selection starts from: the kept ones, or zeros after the number of
        live instances changed. */
    ghost function Prepared(n: nat): (r: seq<int>)
      reads this, currentWeights
      ensures |r| == n
    {
      if currentWeights.Length == n then currentWeights[..] else Zeros(n)
    }

    ghost function PreparedIndex(n: nat): nat
      reads this
    {
      if currentWeights.Length == n then index else 0
    }

    method TotalWeight(w: seq<int>) returns (total: int)
      ensures total == Sum(w)
    {
      total := 0;
      for i := 0 to |w|
        invariant total == SumTo(w, i)
      {
        total := total + w[i];
      }
    }

    method Select(instances: seq<ServiceInstance>) returns (r: Option<ServiceInstance>)
      modifies this, currentWeights
      ensures currentWeights == old(currentWeights) || fresh(currentWeights)
      ensures var alive := Alive(instances); var w := WeightsOf(alive); var n := |alive|;
        if n == 0 then
          r == None && unchanged(this) && unchanged(old(currentWeights))
        else if Sum(w) <= 0 then
          && r == Some(alive[old(PreparedIndex(n)) % n])
          && index == (old(PreparedIndex(n)) + 1) % n
          && currentWeights[..] == old(Prepared(n))
        else
          && r == Some(alive[Pick(old(Prepared(n)), w)])
          && currentWeights[..] == Next(old(Prepared(n)), w)
          && index == old(PreparedIndex(n))
    {
      if |instances| == 0 {
        return None;
      }
      var alive := FilterAlive(instances);
      if |alive| == 0 {
        return None;
      }
      var n := |alive|;
      ghost var start, startIndex := Prepared(n), PreparedIndex(n);
      if currentWeights.Length != n {
        currentWeights := new int[n](_ => 0);
        index := 0;
      }
      assert currentWeights[..] == start && index == startIndex;
      ghost var w := WeightsOf(alive);
      var totalWeight := TotalWeight(WeightsOf(alive));
      if totalWeight <= 0 {
        var idx := index % n;
        index := (index + 1) % n;
        return Some(alive[idx]);
      }
      var selectedIdx := SelectGreatest(alive, totalWeight);
      return Some(alive[selectedIdx]);
    }

    /** The two loops over the weights and the payment of the selected instance. */
    method SelectGreatest(alive: seq<ServiceInstance>, totalWeight: int) returns (selectedIdx: nat)
      requires currentWeights.Length == |alive| > 0 && totalWeight == Sum(WeightsOf(alive))
      modifies currentWeights
      ensures selectedIdx == Pick(old(currentWeights[..]), WeightsOf(alive))
      ensures currentWeights[..] == Next(old(currentWeights[..]), WeightsOf(alive))
    {
      hide Sum, SumTo, ArgMax, AddAll, WeightsOf;
      AddWeights(alive);
      selectedIdx := Greatest();
      currentWeights[selectedIdx] := currentWeights[selectedIdx] - totalWeight;
    }

    method AddWeights(alive: seq<ServiceInstance>)
      requires currentWeights.Length == |alive|
      modifies currentWeights
      ensures currentWeights[..] == AddAll(old(currentWeights[..]), WeightsOf(alive))
    {
      for i := 0 to currentWeights.Length
        invariant forall k :: 0 <= k < i ==> currentWeights[k] == old(currentWeights[k]) + alive[k].weight
        invariant forall k :: i <= k < currentWeights.Length ==> currentWeights[k] == old(currentWeights[k])
      {
        currentWeights[i] := currentWeights[i] + alive[i].weight;
      }
    }

    method Greatest() returns (selectedIdx: nat)
      requires currentWeights.Length > 0
      ensures selectedIdx == ArgMax(currentWeights[..])
    {
      selectedIdx := 0;
      for i := 0 to currentWeights.Length
        invariant selectedIdx < currentWeights.Length && (i == 0 ==> selectedIdx == 0)
        invariant i > 0 ==> selectedIdx < i
        invariant forall k :: 0 <= k < i ==> currentWeights[k] <= currentWeights[selectedIdx]
        invariant forall k :: 0 <= k < selectedIdx ==> currentWeights[k] < currentWeights[selectedIdx]
      {
        if currentWeights[i] > currentWeights[selectedIdx] {
          selectedIdx := i;
        }
      }
    }

    /** t calls in a row with the same instances. */
    method SelectMany(instances: seq<ServiceInstance>, t: nat)
      returns (answers: seq<ServiceInstance>, ghost picks: seq<nat>)
      requires Alive(instances) != [] && 0 < Sum(WeightsOf(Alive(instances)))
      modifies this, currentWeights
      ensures var alive := Alive(instances); var w := WeightsOf(alive);
        && |answers| == |picks| == t && PicksFrom(picks, old(Prepared(|alive|)), w)
        && (forall j :: 0 <= j < t ==> picks[j] < |alive| && answers[j] == alive[picks[j]])
        && Prepared(|alive|) == Iterate(old(Prepared(|alive|)), w, t)
    {
      hide Alive, Sum, Pick, Next, PicksFrom;
      ghost var alive := Alive(instances);
      ghost var w, start := WeightsOf(alive), Prepared(|alive|);
      answers, picks := [], [];
      NoPick(start, w);
      for j := 0 to t
        invariant |answers| == |picks| == j && Prepared(|alive|) == Iterate(start, w, j)
        invariant PicksFrom(picks, start, w)
        invariant forall k :: 0 <= k < j ==> picks[k] < |alive| && answers[k] == alive[picks[k]]
        invariant currentWeights == old(currentWeights) || fresh(currentWeights)
      {
        NextPick(picks, start, w);
        picks := picks + [Pick(Iterate(start, w, j), w)];
        var r := Select(instances);
        answers := answers + [r.value];
      }
    }
  }

  function CountOf(picks: seq<nat>, i: nat, from: nat, to: nat): nat
    requires from <= to <= |picks|
  {
    if from == to then 0 else CountOf(picks, i, from, to - 1) + (if picks[to - 1] == i then 1 else 0)
  }

  lemma {:induction false} CountIsPicks(w: seq<int>, picks: seq<nat>, i: nat, from: nat, to: nat)
    requires w != [] && from <= to <= |picks|
    requires PicksFrom(picks, Zeros(|w|), w)
    ensures CountOf(picks, i, from, to) == Picks(w, i, from, to)
  {
    if from < to {
      assert picks[to - 1] == Pick(StateAt(w, to - 1), w);
      CountIsPicks(w, picks, i, from, to - 1);
    }
  }

  /** The answers of an object that starts with its weights at zero, as a new one does: every
      block of W/g of them, wherever it starts, holds instance i exactly w_i/g times. */
  lemma AnswersAreExact(w: seq<int>, picks: seq<nat>, shares: seq<int>, g: nat, start: nat)
    requires w != [] && Weights(w) && 0 < g && |shares| == |w|
    requires forall i :: 0 <= i < |w| ==> w[i] == g * shares[i]
    requires PicksFrom(picks, Zeros(|w|), w)
    ensures 0 <= Sum(shares)
    ensures start + Sum(shares) <= |picks| ==>
              forall i :: 0 <= i < |w| ==> CountOf(picks, i, start, start + Sum(shares)) == shares[i]
  {
    EveryBlockIsExact(w, shares, g, start);
    if start + Sum(shares) <= |picks| {
      forall i | 0 <= i < |w| ensures CountOf(picks, i, start, start + Sum(shares)) == shares[i] {
        CountIsPicks(w, picks, i, start, start + Sum(shares));
      }
    }
  }

  /** The same for the instances themselves: with weights g times the shares, every block holds
      each instance exactly its share. */
  lemma InstancesGetShares(alive: seq<ServiceInstance>, picks: seq<nat>, shares: seq<int>, g: nat, start: nat)
    requires alive != [] && 0 < g && |shares| == |alive| && 0 < Sum(shares)
    requires forall i :: 0 <= i < |alive| ==> 0 <= alive[i].weight == g * shares[i]
    requires PicksFrom(picks, Zeros(|alive|), WeightsOf(alive)) && start + Sum(shares) <= |picks|
    ensures forall i :: 0 <= i < |alive| ==> CountOf(picks, i, start, start + Sum(shares)) == shares[i]
  {
    var w := WeightsOf(alive);
    SumScale(w, shares, 1, g, |w|);
    assert Sum(w) == g * Sum(shares);
    MulPositive(g, Sum(shares));
    AnswersAreExact(w, picks, shares, g, start);
  }

  lemma MulPositive(a: int, b: int)
    requires 0 < a && 0 < b
    ensures 0 < a * b
  {
  }
}
