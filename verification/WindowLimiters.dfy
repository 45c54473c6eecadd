/** The sliding-window and fixed-window limiters. */
module WindowLimiters {
  import opened Requests

  // ----- sliding window: what the limiter keeps -----

  function LaterTo(times: seq<int>, n: nat, cutoff: int): (r: seq<int>)
    requires n <= |times|
  {
    if n == 0 then []
    else
      var rest := LaterTo(times, n - 1, cutoff);
      if cutoff < times[n - 1] then rest + [times[n - 1]] else rest
  }

  /** The entries later than the cutoff, in their order. */
  function Later(times: seq<int>, cutoff: int): seq<int> {
    LaterTo(times, |times|, cutoff)
  }

  /** n entries, none if n is negative. */
  function Repeat(t: int, n: int): seq<int> {
    seq(if n < 0 then 0 else n, _ => t)
  }

  predicate Allows(limit: int, window: int, kept: seq<int>, r: Request) {
    |Later(kept, r.now - window)| + r.n <= limit
  }

  function Slide(limit: int, window: int, kept: seq<int>, r: Request): seq<int> {
    var valid := Later(kept, r.now - window);
    if Allows(limit, window, kept, r) then valid + Repeat(r.now, r.n) else valid
  }

  function After(limit: int, window: int, rs: seq<Request>): seq<int> {
    if rs == [] then [] else Slide(limit, window, After(limit, window, rs[..|rs| - 1]), rs[|rs| - 1])
  }

  // ----- sliding window: what it promises -----

  /** Every admission of a run, never forgotten. */
  function History(limit: int, window: int, rs: seq<Request>): seq<int> {
    if rs == [] then []
    else
      var front, r := rs[..|rs| - 1], rs[|rs| - 1];
      History(limit, window, front) +
      (if Allows(limit, window, After(limit, window, front), r) then Repeat(r.now, r.n) else [])
  }

  function CountTo(times: seq<int>, n: nat, from: int, to: int): nat
    requires n <= |times|
  {
    if n == 0 then 0 else CountTo(times, n - 1, from, to) + (if from < times[n - 1] <= to then 1 else 0)
  }

  /** How many entries lie in the half-open interval (from, to]. */
  function CountIn(times: seq<int>, from: int, to: int): nat {
    CountTo(times, |times|, from, to)
  }

  lemma {:induction false} LaterConcat(a: seq<int>, b: seq<int>, n: nat, cutoff: int)
    requires n <= |b|
    ensures LaterTo(a + b, |a| + n, cutoff) == Later(a, cutoff) + LaterTo(b, n, cutoff)
  {
    if n != 0 {
      LaterConcat(a, b, n - 1, cutoff);
    } else {
      LaterPrefix(a, b, |a|, cutoff);
    }
  }

  lemma {:induction false} LaterPrefix(a: seq<int>, b: seq<int>, n: nat, cutoff: int)
    requires n <= |a|
    ensures LaterTo(a + b, n, cutoff) == LaterTo(a, n, cutoff)
  {
    if n != 0 {
      LaterPrefix(a, b, n - 1, cutoff);
    }
  }

  lemma {:induction false} LaterTwice(a: seq<int>, n: nat, c1: int, c2: int)
    requires c1 <= c2 && n <= |a|
    ensures Later(LaterTo(a, n, c1), c2) == LaterTo(a, n, c2)
  {
    if n != 0 {
      LaterTwice(a, n - 1, c1, c2);
      LaterConcat(LaterTo(a, n - 1, c1), [a[n - 1]], 1, c2);
    }
  }

  lemma {:induction false} CountConcat(a: seq<int>, b: seq<int>, n: nat, from: int, to: int)
    requires n <= |b|
    ensures CountTo(a + b, |a| + n, from, to) == CountIn(a, from, to) + CountTo(b, n, from, to)
  {
    if n != 0 {
      CountConcat(a, b, n - 1, from, to);
    } else {
      CountPrefix(a, b, |a|, from, to);
    }
  }

  lemma {:induction false} CountPrefix(a: seq<int>, b: seq<int>, n: nat, from: int, to: int)
    requires n <= |a|
    ensures CountTo(a + b, n, from, to) == CountTo(a, n, from, to)
  {
    if n != 0 {
      CountPrefix(a, b, n - 1, from, to);
    }
  }

  lemma {:induction false} CountSame(a: seq<int>, n: nat, t: int, from: int, to: int)
    requires n <= |a| && forall i :: 0 <= i < n ==> a[i] == t
    ensures CountTo(a, n, from, to) == if from < t <= to then n else 0
  {
    if n != 0 {
      CountSame(a, n - 1, t, from, to);
    }
  }

  lemma {:induction false} CountIsLater(a: seq<int>, n: nat, cutoff: int, to: int)
    requires n <= |a| && forall i :: 0 <= i < n ==> a[i] <= to
    ensures |LaterTo(a, n, cutoff)| == CountTo(a, n, cutoff, to)
  {
    if n != 0 {
      CountIsLater(a, n - 1, cutoff, to);
    }
  }

  predicate UpTo(times: seq<int>, t: int) {
    forall i :: 0 <= i < |times| ==> times[i] <= t
  }

  lemma {:induction false} HistoryIsPast(limit: int, window: int, start: int, rs: seq<Request>, now: int)
    requires Sorted(start, rs) && (rs != [] ==> rs[|rs| - 1].now <= now)
    ensures UpTo(History(limit, window, rs), now)
  {
    if rs != [] {
      var front := rs[..|rs| - 1];
      assert forall i :: 0 <= i < |front| ==> front[i] == rs[i];
      HistoryIsPast(limit, window, start, front, now);
    }
  }

  lemma SlideLater(kept: seq<int>, past: seq<int>, added: seq<int>, c1: int, c2: int)
    requires c1 <= c2 && Later(kept, c2) == Later(past, c2)
    ensures Later(Later(kept, c1) + added, c2) == Later(past + added, c2)
  {
    LaterTwice(kept, |kept|, c1, c2);
    LaterConcat(Later(kept, c1), added, |added|, c2);
    LaterConcat(past, added, |added|, c2);
  }

  /** Pruning forgets nothing that a later call can ask for. */
  lemma {:induction false} PruningIsInvisible(limit: int, window: int, start: int, rs: seq<Request>, cutoff: int)
    requires Sorted(start, rs) && (rs != [] ==> rs[|rs| - 1].now - window <= cutoff)
    ensures Later(After(limit, window, rs), cutoff) == Later(History(limit, window, rs), cutoff)
  {
    if rs != [] {
      var front, r := rs[..|rs| - 1], rs[|rs| - 1];
      assert forall i :: 0 <= i < |front| ==> front[i] == rs[i];
      PruningIsInvisible(limit, window, start, front, cutoff);
      var kept, past := After(limit, window, front), History(limit, window, front);
      var added := if Allows(limit, window, kept, r) then Repeat(r.now, r.n) else [];
      SlideLater(kept, past, added, r.now - window, cutoff);
      assert Slide(limit, window, kept, r) == Later(kept, r.now - window) + added;
    }
  }

  lemma SameCount(limit: int, window: int, kept: seq<int>, past: seq<int>, r: Request)
    requires Later(kept, r.now - window) == Later(past, r.now - window)
    requires UpTo(past, r.now)
    ensures Allows(limit, window, kept, r) <==> CountIn(past, r.now - window, r.now) + r.n <= limit
  {
    CountIsLater(past, |past|, r.now - window, r.now);
  }

  /** A call is granted exactly when the complete history has room for it in the window that
      ends now. */
  lemma HistoryDecides(limit: int, window: int, start: int, rs: seq<Request>, r: Request)
    requires Sorted(start, rs) && (rs != [] ==> rs[|rs| - 1].now <= r.now)
    ensures Allows(limit, window, After(limit, window, rs), r) <==>
            CountIn(History(limit, window, rs), r.now - window, r.now) + r.n <= limit
  {
    hide *;
    PruningIsInvisible(limit, window, start, rs, r.now - window);
    HistoryIsPast(limit, window, start, rs, r.now);
    SameCount(limit, window, After(limit, window, rs), History(limit, window, rs), r);
  }

  lemma {:induction false} CountWiden(a: seq<int>, n: nat, from: int, from': int, to: int, to': int)
    requires n <= |a| && from' <= from && forall i :: 0 <= i < n ==> a[i] <= to'
    ensures CountTo(a, n, from, to) <= CountTo(a, n, from', to')
  {
    if n != 0 {
      CountWiden(a, n - 1, from, from', to, to');
    }
  }

  /** What a call adds to an interval: it ends at or after the call, so the interval's share of
      the past is at most what the call itself looked at. */
  lemma AddedInWindow(limit: int, window: int, past: seq<int>, added: seq<int>, r: Request, from: int)
    requires UpTo(past, r.now) && CountIn(past, from, from + window) <= limit && 0 <= limit
    requires added == [] || (added == Repeat(r.now, r.n) && CountIn(past, r.now - window, r.now) + r.n <= limit)
    ensures CountIn(past + added, from, from + window) <= limit
  {
    CountConcat(past, added, |added|, from, from + window);
    CountSame(added, |added|, r.now, from, from + window);
    if r.now <= from + window {
      CountWiden(past, |past|, from, r.now - window, from + window, r.now);
    }
  }

  /** No half-open interval of one window's length ever holds more than the limit. */
  lemma {:induction false} HistoryBound(limit: int, window: int, start: int, rs: seq<Request>, from: int)
    requires 0 <= limit && Sorted(start, rs)
    ensures CountIn(History(limit, window, rs), from, from + window) <= limit
  {
    hide After, Allows, UpTo, CountTo, LaterTo;
    if rs != [] {
      var front, r := rs[..|rs| - 1], rs[|rs| - 1];
      assert forall i :: 0 <= i < |front| ==> front[i] == rs[i];
      assert front != [] ==> front[|front| - 1].now <= r.now;
      HistoryBound(limit, window, start, front, from);
      HistoryDecides(limit, window, start, front, r);
      HistoryIsPast(limit, window, start, front, r.now);
      var added := if Allows(limit, window, After(limit, window, front), r) then Repeat(r.now, r.n) else [];
      AddedInWindow(limit, window, History(limit, window, front), added, r, from);
    } else {
      assert CountIn([], from, from + window) == 0 by {
        CountSame([], 0, 0, from, from + window);
      }
    }
  }

  // ----- the same in units that were granted -----

  predicate SlidingAnswer(limit: int, window: int, rs: seq<Request>, i: nat)
    requires i < |rs|
  {
    Allows(limit, window, After(limit, window, rs[..i]), rs[i])
  }

  function SlidingAnswers(limit: int, window: int, rs: seq<Request>): (ok: seq<bool>)
    ensures |ok| == |rs|
  {
    seq(|rs|, i requires 0 <= i < |rs| => SlidingAnswer(limit, window, rs, i))
  }

  /** A granted request of n units is n entries of the history. */
  lemma {:induction false} HistoryIsGranted(limit: int, window: int, rs: seq<Request>, k: nat, from: int, to: int)
    requires NonNegative(rs) && k <= |rs|
    ensures CountIn(History(limit, window, rs[..k]), from, to) ==
            Granted(rs, SlidingAnswers(limit, window, rs), k, from + 1, to)
  {
    if k != 0 {
      hide CountIn, History, SlidingAnswer, Repeat;
      HistoryIsGranted(limit, window, rs, k - 1, from, to);
      HistoryGrows(limit, window, rs, k);
      var r := rs[k - 1];
      CountAdded(History(limit, window, rs[..k - 1]), r.now, r.n, SlidingAnswer(limit, window, rs, k - 1), from, to);
    } else {
      assert rs[..0] == [];
    }
  }

  lemma CountAdded(past: seq<int>, t: int, n: nat, granted: bool, from: int, to: int)
    ensures CountIn(past + (if granted then Repeat(t, n) else []), from, to) ==
            CountIn(past, from, to) + (if granted && from < t <= to then n else 0)
  {
    var added := if granted then Repeat(t, n) else [];
    hide CountTo;
    CountConcat(past, added, |added|, from, to);
    CountSame(added, |added|, t, from, to);
  }

  lemma HistoryGrows(limit: int, window: int, rs: seq<Request>, k: nat)
    requires 0 < k <= |rs|
    ensures History(limit, window, rs[..k]) ==
            History(limit, window, rs[..k - 1]) +
            (if SlidingAnswer(limit, window, rs, k - 1) then Repeat(rs[k - 1].now, rs[k - 1].n) else [])
  {
    assert rs[..k][..k - 1] == rs[..k - 1];
  }

  /** A call is granted exactly when its units and those granted in the window that ends now
      are together at most the limit. */
  lemma DecisionIsExact(limit: int, window: int, start: int, rs: seq<Request>, k: nat)
    requires Sorted(start, rs) && NonNegative(rs) && k < |rs|
    ensures var ok := SlidingAnswers(limit, window, rs);
            ok[k] <==> Granted(rs, ok, k, rs[k].now - window + 1, rs[k].now) + rs[k].n <= limit
  {
    Prefix(start, rs, k);
    hide After, History, CountIn, Allows, Sorted, NonNegative;
    HistoryDecides(limit, window, start, rs[..k], rs[k]);
    HistoryIsGranted(limit, window, rs, k, rs[k].now - window, rs[k].now);
  }

  /** No half-open window is granted more than the limit. */
  lemma SlidingBound(limit: int, window: int, start: int, rs: seq<Request>, from: int)
    requires 0 <= limit && Sorted(start, rs) && NonNegative(rs)
    ensures Granted(rs, SlidingAnswers(limit, window, rs), |rs|, from + 1, from + window) <= limit
  {
    HistoryBound(limit, window, start, rs, from);
    HistoryIsGranted(limit, window, rs, |rs|, from, from + window);
    assert rs[..|rs|] == rs;
  }

  class SlidingWindowLimiter {
    const windowSize: int
    const maxRequests: int
    var requests: seq<int>

    constructor (maxRequests: int, windowSize: int)
      ensures this.maxRequests == maxRequests && this.windowSize == windowSize
      ensures requests == After(maxRequests, windowSize, [])
    {
      this.maxRequests, this.windowSize, requests := maxRequests, windowSize, [];
    }

    method AllowN(n: int, now: int) returns (ok: bool)
      modifies this
      ensures ok == Allows(maxRequests, windowSize, old(requests), Request(now, n))
      ensures requests == Slide(maxRequests, windowSize, old(requests), Request(now, n))
    {
      var cutoff := now - windowSize;
      var validRequests := [];
      for i := 0 to |requests|
        invariant validRequests == LaterTo(requests, i, cutoff)
      {
        if cutoff < requests[i] {
          validRequests := validRequests + [requests[i]];
        }
      }
      requests := validRequests;
      if |requests| + n <= maxRequests {
        var i := 0;
        while i < n
          invariant 0 <= i && (i <= n || i == 0)
          invariant requests == validRequests + Repeat(now, i)
        {
          requests := requests + [now];
          i := i + 1;
        }
        return true;
      }
      return false;
    }
  }

  // ----- fixed window -----

  datatype Fixed = Fixed(windowStart: int, count: int)

  function Renewed(window: int, f: Fixed, now: int): Fixed {
    if now - f.windowStart > window then Fixed(now, 0) else f
  }

  predicate FixedAllows(limit: int, window: int, f: Fixed, r: Request) {
    Renewed(window, f, r.now).count + r.n <= limit
  }

  function FixedStep(limit: int, window: int, f: Fixed, r: Request): Fixed {
    var g := Renewed(window, f, r.now);
    if FixedAllows(limit, window, f, r) then g.(count := g.count + r.n) else g
  }

  function FixedAfter(limit: int, window: int, start: int, rs: seq<Request>): Fixed {
    if rs == [] then Fixed(start, 0)
    else FixedStep(limit, window, FixedAfter(limit, window, start, rs[..|rs| - 1]), rs[|rs| - 1])
  }

  /** What a run was granted at times from s to t, both included. */
  function FixedGranted(limit: int, window: int, start: int, rs: seq<Request>, s: int, t: int): int {
    if rs == [] then 0
    else
      var front, r := rs[..|rs| - 1], rs[|rs| - 1];
      FixedGranted(limit, window, start, front, s, t) +
      (if s <= r.now <= t && FixedAllows(limit, window, FixedAfter(limit, window, start, front), r)
       then r.n else 0)
  }

  lemma {:induction false} FixedInvariant(limit: int, window: int, start: int, rs: seq<Request>)
    requires 0 <= limit && 0 <= window && Sorted(start, rs) && NonNegative(rs)
    ensures var f := FixedAfter(limit, window, start, rs);
            && 0 <= f.count <= limit
            && (rs != [] ==> f.windowStart <= rs[|rs| - 1].now <= f.windowStart + window)
            && start <= f.windowStart
  {
    if rs != [] {
      var front := rs[..|rs| - 1];
      assert forall i :: 0 <= i < |front| ==> front[i] == rs[i];
      FixedInvariant(limit, window, start, front);
    }
  }

  /** Grants from s on: those of the running window are in the count; if the running window
      began after s, one earlier window can add a limit, and once s is more than a window
      behind the running window's start nothing more is said. */
  lemma {:induction false} FixedPotential(limit: int, window: int, start: int, rs: seq<Request>, s: int)
    requires 0 <= limit && 0 <= window && Sorted(start, rs) && NonNegative(rs)
    ensures var f := FixedAfter(limit, window, start, rs);
            var got := FixedGranted(limit, window, start, rs, s, s + window);
            && (rs != [] && rs[|rs| - 1].now < s ==> got == 0)
            && (f.windowStart <= s ==> got <= f.count)
            && (s < f.windowStart <= s + window ==> got <= limit + f.count)
            && got <= 2 * limit
  {
    if rs != [] {
      var front, r := rs[..|rs| - 1], rs[|rs| - 1];
      assert forall i :: 0 <= i < |front| ==> front[i] == rs[i];
      FixedPotential(limit, window, start, front, s);
      FixedInvariant(limit, window, start, front);
      FixedInvariant(limit, window, start, rs);
    }
  }

  /** A closed interval of one window's length meets at most two windows. */
  lemma FixedBound(limit: int, window: int, start: int, rs: seq<Request>, s: int)
    requires 0 <= limit && 0 <= window && Sorted(start, rs) && NonNegative(rs)
    ensures FixedGranted(limit, window, start, rs, s, s + window) <= 2 * limit
  {
    FixedPotential(limit, window, start, rs, s);
  }

  /** The factor two is reached: a full window may end just before the next one begins. */
  lemma FixedBoundIsTight(limit: nat, window: nat)
    requires 1 <= window
    ensures var rs := [Request(window, limit), Request(window + 1, limit)];
            && Sorted(0, rs) && NonNegative(rs)
            && FixedGranted(limit, window, 0, rs, window, window + window) == 2 * limit
  {
    var rs := [Request(window, limit), Request(window + 1, limit)];
    assert rs[..1] == [rs[0]] && rs[..1][..0] == [];
    assert FixedAfter(limit, window, 0, rs[..1]) == Fixed(0, limit);
    assert FixedGranted(limit, window, 0, rs[..1], window, window + window) == limit;
  }

  /** Windows of length zero are single moments, and a moment gets at most the limit. */
  lemma {:induction false} MomentBound(limit: nat, start: int, rs: seq<Request>, s: int)
    requires Sorted(start, rs) && NonNegative(rs)
    ensures var f, got := FixedAfter(limit, 0, start, rs), FixedGranted(limit, 0, start, rs, s, s);
            && got <= limit
            && (rs != [] && rs[|rs| - 1].now < s ==> got == 0)
            && (rs == [] || rs[|rs| - 1].now <= s ==> got <= f.count || f.windowStart < s)
  {
    if rs != [] {
      var front := rs[..|rs| - 1];
      assert forall i :: 0 <= i < |front| ==> front[i] == rs[i];
      MomentBound(limit, start, front, s);
      FixedInvariant(limit, 0, start, front);
    }
  }

  lemma {:induction false} GrantedMonotone(limit: int, window: int, start: int, rs: seq<Request>, s: int, s': int,
                                           t: int)
    requires NonNegative(rs) && s <= s'
    ensures 0 <= FixedGranted(limit, window, start, rs, s', t) <= FixedGranted(limit, window, start, rs, s, t)
  {
    if rs != [] {
      var front := rs[..|rs| - 1];
      assert forall i :: 0 <= i < |front| ==> front[i] == rs[i];
      GrantedMonotone(limit, window, start, front, s, s', t);
    }
  }

  lemma {:induction false} NothingGranted(limit: int, window: int, start: int, rs: seq<Request>, s: int, t: int)
    requires forall i :: 0 <= i < |rs| ==> rs[i].now < s
    ensures FixedGranted(limit, window, start, rs, s, t) == 0
  {
    if rs != [] {
      NothingGranted(limit, window, start, rs[..|rs| - 1], s, t);
    }
  }

  /** The counter is what was granted since the window began. */
  lemma {:induction false} FixedCountIsGranted(limit: int, window: int, start: int, rs: seq<Request>, t: int)
    requires 0 <= limit && 0 <= window && Sorted(start, rs) && NonNegative(rs)
    requires forall i :: 0 <= i < |rs| ==> rs[i].now <= t
    ensures var f := FixedAfter(limit, window, start, rs);
            f.count == FixedGranted(limit, window, start, rs, f.windowStart, t)
  {
    if rs != [] {
      var front, r := rs[..|rs| - 1], rs[|rs| - 1];
      Prefix(start, rs, |front|);
      FixedCountIsGranted(limit, window, start, front, t);
      FixedInvariant(limit, window, start, front);
      var f := FixedAfter(limit, window, start, front);
      if r.now - f.windowStart > window {
        assert forall i :: 0 <= i < |front| ==> front[i] == rs[i] && front[i].now <= front[|front| - 1].now;
        NothingGranted(limit, window, start, front, r.now, t);
      }
    }
  }

  /** A call is refused only if what was granted in the window's length that ends now leaves no
      room for it. */
  lemma RefusalIsJustified(limit: int, window: int, start: int, rs: seq<Request>, r: Request)
    requires 0 <= limit && 0 <= window && Sorted(start, rs + [r]) && NonNegative(rs)
    requires !FixedAllows(limit, window, FixedAfter(limit, window, start, rs), r)
    ensures limit < FixedGranted(limit, window, start, rs, r.now - window, r.now) + r.n
  {
    assert (rs + [r])[..|rs|] == rs && (rs + [r])[|rs|] == r;
    Prefix(start, rs + [r], |rs|);
    hide Sorted, NonNegative, FixedAfter, FixedGranted;
    var f := FixedAfter(limit, window, start, rs);
    FixedCountIsGranted(limit, window, start, rs, r.now);
    if r.now - f.windowStart <= window {
      GrantedMonotone(limit, window, start, rs, r.now - window, f.windowStart, r.now);
    } else {
      GrantedMonotone(limit, window, start, rs, r.now - window, r.now, r.now);
    }
  }

  ghost predicate WithinLimit(limit: nat, window: nat, start: int, rs: seq<Request>, s: int) {
    FixedGranted(limit, window, start, rs, s, s + window) <= limit
  }

  /** The limit itself holds for every interval of one window's length, in all runs, exactly
      for limits and windows that are zero. */
  lemma LimitHoldsIff(limit: nat, window: nat)
    ensures (forall start, rs, s ::
               Sorted(start, rs) && NonNegative(rs) ==> WithinLimit(limit, window, start, rs, s)) <==>
            limit == 0 || window == 0
  {
    if limit == 0 || window == 0 {
      forall start, rs, s | Sorted(start, rs) && NonNegative(rs) ensures WithinLimit(limit, window, start, rs, s)
      {
        if window == 0 {
          MomentBound(limit, start, rs, s);
        } else {
          FixedBound(limit, window, start, rs, s);
        }
      }
    } else {
      FixedBoundIsTight(limit, window);
      var rs := [Request(window, limit), Request(window + 1, limit)];
      assert !WithinLimit(limit, window, 0, rs, window);
    }
  }

  class FixedWindowLimiter {
    const windowSize: int
    const maxRequests: int
    var windowStart: int
    var count: int

    ghost function Contents(): Fixed
      reads this
    {
      Fixed(windowStart, count)
    }

    constructor (maxRequests: int, windowSize: int, now: int)
      ensures this.maxRequests == maxRequests && this.windowSize == windowSize
      ensures Contents() == FixedAfter(maxRequests, windowSize, now, [])
    {
      this.maxRequests, this.windowSize, windowStart, count := maxRequests, windowSize, now, 0;
    }

    method AllowN(n: int, now: int) returns (ok: bool)
      modifies this
      ensures ok == FixedAllows(maxRequests, windowSize, old(Contents()), Request(now, n))
      ensures Contents() == FixedStep(maxRequests, windowSize, old(Contents()), Request(now, n))
    {
      if now - windowStart > windowSize {
        windowStart := now;
        count := 0;
      }
      if count + n <= maxRequests {
        count := count + n;
        return true;
      }
      return false;
    }
  }
}
