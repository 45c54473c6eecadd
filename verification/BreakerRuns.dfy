/** What the circuit breaker lets through: when it refuses, and that it recovers. */
module BreakerRuns {
  import opened CircuitBreaker

  /** Event i is a failing call that was let through and left the breaker open. */
  ghost predicate OpenedAt(c: Config, zeroTime: int, es: seq<Event>, i: nat)
    requires i < |es|
  {
    && es[i].Call? && es[i].fails && Invokes(c, After(c, zeroTime, es[..i]), es[i].clock)
    && After(c, zeroTime, es[..i + 1]).state.Open?
  }

  /** No call after event i was let through, and nobody called Reset. */
  ghost predicate ClosedOffSince(c: Config, zeroTime: int, es: seq<Event>, i: nat) {
    forall j :: i < j < |es| ==>
      !es[j].Reset? && (es[j].Call? ==> !Invokes(c, After(c, zeroTime, es[..j]), es[j].clock))
  }

  /** An open breaker was opened by a call, and its clock runs from the end of that call. */
  lemma {:induction false} OpenedByCall(c: Config, zeroTime: int, es: seq<Event>) returns (i: nat)
    requires After(c, zeroTime, es).state.Open?
    ensures i < |es| && OpenedAt(c, zeroTime, es, i) && ClosedOffSince(c, zeroTime, es, i)
    ensures After(c, zeroTime, es).stateChangeAt == es[i].clock.end
  {
    var n := |es| - 1;
    var front, e := es[..n], es[n];
    var b := After(c, zeroTime, front);
    assert es[..n + 1] == es;
    if e.Call? && Invokes(c, b, e.clock) {
      i := n;
    } else {
      i := OpenedByCall(c, zeroTime, front);
      assert front[..i] == es[..i] && front[..i + 1] == es[..i + 1];
      forall j | i < j < |es|
        ensures !es[j].Reset? && (es[j].Call? ==> !Invokes(c, After(c, zeroTime, es[..j]), es[j].clock))
      {
        if j < n {
          assert front[..j] == es[..j] && front[j] == es[j];
        }
      }
    }
  }

  /** A call is refused only within the reset timeout after the call that opened the breaker. */
  lemma RefusedOnlyWhenJustOpened(c: Config, zeroTime: int, es: seq<Event>, t: Clock) returns (i: nat)
    requires !Invokes(c, After(c, zeroTime, es), t)
    ensures i < |es| && OpenedAt(c, zeroTime, es, i) && ClosedOffSince(c, zeroTime, es, i)
    ensures t.entry < es[i].clock.end + c.resetTimeout
  {
    i := OpenedByCall(c, zeroTime, es);
  }

  /** So the breaker never refuses for ever: a call entered a reset timeout after the end of all
      calls before it is let through. */
  lemma {:induction false} InvokedAfterPause(c: Config, zeroTime: int, es: seq<Event>, t: Clock)
    requires forall i :: 0 <= i < |es| && es[i].Call? ==> es[i].clock.end + c.resetTimeout <= t.entry
    ensures Invokes(c, After(c, zeroTime, es), t)
  {
    if !Invokes(c, After(c, zeroTime, es), t) {
      var i := RefusedOnlyWhenJustOpened(c, zeroTime, es, t);
      assert false;
    }
  }

  function CallsIn(es: seq<Event>): nat {
    if es == [] then 0 else CallsIn(es[..|es| - 1]) + (if es[|es| - 1].Call? then 1 else 0)
  }

  /** With nothing counted, fewer than maxFailures failing calls do not open the breaker. */
  lemma {:induction false} FailuresAreTolerated(c: Config, zeroTime: int, past: seq<Event>, es: seq<Event>)
    requires !After(c, zeroTime, past).state.Open? && After(c, zeroTime, past).failureCount == 0
    requires OnlyFailures(es) && CallsIn(es) < c.maxFailures
    ensures var b := After(c, zeroTime, past + es); !b.state.Open? && 0 <= b.failureCount <= CallsIn(es)
  {
    if es == [] {
      assert past + es == past;
    } else {
      var front := es[..|es| - 1];
      assert forall i :: 0 <= i < |front| ==> front[i] == es[i];
      FailuresAreTolerated(c, zeroTime, past, front);
      assert (past + es)[..|past + es| - 1] == past + front && (past + es)[|past + es| - 1] == es[|es| - 1];
    }
  }

  /** Recovery: once a call has succeeded, the next maxFailures calls are let through, although
      all those before the last of them fail, and whatever cleanups come in between. */
  lemma RecoversFully(c: Config, zeroTime: int, past: seq<Event>, t: Clock, es: seq<Event>, t': Clock)
    requires Invokes(c, After(c, zeroTime, past), t)
    requires OnlyFailures(es) && CallsIn(es) < c.maxFailures
    ensures Invokes(c, After(c, zeroTime, past + [Call(t, false)] + es), t')
  {
    assert (past + [Call(t, false)])[..|past|] == past;
    FailuresAreTolerated(c, zeroTime, past + [Call(t, false)], es);
  }

  lemma {:induction false} LastFailureIsACall(c: Config, zeroTime: int, es: seq<Event>)
    ensures var at := After(c, zeroTime, es).lastFailure;
            at == zeroTime || exists i :: 0 <= i < |es| && es[i].Call? && es[i].clock.end == at
  {
    if es != [] {
      var n := |es| - 1;
      var front := es[..n];
      LastFailureIsACall(c, zeroTime, front);
      var at := After(c, zeroTime, front).lastFailure;
      if at != zeroTime {
        var i :| 0 <= i < |front| && front[i].Call? && front[i].clock.end == at;
        assert es[i] == front[i];
      }
      assert es[n].Call? ==> es[n].clock.end == es[n].clock.end;
    }
  }

  /** Forgiveness: a cleanup more than two reset timeouts after the end of every call so far, on a
      breaker that is not open, lets the next maxFailures calls through as well. */
  lemma CleanupForgives(c: Config, zeroTime: int, past: seq<Event>, now: int, es: seq<Event>, t': Clock)
    requires !After(c, zeroTime, past).state.Open? && zeroTime + 2 * c.resetTimeout < now
    requires forall i :: 0 <= i < |past| && past[i].Call? ==> past[i].clock.end + 2 * c.resetTimeout < now
    requires OnlyFailures(es) && CallsIn(es) < c.maxFailures
    ensures Invokes(c, After(c, zeroTime, past + [Cleanup(now)] + es), t')
  {
    LastFailureIsACall(c, zeroTime, past);
    assert (past + [Cleanup(now)])[..|past|] == past;
    FailuresAreTolerated(c, zeroTime, past + [Cleanup(now)], es);
  }

  /** A Reset does the same at once, whatever came before. */
  lemma ResetRecovers(c: Config, zeroTime: int, past: seq<Event>, now: int, es: seq<Event>, t': Clock)
    requires OnlyFailures(es) && CallsIn(es) < c.maxFailures
    ensures Invokes(c, After(c, zeroTime, past + [Reset(now)] + es), t')
  {
    assert (past + [Reset(now)])[..|past|] == past;
    FailuresAreTolerated(c, zeroTime, past + [Reset(now)], es);
  }

  /** Failing calls, each of them let through. */
  ghost predicate FailsEachTime(c: Config, zeroTime: int, past: seq<Event>, es: seq<Event>) {
    forall i :: 0 <= i < |es| ==>
      es[i].Call? && es[i].fails && Invokes(c, After(c, zeroTime, past + es[..i]), es[i].clock)
  }

  lemma {:induction false} FailuresAreCounted(c: Config, zeroTime: int, past: seq<Event>, es: seq<Event>)
    requires 1 <= c.maxFailures && FailsEachTime(c, zeroTime, past, es)
    ensures |es| <= After(c, zeroTime, past + es).failureCount
  {
    if es == [] {
      ClosedMeansBelowThreshold(c, zeroTime, past);
      assert past + es == past;
    } else {
      var front, last := es[..|es| - 1], es[|es| - 1];
      OneFailureLess(c, zeroTime, past, es);
      hide FailsEachTime, After;
      FailuresAreCounted(c, zeroTime, past, front);
      AfterFailure(c, zeroTime, past + front, last);
      assert past + front + [last] == past + es;
    }
  }

  lemma OneFailureLess(c: Config, zeroTime: int, past: seq<Event>, es: seq<Event>)
    requires es != [] && FailsEachTime(c, zeroTime, past, es)
    ensures FailsEachTime(c, zeroTime, past, es[..|es| - 1])
    ensures var last := es[|es| - 1];
            last.Call? && last.fails && Invokes(c, After(c, zeroTime, past + es[..|es| - 1]), last.clock)
  {
    hide After;
    var front := es[..|es| - 1];
    forall i | 0 <= i < |front|
      ensures front[i].Call? && front[i].fails && Invokes(c, After(c, zeroTime, past + front[..i]), front[i].clock)
    {
      assert front[..i] == es[..i] && front[i] == es[i];
    }
  }

  lemma AfterFailure(c: Config, zeroTime: int, es: seq<Event>, e: Event)
    requires e.Call? && e.fails && Invokes(c, After(c, zeroTime, es), e.clock)
    ensures After(c, zeroTime, es + [e]).failureCount == After(c, zeroTime, es).failureCount + 1
  {
    assert (es + [e])[..|es|] == es;
  }

  /** Protection: after maxFailures failures in a row a call is let through exactly when the
      reset timeout has passed since the end of the last of them. */
  lemma TripsAfterFailures(c: Config, zeroTime: int, past: seq<Event>, es: seq<Event>, t: Clock)
    requires 1 <= c.maxFailures <= |es| && FailsEachTime(c, zeroTime, past, es)
    ensures Invokes(c, After(c, zeroTime, past + es), t) <==> es[|es| - 1].clock.end + c.resetTimeout <= t.entry
  {
    var front, last := es[..|es| - 1], es[|es| - 1];
    FailuresAreCounted(c, zeroTime, past, es);
    assert (past + es)[..|past + es| - 1] == past + front;
    assert Invokes(c, After(c, zeroTime, past + front), last.clock);
  }
}
