/** The middleware chain step by step, for chains of any length. */
module ChainSteps {
  import opened Middleware

  /** The Go call stack inside one outer call of Next, innermost call first. */
  datatype Stack = Empty | Loop(below: Stack) | Running(i: nat, p: Program, below: Stack)

  datatype Machine = Machine(index: nat, stack: Stack, log: seq<Event>, aborted: bool, startedAfterAbort: bool)

  const BEGIN := Machine(0, Loop(Empty), [], false, false)

  function Step(hs: seq<Program>, m: Machine): Machine {
    match m.stack
    case Empty => m
    case Loop(below) =>
      if m.index < |hs| then
        m.(stack := Running(m.index, hs[m.index], m.stack), log := m.log + [Started(m.index)],
           startedAfterAbort := m.startedAfterAbort || m.aborted)
      else m.(stack := below)
    case Running(i, Done, below) => m.(stack := below, index := m.index + 1)
    case Running(i, Work(what, rest), below) =>
      m.(stack := Running(i, rest, below), log := m.log + [Did(i, what)])
    case Running(i, CallNext(rest), below) =>
      m.(stack := Loop(Running(i, rest, below)), index := m.index + 1)
    case Running(i, CallAbort(rest), below) =>
      m.(stack := Running(i, rest, below), log := m.log + [Aborted(i)], index := ABORT_INDEX, aborted := true)
  }

  function Steps(hs: seq<Program>, n: nat): Machine {
    if n == 0 then BEGIN else Step(hs, Steps(hs, n - 1))
  }

  // ----- what every run keeps -----

  /** Loops and handlers alternate. */
  predicate Shaped(n: nat, s: Stack) {
    match s
    case Empty => true
    case Loop(below) => !below.Loop? && Shaped(n, below)
    case Running(i, _, below) => i < n && below.Loop? && Shaped(n, below)
  }

  predicate NoAborts(s: Stack) {
    match s
    case Empty => true
    case Loop(below) => NoAborts(below)
    case Running(_, p, below) => !HasAbort(p) && NoAborts(below)
  }

  predicate Placed(hs: seq<Program>, m: Machine) {
    && (m.stack.Empty? ==> |hs| <= m.index)
    && (m.stack.Running? && !m.aborted ==> m.index == m.stack.i || |hs| <= m.index)
    && (m.aborted ==> ABORT_INDEX <= m.index && (m.stack.Loop? ==> ABORT_INDEX < m.index))
  }

  ghost predicate Inv(hs: seq<Program>, m: Machine) {
    && Shaped(|hs|, m.stack)
    && Placed(hs, m)
    && (NeverAborts(hs) ==> NoAborts(m.stack) && !m.aborted)
  }

  lemma StepKeepsInv(hs: seq<Program>, m: Machine)
    requires Manageable(hs) && Inv(hs, m)
    ensures Inv(hs, Step(hs, m))
  {
  }

  lemma {:induction false} RunKeepsInv(hs: seq<Program>, n: nat)
    requires Manageable(hs)
    ensures Inv(hs, Steps(hs, n))
  {
    if n != 0 {
      RunKeepsInv(hs, n - 1);
      StepKeepsInv(hs, Steps(hs, n - 1));
    }
  }

  // ----- every manageable chain comes to an end -----

  /** The steps of a handler and of the loops that it opens. */
  function Length(p: Program): nat {
    match p
    case Done => 1
    case Work(_, rest) => 1 + Length(rest)
    case CallNext(rest) => 2 + Length(rest)
    case CallAbort(rest) => 1 + Length(rest)
  }

  function LengthFrom(hs: seq<Program>, i: nat): nat
    decreases if i < |hs| then |hs| - i else 0
  {
    if i < |hs| then 1 + Length(hs[i]) + LengthFrom(hs, i + 1) else 0
  }

  function StackLength(s: Stack): nat {
    match s
    case Empty => 0
    case Loop(below) => 1 + StackLength(below)
    case Running(_, p, below) => Length(p) + StackLength(below)
  }

  /** The first handler that has not started, unless an Abort prevents it. */
  function Ahead(m: Machine): nat {
    if m.stack.Running? then m.index + 1 else m.index
  }

  function ToGo(hs: seq<Program>, m: Machine): nat {
    StackLength(m.stack) + LengthFrom(hs, Ahead(m))
  }

  lemma StepShortens(hs: seq<Program>, m: Machine)
    requires Manageable(hs) && Inv(hs, m) && !m.stack.Empty?
    ensures ToGo(hs, Step(hs, m)) < ToGo(hs, m)
  {
    match m.stack
    case Loop(below) =>
      assert LengthFrom(hs, m.index) ==
             if m.index < |hs| then 1 + Length(hs[m.index]) + LengthFrom(hs, m.index + 1)
             else LengthFrom(hs, m.index + 1);
    case Running(i, p, below) =>
      if p.CallAbort? {
        assert HasAbort(p) && |hs| <= ABORT_INDEX + 1;
        assert LengthFrom(hs, ABORT_INDEX + 1) == 0;
        assert Ahead(Step(hs, m)) == ABORT_INDEX + 1;
        assert ToGo(hs, Step(hs, m)) == StackLength(Step(hs, m).stack);
      } else {
        assert Ahead(Step(hs, m)) == Ahead(m);
        assert StackLength(Step(hs, m).stack) < StackLength(m.stack);
      }
  }

  lemma {:induction false} Ends(hs: seq<Program>, k: nat) returns (n: nat)
    requires Manageable(hs)
    ensures Steps(hs, n).stack.Empty?
    decreases ToGo(hs, Steps(hs, k))
  {
    n := k;
    if !Steps(hs, k).stack.Empty? {
      RunKeepsInv(hs, k);
      StepShortens(hs, Steps(hs, k));
      n := Ends(hs, k + 1);
    }
  }

  // ----- it runs the chain -----

  /** What a handler still does, with the rest of the chain behind it. */
  function Rest(hs: seq<Program>, i: nat, p: Program, open: bool): seq<Event>
    requires i < |hs|
  {
    var t := Body(hs, i, p, open);
    t.log + (if t.open then Chain(hs, i + 1) else [])
  }

  lemma RestCases(hs: seq<Program>, i: nat, p: Program, open: bool)
    requires i < |hs|
    ensures var next := if open then Chain(hs, i + 1) else [];
            && (p.Done? ==> Rest(hs, i, p, open) == next)
            && (p.Work? ==> Rest(hs, i, p, open) == [Did(i, p.what)] + Rest(hs, i, p.rest, open))
            && (p.CallNext? ==> Rest(hs, i, p, open) == next + Rest(hs, i, p.rest, false))
            && (p.CallAbort? ==> Rest(hs, i, p, open) == [Aborted(i)] + Rest(hs, i, p.rest, false))
  {
    hide Chain;
  }

  /** What is still to come below a loop: its handlers find the index past the chain. */
  function Closed(hs: seq<Program>, s: Stack): seq<Event>
    requires Shaped(|hs|, s)
  {
    match s
    case Empty => []
    case Loop(below) => Closed(hs, below)
    case Running(i, p, below) => Rest(hs, i, p, false) + Closed(hs, below)
  }

  function Future(hs: seq<Program>, m: Machine): seq<Event>
    requires Shaped(|hs|, m.stack)
  {
    match m.stack
    case Empty => []
    case Loop(below) => Chain(hs, m.index) + Closed(hs, below)
    case Running(i, p, below) => Rest(hs, i, p, !m.aborted && m.index == i) + Closed(hs, below)
  }

  lemma Swallow(log: seq<Event>, head: seq<Event>, tail: seq<Event>, after: seq<Event>)
    ensures (log + head) + (tail + after) == log + ((head + tail) + after)
    ensures log + (tail + after) == log + (([] + tail) + after)
  {
  }

  lemma ChainIsRest(hs: seq<Program>, i: nat)
    requires i < |hs|
    ensures Chain(hs, i) == [Started(i)] + Rest(hs, i, hs[i], true)
  {
    hide Body;
    ghost var t := Body(hs, i, hs[i], true);
    Join([Started(i)], t.log, if t.open then Chain(hs, i + 1) else []);
  }

  lemma LoopKeepsFuture(hs: seq<Program>, m: Machine)
    requires Manageable(hs) && Inv(hs, m) && Inv(hs, Step(hs, m)) && m.stack.Loop?
    ensures Step(hs, m).log + Future(hs, Step(hs, m)) == m.log + Future(hs, m)
  {
    hide Body, Chain, Rest, HasAbort, NoAborts;
    ghost var i, below := m.index, m.stack.below;
    if i < |hs| {
      ChainIsRest(hs, i);
      Swallow(m.log, [Started(i)], Rest(hs, i, hs[i], true), Closed(hs, below));
    } else {
      ChainEnd(hs, i);
      assert [] + Closed(hs, below) == Closed(hs, below);
    }
  }

  lemma HandlerKeepsFuture(hs: seq<Program>, m: Machine)
    requires Manageable(hs) && Inv(hs, m) && Inv(hs, Step(hs, m)) && m.stack.Running?
    ensures Step(hs, m).log + Future(hs, Step(hs, m)) == m.log + Future(hs, m)
  {
    hide Body, Chain, Rest, HasAbort, NoAborts;
    ghost var i, p, below := m.stack.i, m.stack.p, m.stack.below;
    ghost var open := !m.aborted && m.index == i;
    RestCases(hs, i, p, open);
    match p
    case Done =>
      if !open {
        ChainEnd(hs, m.index + 1);
      }
    case Work(what, rest) =>
      Swallow(m.log, [Did(i, what)], Rest(hs, i, rest, open), Closed(hs, below));
    case CallNext(rest) =>
      if !open {
        ChainEnd(hs, m.index + 1);
      }
      Swallow(m.log, Chain(hs, m.index + 1), Rest(hs, i, rest, false), Closed(hs, below));
      Join(Chain(hs, m.index + 1), Rest(hs, i, rest, false), Closed(hs, below));
    case CallAbort(rest) =>
      Swallow(m.log, [Aborted(i)], Rest(hs, i, rest, false), Closed(hs, below));
  }

  lemma StepKeepsFuture(hs: seq<Program>, m: Machine)
    requires Manageable(hs) && Inv(hs, m)
    ensures Inv(hs, Step(hs, m))
    ensures Step(hs, m).log + Future(hs, Step(hs, m)) == m.log + Future(hs, m)
  {
    StepKeepsInv(hs, m);
    if m.stack.Loop? {
      LoopKeepsFuture(hs, m);
    } else if m.stack.Running? {
      HandlerKeepsFuture(hs, m);
    }
  }

  lemma {:induction false} LogIsPrefix(hs: seq<Program>, n: nat)
    requires Manageable(hs)
    ensures Inv(hs, Steps(hs, n)) && Steps(hs, n).log + Future(hs, Steps(hs, n)) == Chain(hs, 0)
  {
    if n == 0 {
      assert [] + Chain(hs, 0) + [] == Chain(hs, 0);
    } else {
      LogIsPrefix(hs, n - 1);
      StepKeepsFuture(hs, Steps(hs, n - 1));
    }
  }

  ghost predicate RunsAsChain(hs: seq<Program>) {
    exists n: nat :: Steps(hs, n).stack.Empty? && Steps(hs, n).log == Chain(hs, 0)
  }

  /** The machine returns, and has then done exactly what the index-free meaning says. */
  lemma ManageableRunsAsChain(hs: seq<Program>)
    requires Manageable(hs)
    ensures RunsAsChain(hs)
  {
    var n := Ends(hs, 0);
    LogIsPrefix(hs, n);
  }

  /** Every handler of the chain aborts; from handler ABORT_INDEX + 1 on they start for ever. */
  predicate Awake(n: nat, m: Machine) {
    match m.stack
    case Loop(below) => below.Empty? && m.index < n
    case Running(i, p, below) =>
      below == Loop(Empty) && (p == CallAbort(Done) || (p == Done && m.index == ABORT_INDEX))
    case Empty => false
  }

  lemma {:induction false} StaysAwake(hs: seq<Program>, n: nat)
    requires ABORT_INDEX + 1 < |hs| && forall k :: 0 <= k < |hs| ==> hs[k] == CallAbort(Done)
    ensures Awake(|hs|, Steps(hs, n))
  {
    if n != 0 {
      StaysAwake(hs, n - 1);
    }
  }

  /** All chains of n handlers return, with the meaning of the chain, exactly when n is at most
      16384, which is ABORT_INDEX + 1; some longer chain never returns. */
  lemma RunsAsChainIff(n: nat)
    ensures (forall hs: seq<Program> :: |hs| == n ==> RunsAsChain(hs)) <==> n <= 16_384
  {
    if n <= ABORT_INDEX + 1 {
      forall hs: seq<Program> | |hs| == n ensures RunsAsChain(hs) {
        ManageableRunsAsChain(hs);
      }
    } else {
      var hs := seq(n, _ => CallAbort(Done));
      if RunsAsChain(hs) {
        var k: nat :| Steps(hs, k).stack.Empty?;
        StaysAwake(hs, k);
        assert false;
      }
    }
  }

  // ----- Abort is final -----

  lemma {:induction false} AbortIsFinal(hs: seq<Program>, n: nat)
    requires |hs| <= ABORT_INDEX + 1
    ensures var m := Steps(hs, n);
            && !m.startedAfterAbort
            && (m.aborted ==> ABORT_INDEX <= m.index)
            && (m.aborted && m.stack.Loop? ==> ABORT_INDEX < m.index)
  {
    if n != 0 {
      AbortIsFinal(hs, n - 1);
    }
  }

  ghost predicate StopsAtAbort(hs: seq<Program>) {
    forall k: nat :: !Steps(hs, k).startedAfterAbort
  }

  lemma WakesUp(hs: seq<Program>)
    requires ABORT_INDEX + 1 < |hs| && hs[0] == CallAbort(Done)
    ensures Steps(hs, 4).startedAfterAbort
  {
    var s1 := Step(hs, BEGIN);
    assert s1 == Machine(0, Running(0, CallAbort(Done), Loop(Empty)), [Started(0)], false, false);
    var s2 := Step(hs, s1);
    var s3 := Step(hs, s2);
    assert s3 == Machine(ABORT_INDEX + 1, Loop(Empty), [Started(0), Aborted(0)], true, false);
    assert Step(hs, s3).startedAfterAbort;
    assert Steps(hs, 1) == s1;
    assert Steps(hs, 2) == s2;
    assert Steps(hs, 3) == s3;
  }

  /** In chains of n handlers nothing ever starts after an Abort exactly when n is at most
      16384; longer chains wake up again at handler 16384. */
  lemma AbortIsFinalIff(n: nat)
    ensures (forall hs: seq<Program> :: |hs| == n ==> StopsAtAbort(hs)) <==> n <= 16_384
  {
    if n <= ABORT_INDEX + 1 {
      forall hs: seq<Program> | |hs| == n ensures StopsAtAbort(hs) {
        forall k: nat ensures !Steps(hs, k).startedAfterAbort {
          AbortIsFinal(hs, k);
        }
      }
    } else {
      var hs := seq(n, _ => CallAbort(Done));
      WakesUp(hs);
      assert !StopsAtAbort(hs);
    }
  }

  // ----- when IsAborted reports an Abort that nobody called -----

  function Nexts(p: Program): nat {
    match p
    case Done => 0
    case Work(_, rest) => Nexts(rest)
    case CallNext(rest) => 1 + Nexts(rest)
    case CallAbort(rest) => Nexts(rest)
  }

  /** The calls of Next in handlers i, i + 1, ... */
  function NextsFrom(hs: seq<Program>, i: nat): nat
    decreases if i < |hs| then |hs| - i else 0
  {
    if i < |hs| then Nexts(hs[i]) + NextsFrom(hs, i + 1) else 0
  }

  /** The calls of Next and the returns that the stack still owes. */
  function Owed(s: Stack): nat {
    match s
    case Empty => 0
    case Loop(below) => Owed(below)
    case Running(_, p, below) => 1 + Nexts(p) + Owed(below)
  }

  /** The index that the machine ends with: each handler and each call of Next counts it up once. */
  function Final(hs: seq<Program>, m: Machine): nat {
    var i := Ahead(m);
    m.index + Owed(m.stack) + (if i < |hs| then |hs| - i else 0) + NextsFrom(hs, i)
  }

  lemma StepKeepsFinal(hs: seq<Program>, m: Machine)
    requires NeverAborts(hs) && Inv(hs, m)
    ensures Final(hs, Step(hs, m)) == Final(hs, m)
  {
    if m.stack.Loop? {
      assert NextsFrom(hs, m.index) ==
             (if m.index < |hs| then Nexts(hs[m.index]) else 0) + NextsFrom(hs, m.index + 1);
    } else if m.stack.Running? {
      assert !m.stack.p.CallAbort?;
      assert Ahead(Step(hs, m)) == Ahead(m);
      assert Step(hs, m).index + Owed(Step(hs, m).stack) == m.index + Owed(m.stack);
    }
  }

  lemma {:induction false} RunKeepsFinal(hs: seq<Program>, n: nat)
    requires NeverAborts(hs)
    ensures Inv(hs, Steps(hs, n)) && Final(hs, Steps(hs, n)) == |hs| + NextsFrom(hs, 0)
  {
    RunKeepsInv(hs, n);
    if n != 0 {
      RunKeepsFinal(hs, n - 1);
      StepKeepsFinal(hs, Steps(hs, n - 1));
    }
  }

  /** Without any Abort the index stays below the abort index throughout exactly when handlers
      and calls of Next are together fewer than that. */
  lemma FalseReportIff(hs: seq<Program>)
    requires NeverAborts(hs)
    ensures (forall k: nat :: Steps(hs, k).index < ABORT_INDEX) <==> |hs| + NextsFrom(hs, 0) < 16_383
  {
    forall k: nat ensures Steps(hs, k).index <= |hs| + NextsFrom(hs, 0) {
      RunKeepsFinal(hs, k);
    }
    var n := Ends(hs, 0);
    RunKeepsFinal(hs, n);
    assert Steps(hs, n).index == |hs| + NextsFrom(hs, 0);
  }

  function CallsOfNext(n: nat): (p: Program)
    ensures !HasAbort(p) && Nexts(p) == n
  {
    if n == 0 then Done else CallNext(CallsOfNext(n - 1))
  }

  /** A single handler that calls Next often enough is reported as aborted. */
  lemma FalseReport() returns (hs: seq<Program>, k: nat)
    ensures |hs| == 1 && NeverAborts(hs) && ABORT_INDEX <= Steps(hs, k).index && !Steps(hs, k).aborted
  {
    hs := [CallsOfNext(ABORT_INDEX)];
    assert NextsFrom(hs, 0) == ABORT_INDEX + NextsFrom(hs, 1);
    FalseReportIff(hs);
    k :| ABORT_INDEX <= Steps(hs, k).index;
    RunKeepsInv(hs, k);
  }
}
