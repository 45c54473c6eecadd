/** The middleware chain: Next and Abort share one index, and handlers re-enter Next. */
module Middleware {

  const ABORT_INDEX: int := 32767 / 2

  /** What one execution of a handler does.  A handler starts at most once per request, so a
      straight program per handler covers every terminating behaviour, branching included. */
  datatype Program =
    | Done
    | Work(what: nat, rest: Program)
    | CallNext(rest: Program)
    | CallAbort(rest: Program)

  datatype Event = Started(i: nat) | Did(i: nat, what: nat) | Aborted(i: nat)

  // ----- the meaning of a chain, without any shared index -----

  /** `open` says that the handler has neither passed control on nor aborted. */
  datatype Trace = Trace(log: seq<Event>, open: bool)

  /** The rest of handler i's program.  Control is passed on at most once: by the first Next,
      if no Abort came before it. */
  function Body(hs: seq<Program>, i: nat, p: Program, open: bool): (t: Trace)
    requires i < |hs|
    ensures !open ==> !t.open
    decreases |hs| - i, 0, p
  {
    match p
    case Done => Trace([], open)
    case Work(what, rest) =>
      var t := Body(hs, i, rest, open);
      Trace([Did(i, what)] + t.log, t.open)
    case CallNext(rest) =>
      var t := Body(hs, i, rest, false);
      Trace((if open then Chain(hs, i + 1) else []) + t.log, t.open)
    case CallAbort(rest) =>
      var t := Body(hs, i, rest, false);
      Trace([Aborted(i)] + t.log, t.open)
  }

  /** Handlers i, i + 1, ...: what comes after a handler's first Next runs after everything
      behind it; a handler that returns without a word is simply followed by the next one. */
  function Chain(hs: seq<Program>, i: nat): seq<Event>
    decreases if i < |hs| then |hs| - i else 0, 1
  {
    if i < |hs| then
      var t := Body(hs, i, hs[i], true);
      [Started(i)] + t.log + (if t.open then Chain(hs, i + 1) else [])
    else []
  }

  // ----- which handlers start -----

  /** The program aborts before it passes control on. */
  predicate AbortsFirst(p: Program) {
    match p
    case Done => false
    case Work(_, rest) => AbortsFirst(rest)
    case CallNext(_) => false
    case CallAbort(_) => true
  }

  /** One past the first handler from i on that aborts before passing on. */
  function Stop(hs: seq<Program>, i: nat): (k: nat)
    decreases |hs| - i
    ensures i <= |hs| ==> i <= k <= |hs|
  {
    if i >= |hs| then i else if AbortsFirst(hs[i]) then i + 1 else Stop(hs, i + 1)
  }

  function StartsTo(log: seq<Event>, n: nat): seq<int>
    requires n <= |log|
  {
    if n == 0 then [] else StartsTo(log, n - 1) + (if log[n - 1].Started? then [log[n - 1].i] else [])
  }

  /** The handlers started in a log, in order. */
  function Starts(log: seq<Event>): seq<int> {
    StartsTo(log, |log|)
  }

  function Range(from: int, to: int): seq<int>
    requires from <= to
  {
    seq(to - from, k requires 0 <= k => from + k)
  }

  lemma {:induction false} StartsPrefix(a: seq<Event>, b: seq<Event>, n: nat)
    requires n <= |a|
    ensures StartsTo(a + b, n) == StartsTo(a, n)
  {
    if n != 0 {
      StartsPrefix(a, b, n - 1);
    }
  }

  lemma {:induction false} StartsSuffix(a: seq<Event>, b: seq<Event>, n: nat)
    requires n <= |b|
    ensures StartsTo(a + b, |a| + n) == Starts(a) + StartsTo(b, n)
  {
    if n == 0 {
      StartsPrefix(a, b, |a|);
    } else {
      StartsSuffix(a, b, n - 1);
    }
  }

  lemma StartsConcat(a: seq<Event>, b: seq<Event>)
    ensures Starts(a + b) == Starts(a) + Starts(b)
  {
    StartsSuffix(a, b, |b|);
  }

  lemma {:induction false} ClosedStarts(hs: seq<Program>, i: nat, p: Program)
    requires i < |hs|
    ensures Starts(Body(hs, i, p, false).log) == []
  {
    if !p.Done? {
      ClosedStarts(hs, i, p.rest);
      SilentHead(Body(hs, i, p.rest, false).log, i, if p.Work? then p.what else 0);
    }
  }

  lemma SilentHead(log: seq<Event>, i: nat, what: nat)
    ensures Starts([Did(i, what)] + log) == Starts(log)
    ensures Starts([Aborted(i)] + log) == Starts(log)
    ensures [] + log == log
  {
    StartsConcat([Did(i, what)], log);
    StartsConcat([Aborted(i)], log);
    assert StartsTo([Did(i, what)], 1) == [] && StartsTo([Aborted(i)], 1) == [];
  }

  /** An open handler either aborts first, or hands on to the rest of the chain, at its first
      Next or by returning. */
  lemma {:induction false} OpenStarts(hs: seq<Program>, i: nat, p: Program)
    requires i < |hs|
    ensures var t := Body(hs, i, p, true);
            && (AbortsFirst(p) ==> !t.open && Starts(t.log) == [])
            && (!AbortsFirst(p) && t.open ==> Starts(t.log) == [])
            && (!AbortsFirst(p) && !t.open ==> Starts(t.log) == Starts(Chain(hs, i + 1)))
    decreases p
  {
    match p
    case Done =>
    case Work(what, rest) =>
      OpenStarts(hs, i, rest);
      SilentHead(Body(hs, i, rest, true).log, i, what);
    case CallNext(rest) =>
      ClosedStarts(hs, i, rest);
      StartsConcat(Chain(hs, i + 1), Body(hs, i, rest, false).log);
    case CallAbort(rest) =>
      ClosedStarts(hs, i, rest);
      SilentHead(Body(hs, i, rest, false).log, i, 0);
  }

  /** The handlers that start are i, i + 1, ... in this order, each once, up to and including
      the first one that aborts before passing on, and no other. */
  lemma {:induction false} ChainStarts(hs: seq<Program>, i: nat)
    requires i <= |hs|
    ensures Starts(Chain(hs, i)) == Range(i, Stop(hs, i))
    decreases |hs| - i
  {
    if i < |hs| {
      hide Body, Chain, Starts, AbortsFirst;
      if AbortsFirst(hs[i]) {
        AbortingHead(hs, i);
        assert Range(i, i + 1) == [i];
      } else {
        PassingHead(hs, i);
        ChainStarts(hs, i + 1);
        hide Range;
        RangeCons(i, Stop(hs, i + 1));
      }
    }
  }

  lemma AbortingHead(hs: seq<Program>, i: nat)
    requires i < |hs| && AbortsFirst(hs[i])
    ensures Starts(Chain(hs, i)) == [i]
  {
    hide *;
    OpenStarts(hs, i, hs[i]);
    ChainHead(hs, i);
  }

  lemma PassingHead(hs: seq<Program>, i: nat)
    requires i < |hs| && !AbortsFirst(hs[i])
    ensures Starts(Chain(hs, i)) == [i] + Starts(Chain(hs, i + 1))
  {
    hide *;
    OpenStarts(hs, i, hs[i]);
    ChainHead(hs, i);
    var rest := Starts(Chain(hs, i + 1));
    assert [] + rest == rest && rest + [] == rest;
  }

  lemma RangeCons(i: int, k: int)
    requires i < k
    ensures Range(i, k) == [i] + Range(i + 1, k)
  {
  }

  lemma ChainHead(hs: seq<Program>, i: nat)
    requires i < |hs|
    ensures var t := Body(hs, i, hs[i], true);
            Starts(Chain(hs, i)) ==
            [i] + (Starts(t.log) + (if t.open then Starts(Chain(hs, i + 1)) else []))
  {
    var t := Body(hs, i, hs[i], true);
    HeadStarts(i, t.log, if t.open then Chain(hs, i + 1) else []);
  }

  lemma HeadStarts(i: nat, body: seq<Event>, tail: seq<Event>)
    ensures Starts([Started(i)] + body + tail) == [i] + (Starts(body) + Starts(tail))
  {
    StartsConcat([Started(i)] + body, tail);
    StartsConcat([Started(i)], body);
    assert StartsTo([Started(i)], 1) == [i];
  }

  predicate HasAbort(p: Program) {
    match p
    case Done => false
    case Work(_, rest) => HasAbort(rest)
    case CallNext(rest) => HasAbort(rest)
    case CallAbort(_) => true
  }

  predicate NeverAborts(hs: seq<Program>) {
    forall k :: 0 <= k < |hs| ==> !HasAbort(hs[k])
  }

  lemma {:induction false} NoAbortNoStop(hs: seq<Program>, i: nat)
    requires i <= |hs| && NeverAborts(hs)
    ensures Stop(hs, i) == |hs|
    decreases |hs| - i
  {
    if i < |hs| {
      NoAbortNoFirst(hs[i]);
      NoAbortNoStop(hs, i + 1);
    }
  }

  lemma {:induction false} NoAbortNoFirst(p: Program)
    requires !HasAbort(p)
    ensures !AbortsFirst(p)
  {
    if p.Work? {
      NoAbortNoFirst(p.rest);
    }
  }

  /** Without Abort every handler runs exactly once, however often Next is called. */
  lemma AllRunOnce(hs: seq<Program>)
    requires NeverAborts(hs)
    ensures Starts(Chain(hs, 0)) == Range(0, |hs|)
  {
    NoAbortNoStop(hs, 0);
    ChainStarts(hs, 0);
  }

  lemma Join(a: seq<Event>, b: seq<Event>, c: seq<Event>)
    ensures a + b + c == a + (b + c) && a + [] == a
  {
  }

  lemma Regroup(a: seq<Event>, b: seq<Event>, c: seq<Event>, d: seq<Event>)
    ensures a + (b + c + d) == a + b + c + d
  {
  }

  lemma ChainStep(hs: seq<Program>, i: nat, log: seq<Event>)
    requires i < |hs|
    ensures var t := Body(hs, i, hs[i], true);
            log + Chain(hs, i) == log + [Started(i)] + t.log + (if t.open then Chain(hs, i + 1) else [])
  {
    var t := Body(hs, i, hs[i], true);
    Regroup(log, [Started(i)], t.log, if t.open then Chain(hs, i + 1) else []);
  }

  lemma ChainEnd(hs: seq<Program>, i: nat)
    requires |hs| <= i
    ensures Chain(hs, i) == []
  {
  }

  // ----- the context object -----

  /** With at most ABORT_INDEX + 1 handlers no index is used again after an Abort; without any
      Abort a chain may be of any length. */
  ghost predicate Manageable(hs: seq<Program>) {
    |hs| <= ABORT_INDEX + 1 || NeverAborts(hs)
  }

  class Context {
    const handlers: seq<Program>
    var index: int
    var log: seq<Event>
    ghost var aborted: bool
    ghost var nextCalls: nat
    ghost var finished: nat

    ghost predicate Valid()
      reads this
    {
      && Manageable(handlers)
      && -1 <= index
      && (if aborted then ABORT_INDEX <= index else index == nextCalls + finished - 1)
    }

    constructor (handlers: seq<Program>)
      requires Manageable(handlers)
      ensures Valid() && this.handlers == handlers && index == -1 && log == [] && !aborted
    {
      this.handlers, index, log := handlers, -1, [];
      aborted, nextCalls, finished := false, 0, 0;
    }

    ghost function Rank(i: int): nat {
      if 0 <= i < |handlers| then |handlers| - i else 0
    }

    /** Called at index i, this runs exactly the chain from i + 1 on, and leaves no index at
        which anything could start again. */
    method Next()
      requires Valid()
      modifies this
      ensures Valid() && |handlers| <= index
      ensures log == old(log) + Chain(handlers, old(index) + 1)
      ensures old(aborted) ==> aborted
      ensures old(index) < index
      decreases Rank(index + 1), 1
    {
      hide HasAbort, Body, Chain;
      index := index + 1;
      nextCalls := nextCalls + 1;
      while index < |handlers|
        invariant Valid() && old(index) < index
        invariant log + Chain(handlers, index) == old(log) + Chain(handlers, old(index) + 1)
        invariant old(aborted) ==> aborted
        decreases Rank(index)
      {
        var i, was := index, log;
        log := log + [Started(i)];
        RunHandler(i, handlers[i], true);
        index := index + 1;
        finished := finished + 1;
        ChainStep(handlers, i, was);
        if |handlers| <= index {
          ChainEnd(handlers, index);
        }
      }
      ChainEnd(handlers, index);
    }

    /** The call handlers[i](c). */
    method RunHandler(i: nat, p: Program, ghost open: bool)
      requires Valid() && i < |handlers| && i <= index && (|handlers| <= ABORT_INDEX + 1 || !HasAbort(p))
      requires if open then index == i else |handlers| <= index + 1
      modifies this
      ensures Valid() && i <= index
      ensures log == old(log) + Body(handlers, i, p, open).log
      ensures if Body(handlers, i, p, open).open then index == i else |handlers| <= index + 1
      ensures old(aborted) ==> aborted
      decreases Rank(i), 0, p
    {
      hide Chain;
      ghost var was := log;
      match p
      case Done =>
      case Work(what, rest) =>
        log := log + [Did(i, what)];
        RunHandler(i, rest, open);
        Join(was, [Did(i, what)], Body(handlers, i, rest, open).log);
      case CallNext(rest) =>
        if !open {
          ChainEnd(handlers, index + 1);
        }
        Next();
        RunHandler(i, rest, false);
        Join(was, if open then Chain(handlers, i + 1) else [], Body(handlers, i, rest, false).log);
      case CallAbort(rest) =>
        log := log + [Aborted(i)];
        Abort();
        RunHandler(i, rest, false);
        Join(was, [Aborted(i)], Body(handlers, i, rest, false).log);
    }

    method Abort()
      requires Valid()
      modifies this
      ensures Valid() && aborted && index == ABORT_INDEX && log == old(log)
    {
      index := ABORT_INDEX;
      aborted := true;
    }

    /** Abort is always seen.  It is also reported without any Abort once the index has been
        counted up that far; `ChainSteps.FalseReportIff` says for which chains that happens. */
    method IsAborted() returns (r: bool)
      requires Valid()
      ensures r <==> aborted || ABORT_INDEX < nextCalls + finished
    {
      r := index >= ABORT_INDEX;
    }
  }
}
