/** Exactly which requests the production router answers as the trie router does, whatever
    well-formed patterns are registered. */
module RadixAgreement {
  import opened Options
  import opened Paths
  import opened TrieTable
  import opened TrieRoutes
  import opened TriePatterns
  import opened TriePromise
  import opened TrieWrapper
  import opened RadixRoutes

  function TrapReg(verb: string, segs: seq<string>, at: nat, handler: Handler): Registration {
    Registration(verb, Canonical(TrapSegments(segs, at)), [handler])
  }

  lemma TrapIsWellFormed(verb: string, segs: seq<string>, at: nat, handler: Handler)
    requires segs != [] && (at < |segs| ==> segs[at] == PARAM || segs[at] == WILD)
    requires at < |segs| && segs[at] == WILD ==> at == |segs| - 1
    ensures var reg := TrapReg(verb, segs, at, handler);
            WellFormed(reg) && !IsStatic(reg.pattern) && RouteFrom(reg) == Trap(verb, segs, at, handler)
  {
    var s, reg := TrapSegments(segs, at), TrapReg(verb, segs, at, handler);
    forall j | 0 <= j < |s| ensures Plain(s[j]) && Special(s[j]) && (HasPrefix(s[j], '*') ==> j == |s| - 1) {
      assert if j == at then s[j] == segs[j] + "id" && s[j][0] == segs[j][0] else s[j] == ":x" && s[j][0] == ':';
    }
    SegmentsOfCanonical(s);
    StaticSegments(reg.pattern);
    assert Special(s[0]);
  }

  // ----- a bare ":" -----

  /** The greedy tree binds the parameter. */
  lemma {:induction false} GreedyBinds(t: Table, r: Route, segs: seq<string>, at: nat, j: nat, params: Params)
    requires |r.keys| == |segs| && (forall i :: 0 <= i < |segs| ==> r.keys[i] == PARAM) && Mirrors(t, [r])
    requires at < |segs| && r.names[at] == "id" && j <= |segs| && (at < j ==> "id" in params)
    ensures r.keys[..j] in t
    ensures var found := RadixSearch(t, segs, r.verb, params, r.keys[..j]); found.Some? && "id" in found.value.params
    decreases |segs| - j
  {
    hide TableOf;
    var p, u := r.keys[..j], TableOf([r]);
    assert StartsWith(r.keys, p);
    OneRoute(r, p, r.verb);
    assert SameShape(t, u, p);
    if j == |segs| {
      assert p == r.keys;
    } else {
      var next, literal := r.keys[..j + 1], p + [segs[j]];
      assert next == p + [PARAM] && StartsWith(r.keys, next);
      OneRoute(r, next, r.verb);
      OneRoute(r, literal, r.verb);
      assert SameShape(t, u, next) && SameShape(t, u, literal);
      assert literal[j] == segs[j];
      hide Mirrors, SameShape, RadixSearch, StartsWith;
      var bound := params[t[next].paramName := segs[j]];
      GreedyBinds(t, r, segs, at, j + 1, bound);
      ParamAnswers(t, segs, r.verb, params, p);
    }
  }

  /** What is found below the parameter is the answer, unless a literal child is entered. */
  lemma ParamAnswers(t: Table, segs: seq<string>, verb: string, params: Params, p: seq<string>)
    requires p in t && |p| < |segs| && p + [PARAM] in t
    requires segs[|p|] == PARAM || segs[|p|] == WILD || p + [segs[|p|]] !in t
    ensures var found := RadixSearch(t, segs, verb, params[t[p + [PARAM]].paramName := segs[|p|]], p + [PARAM]);
            found.Some? ==> RadixSearch(t, segs, verb, params, p) == found
  {
  }

  /** Two different answers, and no static route. */
  lemma TwoAnswers(regs: seq<Registration>, verb: string, path: string)
    requires StaticRoutes(regs) == map[] && TreeAnswer(regs, verb, Segments(path)).Some?
    requires TreeAnswer(regs, verb, Segments(path)) !=
             Search(TableOf(DynamicRoutes(regs)), Segments(path), 0, verb, map[], [])
    ensures !Agrees(regs, verb, path)
  {
  }

  lemma ColonDisagrees(verb: string, path: string, at: nat)
    requires at < |Segments(path)| && Segments(path)[at] == PARAM
    ensures var regs := [TrapReg(verb, Segments(path), at, 0)];
            AllWellFormed(regs) && !Agrees(regs, verb, path)
  {
    var segs, reg := Segments(path), TrapReg(verb, Segments(path), at, 0);
    var r := Trap(verb, segs, at, 0);
    TrapIsWellFormed(verb, segs, at, 0);
    TrapIs(verb, segs, at, 0);
    OneDynamic(reg);
    hide Trap, TrapReg, WellFormed, RouteFrom, IsStatic, TableOf, RadixTable;
    hide DynamicRoutes, StaticRoutes, Search, RadixSearch, Segments;
    MirrorsRoutes([reg]);
    GreedyBinds(RadixTable([reg]), r, segs, at, 0, map[]);
    TrapIsFound(verb, segs, at, 0, 0, map[]);
    assert r.keys[..0] == [];
    TwoAnswers([reg], verb, path);
  }

  lemma OneDynamic(reg: Registration)
    requires !IsStatic(reg.pattern)
    ensures DynamicRoutes([reg]) == [RouteFrom(reg)] && StaticRoutes([reg]) == map[]
  {
    hide RouteFrom, IsStatic;
    RegsGrow([], reg);
    assert [] + [reg] == [reg];
  }

  // ----- a final bare "*" -----

  /** Both patterns of the trap: parameters only, and parameters before a final wildcard. */
  ghost predicate Pair(a: Route, b: Route, verb: string, n: nat) {
    && 0 < n == |a.keys| == |b.keys| && a.verb == b.verb == verb && a.chain != b.chain
    && (forall j :: 0 <= j < n ==> a.keys[j] == PARAM)
    && (forall j :: 0 <= j < n ==> b.keys[j] == if j == n - 1 then WILD else PARAM)
  }

  lemma TwoRoutes(a: Route, b: Route, q: seq<string>, verb: string)
    requires a.keys != b.keys && a.verb == b.verb == verb
    ensures var t := TableOf([a] + [b]);
            && (q in t <==> StartsWith(a.keys, q) || StartsWith(b.keys, q))
            && (q == a.keys ==> verb in t[q].handlers && t[q].handlers[verb] == a.chain)
            && (q == b.keys ==> verb in t[q].handlers && t[q].handlers[verb] == b.chain)
  {
    TableHoldsRoutes([a] + [b], q);
    assert [] + [a] == [a];
    ChainAtStep([a], b, q, verb);
    ChainAtStep([], a, q, verb);
    NameAtStep([a], b, q);
    NameAtStep([], a, q);
    assert StartsWith(a.keys, []);
  }

  lemma {:induction false} TrieTakesWild(a: Route, b: Route, verb: string, segs: seq<string>, j: nat, params: Params)
    requires Pair(a, b, verb, |segs|) && EndsWild(segs) && (forall i :: 0 <= i < |segs| ==> segs[i] != PARAM)
    requires j < |segs|
    ensures var u := TableOf([a] + [b]);
            && a.keys[..j] in u
            && var found := Search(u, segs, j, verb, params, a.keys[..j]);
            found.Some? && found.value.chain == b.chain
    decreases |segs| - j
  {
    hide TableOf;
    var n, p := |segs|, a.keys[..j];
    assert a.keys[n - 1] != b.keys[n - 1] && StartsWith(a.keys, p);
    TwoRoutes(a, b, p, verb);
    var literal := p + [segs[j]];
    TwoRoutes(a, b, literal, verb);
    if j == n - 1 {
      assert literal == b.keys;
    } else {
      var next := a.keys[..j + 1];
      assert next == p + [PARAM] && StartsWith(a.keys, next);
      TwoRoutes(a, b, next, verb);
      assert literal[j] == segs[j];
      TrieTakesWild(a, b, verb, segs, j + 1, params[TableOf([a] + [b])[next].paramName := segs[j]]);
    }
  }

  lemma {:induction false} TreeTakesParams(t: Table, a: Route, b: Route, verb: string, segs: seq<string>, j: nat,
                                           params: Params)
    requires Pair(a, b, verb, |segs|) && EndsWild(segs) && (forall i :: 0 <= i < |segs| ==> segs[i] != PARAM)
    requires j <= |segs| && Mirrors(t, [a] + [b])
    ensures a.keys[..j] in t
    ensures var found := RadixSearch(t, segs, verb, params, a.keys[..j]);
            found.Some? && found.value.chain == a.chain
    decreases |segs| - j
  {
    hide TableOf;
    var n, p, u := |segs|, a.keys[..j], TableOf([a] + [b]);
    assert a.keys[n - 1] != b.keys[n - 1] && StartsWith(a.keys, p);
    TwoRoutes(a, b, p, verb);
    assert SameShape(t, u, p);
    if j == n {
      assert p == a.keys;
    } else {
      var next, literal := a.keys[..j + 1], p + [segs[j]];
      assert next == p + [PARAM] && StartsWith(a.keys, next);
      TwoRoutes(a, b, next, verb);
      TwoRoutes(a, b, literal, verb);
      assert SameShape(t, u, next) && SameShape(t, u, literal);
      assert literal[j] == segs[j];
      TreeTakesParams(t, a, b, verb, segs, j + 1, params[t[next].paramName := segs[j]]);
    }
  }

  lemma TrapPair(verb: string, segs: seq<string>)
    requires EndsWild(segs)
    ensures var first, second := TrapReg(verb, segs, |segs|, 0), TrapReg(verb, segs, |segs| - 1, 1);
            && WellFormed(first) && WellFormed(second) && !IsStatic(first.pattern) && !IsStatic(second.pattern)
            && Pair(RouteFrom(first), RouteFrom(second), verb, |segs|)
  {
    hide Trap, RouteFrom, WellFormed, IsStatic, TrapReg;
    var n := |segs|;
    TrapIsWellFormed(verb, segs, n, 0);
    TrapIsWellFormed(verb, segs, n - 1, 1);
    TrapIs(verb, segs, n, 0);
    TrapIs(verb, segs, n - 1, 1);
    assert [0] != [1];
  }

  lemma StarDisagrees(verb: string, path: string)
    requires EndsWild(Segments(path)) && forall i :: 0 <= i < |Segments(path)| ==> Segments(path)[i] != PARAM
    ensures var n := |Segments(path)|;
            var regs := [TrapReg(verb, Segments(path), n, 0), TrapReg(verb, Segments(path), n - 1, 1)];
            AllWellFormed(regs) && !Agrees(regs, verb, path)
  {
    hide TrapReg, WellFormed, RouteFrom, IsStatic, TableOf, RadixTable;
    hide DynamicRoutes, StaticRoutes, Search, RadixSearch, Segments;
    var segs, n := Segments(path), |Segments(path)|;
    var first, second := TrapReg(verb, segs, n, 0), TrapReg(verb, segs, n - 1, 1);
    TrapPair(verb, segs);
    PairDisagrees(first, second, verb, path);
  }

  lemma PairDisagrees(first: Registration, second: Registration, verb: string, path: string)
    requires EndsWild(Segments(path)) && forall i :: 0 <= i < |Segments(path)| ==> Segments(path)[i] != PARAM
    requires WellFormed(first) && WellFormed(second) && !IsStatic(first.pattern) && !IsStatic(second.pattern)
    requires Pair(RouteFrom(first), RouteFrom(second), verb, |Segments(path)|)
    ensures AllWellFormed([first, second]) && !Agrees([first, second], verb, path)
  {
    hide WellFormed, RouteFrom, IsStatic, TableOf, RadixTable, DynamicRoutes;
    hide StaticRoutes, Search, RadixSearch, Segments, EndsWild;
    var segs, a, b := Segments(path), RouteFrom(first), RouteFrom(second);
    var regs := [first, second];
    assert a.chain != b.chain && [a, b] == [a] + [b];
    hide Pair;
    TwoDynamic(first, second);
    NoStatic(first, second);
    MirrorsRoutes(regs);
    TrieTakesWild(a, b, verb, segs, 0, map[]);
    TreeTakesParams(RadixTable(regs), a, b, verb, segs, 0, map[]);
    assert a.keys[..0] == [];
    TwoAnswers(regs, verb, path);
  }

  lemma NoStatic(first: Registration, second: Registration)
    requires !IsStatic(first.pattern) && !IsStatic(second.pattern)
    ensures StaticRoutes([first, second]) == map[]
  {
    hide IsStatic;
    RegsGrow([], first);
    RegsGrow([first], second);
    assert [] + [first] == [first] && [first] + [second] == [first, second];
  }

  /** Whatever well-formed patterns are registered, a request that the production router answers
      is answered by the trie router in the same way, exactly if none of its segments is a
      bare ":" and the last one is no bare "*". */
  lemma AgreesIff(verb: string, path: string)
    ensures (forall regs :: AllWellFormed(regs) ==> Agrees(regs, verb, path)) <==> Tame(Segments(path))
  {
    var segs := Segments(path);
    if Tame(segs) {
      forall regs | AllWellFormed(regs) ensures Agrees(regs, verb, path) {
        RadixAgreesWithTrie(regs, verb, path);
      }
    } else if at :| 0 <= at < |segs| && segs[at] == PARAM {
      ColonDisagrees(verb, path, at);
    } else {
      StarDisagrees(verb, path);
    }
  }
}
