/** What a search finds, in terms of the registered patterns. */
module TriePatterns {
  import opened Options
  import opened Paths
  import opened TrieTable
  import opened TrieRoutes

  /** The child keys of parameters and wildcards can also be met literally, by a request
      segment that is a bare ":" or "*". */
  ghost predicate OrdinaryRequest(segs: seq<string>) {
    forall i :: 0 <= i < |segs| ==> segs[i] != PARAM && segs[i] != WILD
  }

  /** The pattern p covers the request: segment by segment, or up to a final wildcard that
      takes one or more remaining segments. */
  ghost predicate Matches(p: seq<string>, segs: seq<string>) {
    var n := if p != [] && p[|p| - 1] == WILD then |p| - 1 else |p|;
    && (if n < |p| then n < |segs| else n == |segs|)
    && forall i :: 0 <= i < n ==> p[i] != WILD && (p[i] == PARAM || p[i] == segs[i])
  }

  function Rank(key: string): nat {
    if key == WILD then 2 else if key == PARAM then 1 else 0
  }

  /** At the first key in which they differ, a is the more literal one. */
  ghost predicate Preferred(a: seq<string>, b: seq<string>) {
    a == b || exists d :: 0 <= d < |a| && d < |b| && a[..d] == b[..d] && Rank(a[d]) < Rank(b[d])
  }

  /** The parameters bound by the first n keys of p, later ones winning. */
  function Bind(names: seq<string>, p: seq<string>, segs: seq<string>, n: nat): Params
    requires |names| == |p| && n <= |p| && n <= |segs|
  {
    if n == 0 then map[]
    else
      var before := Bind(names, p, segs, n - 1);
      if p[n - 1] == PARAM then before[names[n - 1] := segs[n - 1]]
      else if p[n - 1] == WILD then before[names[n - 1] := Join(segs[n - 1..])]
      else before
  }

  ghost predicate NamedAlong(t: Table, names: seq<string>, p: seq<string>) {
    |names| == |p| && forall i :: 0 < i <= |p| ==> p[..i] in t && t[p[..i]].paramName == names[i - 1]
  }

  /** How a request is read by the pattern p from key i on. */
  function PlanOf(p: seq<string>, i: nat): Plan
    requires i <= |p|
    decreases |p| - i
  {
    if i == |p| then End
    else if p[i] == WILD then Wild
    else if p[i] == PARAM then Param(PlanOf(p, i + 1))
    else Literal(PlanOf(p, i + 1))
  }

  /** The pattern that a plan spells out. */
  function PatternOf(segs: seq<string>, i: nat, p: seq<string>, plan: Plan): seq<string>
    requires i <= |segs|
    decreases plan
  {
    match plan
    case End => p
    case Literal(rest) => if i < |segs| then PatternOf(segs, i + 1, p + [segs[i]], rest) else p
    case Param(rest) => if i < |segs| then PatternOf(segs, i + 1, p + [PARAM], rest) else p
    case Wild => p + [WILD]
  }

  ghost predicate Handles(t: Table, p: seq<string>, verb: string) {
    p in t && verb in t[p].handlers
  }

  ghost predicate PrefixClosed(t: Table) {
    forall p, i :: p in t && 0 <= i <= |p| ==> p[..i] in t
  }

  lemma {:induction false} PatternLeads(t: Table, segs: seq<string>, i: nat, verb: string, p: seq<string>)
    requires PrefixClosed(t) && i <= |p| && i <= |segs|
    requires Handles(t, p, verb) && Matches(p, segs)
    requires forall k :: 0 <= k < i ==> p[k] != WILD
    ensures Leads(t, segs, i, verb, p[..i], PlanOf(p, i))
    decreases |p| - i
  {
    assert p[..i] in t;
    if i == |p| {
      assert p[..i] == p;
    } else {
      assert p[..i + 1] == p[..i] + [p[i]];
      assert p[..i + 1] in t;
      if p[i] == WILD {
        assert i == |p| - 1;
        assert p[..i + 1] == p;
      } else {
        PatternLeads(t, segs, i + 1, verb, p);
      }
    }
  }

  /** A plan that leads somewhere spells out a pattern that covers the request, and is the
      plan of that pattern. */
  lemma {:induction false} LeadsToPattern(t: Table, segs: seq<string>, i: nat, verb: string,
                                          p: seq<string>, plan: Plan)
    requires OrdinaryRequest(segs) && i <= |segs| && i == |p|
    requires Leads(t, segs, i, verb, p, plan)
    requires forall k :: 0 <= k < i ==> p[k] != WILD && (p[k] == PARAM || p[k] == segs[k])
    ensures var q := PatternOf(segs, i, p, plan);
            && Handles(t, q, verb) && Matches(q, segs)
            && i <= |q| && q[..i] == p && PlanOf(q, i) == plan
    decreases plan
  {
    match plan
    case End =>
    case Literal(rest) =>
      hide Matches, Handles;
      LeadsToPattern(t, segs, i + 1, verb, p + [segs[i]], rest);
      PlanBefore(PatternOf(segs, i, p, plan), i, p, segs[i]);
    case Param(rest) =>
      hide Matches, Handles;
      LeadsToPattern(t, segs, i + 1, verb, p + [PARAM], rest);
      PlanBefore(PatternOf(segs, i, p, plan), i, p, PARAM);
    case Wild =>
  }

  lemma PlanBefore(q: seq<string>, i: nat, p: seq<string>, key: string)
    requires i == |p| < |q| && q[..i + 1] == p + [key] && key != WILD
    ensures q[..i] == p
    ensures PlanOf(q, i) == if key == PARAM then Param(PlanOf(q, i + 1)) else Literal(PlanOf(q, i + 1))
  {
    assert q[..i] == q[..i + 1][..i] && q[i] == q[..i + 1][i];
  }

  lemma {:induction false} PlanOrder(a: seq<string>, b: seq<string>, segs: seq<string>, i: nat)
    requires i <= |a| && i <= |b| && a[..i] == b[..i]
    requires Matches(a, segs) && Matches(b, segs)
    requires Precedes(PlanOf(a, i), PlanOf(b, i))
    ensures Preferred(a, b)
    decreases |a| - i
  {
    if i == |a| {
      assert i == |b|;
      assert a == a[..i] && b == b[..i];
    } else if i == |b| {
      assert false;
    } else if Rank(a[i]) == Rank(b[i]) {
      if a[i] == WILD {
        assert i == |a| - 1 && i == |b| - 1;
        assert a == a[..i] + [a[i]] && b == b[..i] + [b[i]];
      } else {
        assert a[..i + 1] == a[..i] + [a[i]] && b[..i + 1] == b[..i] + [b[i]];
        PlanOrder(a, b, segs, i + 1);
      }
    } else {
      assert Rank(a[i]) < Rank(b[i]);
    }
  }

  lemma {:induction false} ReadingBinds(t: Table, segs: seq<string>, i: nat, verb: string,
                                        p: seq<string>, names: seq<string>)
    requires i <= |p| <= |segs| && NamedAlong(t, names, p)
    requires Handles(t, p, verb) && Matches(p, segs)
    requires Leads(t, segs, i, verb, p[..i], PlanOf(p, i))
    ensures Reading(t, segs, i, verb, Bind(names, p, segs, i), p[..i], PlanOf(p, i)) ==
            Found(t[p].handlers[verb], Bind(names, p, segs, |p|))
    decreases |p| - i
  {
    hide Join;
    if i == |p| {
      assert p[..i] == p;
    } else {
      assert p[..i + 1] == p[..i] + [p[i]];
      assert t[p[..i + 1]].paramName == names[i];
      hide NamedAlong;
      if p[i] == WILD {
        assert i == |p| - 1 && p[..i + 1] == p;
      } else {
        hide Matches, Handles;
        ReadingBinds(t, segs, i + 1, verb, p, names);
      }
    }
  }

  // ----- the search over registered routes -----

  lemma {:induction false} NamesArePrefixClosed(routes: seq<Route>, p: seq<string>, i: nat)
    requires NameAt(routes, p).Some? && 0 < i <= |p|
    ensures NameAt(routes, p[..i]).Some?
  {
    var front, last := routes[..|routes| - 1], routes[|routes| - 1];
    if NameAt(front, p).Some? {
      NamesArePrefixClosed(front, p, i);
    } else {
      assert p == last.keys[..|p|];
      assert p[..i] == last.keys[..i];
    }
  }

  lemma TableIsPrefixClosed(routes: seq<Route>)
    ensures PrefixClosed(TableOf(routes))
  {
    forall p, i | p in TableOf(routes) && 0 <= i <= |p| ensures p[..i] in TableOf(routes) {
      TableHoldsRoutes(routes, p);
      TableHoldsRoutes(routes, p[..i]);
      if i > 0 {
        NamesArePrefixClosed(routes, p, i);
      }
    }
  }

  /** The names along p, each given by the first route through its node. */
  function FirstNames(routes: seq<Route>, p: seq<string>): (names: seq<string>)
    ensures |names| == |p|
  {
    seq(|p|, i requires 0 <= i < |p| =>
      var name := NameAt(routes, p[..i + 1]);
      if name.Some? then name.value else "")
  }

  ghost predicate Candidate(routes: seq<Route>, verb: string, segs: seq<string>, p: seq<string>) {
    ChainAt(routes, p, verb).Some? && Matches(p, segs)
  }

  lemma CandidatePlan(routes: seq<Route>, verb: string, segs: seq<string>, p: seq<string>)
    requires Candidate(routes, verb, segs, p)
    ensures |p| <= |segs|
    ensures var t, plan := TableOf(routes), PlanOf(p, 0);
            && Leads(t, segs, 0, verb, [], plan)
            && Reading(t, segs, 0, verb, map[], [], plan) ==
               Found(ChainAt(routes, p, verb).value, Bind(FirstNames(routes, p), p, segs, |p|))
  {
    hide TableOf, PrefixClosed, NamedAlong, Leads, Reading, FirstNames;
    var t, names := TableOf(routes), FirstNames(routes, p);
    TableHoldsRoutes(routes, p);
    TableIsPrefixClosed(routes);
    PatternLeads(t, segs, 0, verb, p);
    assert p[..0] == [];
    FirstNamesAlong(routes, p);
    ReadingBinds(t, segs, 0, verb, p, names);
  }

  lemma FirstNamesAlong(routes: seq<Route>, p: seq<string>)
    requires p in TableOf(routes)
    ensures NamedAlong(TableOf(routes), FirstNames(routes, p), p)
  {
    hide TableOf;
    TableIsPrefixClosed(routes);
    forall i | 0 < i <= |p|
      ensures p[..i] in TableOf(routes) && TableOf(routes)[p[..i]].paramName == FirstNames(routes, p)[i - 1]
    {
      TableHoldsRoutes(routes, p[..i]);
      assert p[..i] != [];
    }
  }

  lemma PlanCandidate(routes: seq<Route>, verb: string, segs: seq<string>, plan: Plan)
    requires OrdinaryRequest(segs) && Leads(TableOf(routes), segs, 0, verb, [], plan)
    ensures var p := PatternOf(segs, 0, [], plan);
            Candidate(routes, verb, segs, p) && PlanOf(p, 0) == plan
  {
    LeadsToPattern(TableOf(routes), segs, 0, verb, [], plan);
    TableHoldsRoutes(routes, PatternOf(segs, 0, [], plan));
  }

  ghost predicate IsBest(routes: seq<Route>, verb: string, segs: seq<string>, best: seq<string>) {
    && Candidate(routes, verb, segs, best)
    && forall other :: Candidate(routes, verb, segs, other) ==> Preferred(best, other)
  }

  /** The router's promise.  Among the registered patterns with this method that cover the
      request, the most literal one (decided at the first difference, static before parameter
      before wildcard) is taken: its last registered chain, with its parameters bound under
      the names of the first route through each node.  Nothing is found exactly when no
      registered pattern covers the request. */
  lemma {:induction false} SearchIsBestPattern(routes: seq<Route>, verb: string, segs: seq<string>)
    returns (best: seq<string>)
    requires OrdinaryRequest(segs)
    ensures var r := Search(TableOf(routes), segs, 0, verb, map[], []);
            if r.Some? then
              && IsBest(routes, verb, segs, best) && |best| <= |segs|
              && r.value.chain == ChainAt(routes, best, verb).value
              && r.value.params == Bind(FirstNames(routes, best), best, segs, |best|)
            else forall other :: !Candidate(routes, verb, segs, other)
  {
    var t := TableOf(routes);
    var plan := SearchTakesFirstPlan(t, segs, 0, verb, map[], []);
    if Search(t, segs, 0, verb, map[], []).Some? {
      best := PatternOf(segs, 0, [], plan);
      PlanCandidate(routes, verb, segs, plan);
      CandidatePlan(routes, verb, segs, best);
      forall other | Candidate(routes, verb, segs, other) ensures Preferred(best, other) {
        CandidatePlan(routes, verb, segs, other);
        PlanOrder(best, other, segs, 0);
      }
    } else {
      best := [];
      forall other ensures !Candidate(routes, verb, segs, other) {
        if Candidate(routes, verb, segs, other) {
          CandidatePlan(routes, verb, segs, other);
        }
      }
    }
  }

  /** A registered route is a candidate at its own keys, and only registered keys are. */
  lemma {:induction false} ChainAtRegistered(routes: seq<Route>, p: seq<string>, verb: string)
    ensures ChainAt(routes, p, verb).Some? <==>
            exists k :: 0 <= k < |routes| && routes[k].keys == p && routes[k].verb == verb
  {
    if routes != [] {
      var front := routes[..|routes| - 1];
      ChainAtRegistered(front, p, verb);
      if ChainAt(front, p, verb).Some? {
        var k :| 0 <= k < |front| && front[k].keys == p && front[k].verb == verb;
        assert routes[k] == front[k];
      }
      assert forall k :: 0 <= k < |front| ==> front[k] == routes[k];
    }
  }

  lemma SamePrefix(a: seq<string>, b: seq<string>, n: nat, i: nat)
    requires i < n <= |a| && n <= |b| && a[..n] == b[..n]
    ensures a[i] == b[i]
  {
    assert a[..n][i] == b[..n][i];
  }

  lemma {:induction false} PreferredIsAntisymmetric(a: seq<string>, b: seq<string>)
    requires Preferred(a, b) && Preferred(b, a)
    ensures a == b
  {
    if a != b {
      var d :| 0 <= d < |a| && d < |b| && a[..d] == b[..d] && Rank(a[d]) < Rank(b[d]);
      var e :| 0 <= e < |b| && e < |a| && b[..e] == a[..e] && Rank(b[e]) < Rank(a[e]);
      if d < e {
        SamePrefix(a, b, e, d);
      } else if e < d {
        SamePrefix(a, b, d, e);
      }
    }
  }

  /** Why the request must be ordinary: a bare ":" meets the parameter node as if it were a
      literal, and the parameter stays unbound. */
  lemma BareColonIsNotBound(chain: Chain)
    ensures var routes := [Route("GET", [PARAM], ["id"], chain)];
            && Candidate(routes, "GET", [":"], [PARAM])
            && Bind(FirstNames(routes, [PARAM]), [PARAM], [":"], 1) == map["id" := ":"]
            && Search(TableOf(routes), [":"], 0, "GET", map[], []) == Some(Found(chain, map[]))
  {
    hide TableOf;
    var r: Route := Route("GET", [PARAM], ["id"], chain);
    var routes := [r];
    assert routes == [] + [r];
    TableHoldsRoutes(routes, [PARAM]);
    NameAtStep([], r, [PARAM]);
    ChainAtStep([], r, [PARAM], "GET");
    assert FirstNames(routes, [PARAM]) == ["id"] by {
      assert [PARAM][..1] == [PARAM] && StartsWith(r.keys, [PARAM]);
    }
    assert [] + [":"] == [PARAM];
  }
}
