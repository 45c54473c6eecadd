/** Exactly which requests the trie router answers as promised, whatever is registered. */
module TriePromise {
  import opened Options
  import opened Paths
  import opened TrieTable
  import opened TrieRoutes
  import opened TriePatterns

  /** The answer to the request is that of the best pattern, or nothing if none covers it. */
  ghost predicate Kept(routes: seq<Route>, verb: string, segs: seq<string>) {
    var r := Search(TableOf(routes), segs, 0, verb, map[], []);
    if r.Some? then exists best :: AnswersWith(routes, verb, segs, best, r.value)
    else forall other :: !Candidate(routes, verb, segs, other)
  }

  ghost predicate AnswersWith(routes: seq<Route>, verb: string, segs: seq<string>, best: seq<string>, found: Found) {
    && IsBest(routes, verb, segs, best) && |best| <= |segs|
    && found == Found(ChainAt(routes, best, verb).value, Bind(FirstNames(routes, best), best, segs, |best|))
  }

  /** The special segment as a pattern segment with the name "id", and parameters elsewhere. */
  function TrapSegments(segs: seq<string>, at: nat): (s: seq<string>)
    ensures |s| == |segs|
  {
    seq(|segs|, j requires 0 <= j < |segs| => if j == at then segs[j] + "id" else ":x")
  }

  /** The route of such a pattern, for instance of "/:x/:id/:x". */
  function Trap(verb: string, segs: seq<string>, at: nat, handler: Handler): Route {
    RouteOf(verb, Canonical(TrapSegments(segs, at)), [handler])
  }

  lemma TrapIs(verb: string, segs: seq<string>, at: nat, handler: Handler)
    requires segs != [] && (at < |segs| ==> segs[at] == PARAM || segs[at] == WILD)
    ensures var r := Trap(verb, segs, at, handler);
            && |r.keys| == |segs| && r.verb == verb && r.chain == [handler]
            && (forall j :: 0 <= j < |segs| ==> r.keys[j] == if j == at then segs[j] else PARAM)
            && (forall j :: 0 <= j < |segs| ==> r.names[j] == if j == at then "id" else "x")
  {
    var s := TrapSegments(segs, at);
    forall j | 0 <= j < |s| ensures Plain(s[j]) && KeyOf(s[j]) == (if j == at then segs[j] else PARAM) &&
                                    NameOf(s[j]) == (if j == at then "id" else "x") {
      assert j == at ==> |segs[j]| == 1 && (segs[j] + "id")[1..] == "id";
      assert ":x"[1..] == "x";
    }
    SegmentsOfCanonical(s);
    KeepsAll(s, |s|);
    assert s[..|s|] == s;
  }

  lemma OneRoute(r: Route, q: seq<string>, verb: string)
    ensures var t := TableOf([r]);
            && (q in t <==> StartsWith(r.keys, q))
            && (q in t && q != [] ==> t[q].paramName == r.names[|q| - 1])
            && (r.keys == q && r.verb == verb ==> verb in t[q].handlers && t[q].handlers[verb] == r.chain)
    ensures ChainAt([r], q, verb).Some? ==> q == r.keys
    ensures NameAt([r], q) == if q != [] && StartsWith(r.keys, q) then Some(r.names[|q| - 1]) else None
  {
    hide TableOf, Insert, Grow;
    TableHoldsRoutes([r], q);
    assert [] + [r] == [r];
    ChainAtStep([], r, q, verb);
    NameAtStep([], r, q);
    assert StartsWith(r.keys, []);
  }

  /** The special segment is met as a literal, so nothing is bound under its name. */
  lemma {:induction false} TrapIsFound(verb: string, segs: seq<string>, at: nat, handler: Handler, j: nat,
                                       params: Params)
    requires at < |segs| && j <= |segs| && "id" !in params && (segs[at] == PARAM || segs[at] == WILD)
    ensures var r := Trap(verb, segs, at, handler);
            && |r.keys| == |segs| && r.keys[..j] in TableOf([r])
            && var found := Search(TableOf([r]), segs, j, verb, params, r.keys[..j]);
            found.Some? && "id" !in found.value.params
    decreases |segs| - j
  {
    hide TableOf, Trap, StartsWith;
    var r := Trap(verb, segs, at, handler);
    TrapIs(verb, segs, at, handler);
    NodesOfOne(r, segs, verb, j);
    if j < |segs| {
      hide Search;
      var bound := if r.keys[j] == segs[j] then params else params["x" := segs[j]];
      TrapIsFound(verb, segs, at, handler, j + 1, bound);
      FirstChildAnswers(TableOf([r]), segs, verb, params, r.keys[..j]);
    }
  }

  /** The trie of one route, at one of its nodes. */
  lemma NodesOfOne(r: Route, segs: seq<string>, verb: string, j: nat)
    requires j <= |r.keys| == |segs| && r.verb == verb
    ensures var t, p := TableOf([r]), r.keys[..j];
            && p in t
            && (j == |segs| ==> verb in t[p].handlers)
            && (j < |segs| ==>
                  && r.keys[..j + 1] == p + [r.keys[j]] && p + [r.keys[j]] in t
                  && t[p + [r.keys[j]]].paramName == r.names[j]
                  && (r.keys[j] != segs[j] ==> p + [segs[j]] !in t))
  {
    hide TableOf;
    var p := r.keys[..j];
    OneRoute(r, p, verb);
    if j == |segs| {
      assert p == r.keys;
    } else {
      assert r.keys[..j + 1] == p + [r.keys[j]];
      OneRoute(r, r.keys[..j + 1], verb);
      OneRoute(r, p + [segs[j]], verb);
      assert (p + [segs[j]])[j] == segs[j];
    }
  }

  /** An answer below the literal child is final, and so is one below the parameter if there
      is no literal child. */
  lemma FirstChildAnswers(t: Table, segs: seq<string>, verb: string, params: Params, p: seq<string>)
    requires p in t && |p| < |segs|
    ensures var lit, par := p + [segs[|p|]], p + [PARAM];
            && (lit in t && Search(t, segs, |p| + 1, verb, params, lit).Some? ==>
                  Search(t, segs, |p|, verb, params, p) == Search(t, segs, |p| + 1, verb, params, lit))
            && (lit !in t && par in t ==>
                  var found := Search(t, segs, |p| + 1, verb, params[t[par].paramName := segs[|p|]], par);
                  found.Some? ==> Search(t, segs, |p|, verb, params, p) == found)
  {
  }

  /** The pattern of the trap binds "id", if it covers the request at all. */
  lemma {:induction false} TrapBinds(verb: string, segs: seq<string>, at: nat, handler: Handler, names: seq<string>,
                                     n: nat)
    requires at < n <= |segs| && (segs[at] == PARAM || segs[at] == WILD)
    requires names == Trap(verb, segs, at, handler).names
    ensures |names| == |Trap(verb, segs, at, handler).keys| == |segs|
    ensures "id" in Bind(names, Trap(verb, segs, at, handler).keys, segs, n)
  {
    hide Trap;
    TrapIs(verb, segs, at, handler);
    if n > at + 1 {
      TrapBinds(verb, segs, at, handler, names, n - 1);
    }
  }

  lemma TrapBreaks(verb: string, segs: seq<string>, at: nat, handler: Handler)
    requires at < |segs| && (segs[at] == PARAM || segs[at] == WILD)
    ensures !Kept([Trap(verb, segs, at, handler)], verb, segs)
  {
    hide TableOf, Trap, Search, Bind;
    var r := Trap(verb, segs, at, handler);
    TrapIs(verb, segs, at, handler);
    var routes: seq<Route> := [r];
    TrapIsFound(verb, segs, at, handler, 0, map[]);
    assert r.keys[..0] == [];
    var found := Search(TableOf(routes), segs, 0, verb, map[], []);
    forall best ensures !AnswersWith(routes, verb, segs, best, found.value) {
      if AnswersWith(routes, verb, segs, best, found.value) {
        OneRoute(r, best, verb);
        OwnNames(r, verb);
        TrapBinds(verb, segs, at, handler, r.names, |segs|);
        assert false;
      }
    }
  }

  lemma OwnNames(r: Route, verb: string)
    ensures FirstNames([r], r.keys) == r.names
  {
    hide TableOf;
    forall j | 0 <= j < |r.keys| ensures FirstNames([r], r.keys)[j] == r.names[j] {
      OneRoute(r, r.keys[..j + 1], verb);
    }
  }

  /** Whatever is registered, a request is answered as promised, exactly if none of its
      segments is a bare ":" or "*". */
  lemma KeptIffOrdinary(verb: string, segs: seq<string>)
    ensures (forall routes :: Kept(routes, verb, segs)) <==> OrdinaryRequest(segs)
  {
    if OrdinaryRequest(segs) {
      forall routes ensures Kept(routes, verb, segs) {
        var best := SearchIsBestPattern(routes, verb, segs);
        if Search(TableOf(routes), segs, 0, verb, map[], []).Some? {
          assert AnswersWith(routes, verb, segs, best, Search(TableOf(routes), segs, 0, verb, map[], []).value);
        }
      }
    } else {
      var at :| 0 <= at < |segs| && (segs[at] == PARAM || segs[at] == WILD);
      TrapBreaks(verb, segs, at, 0);
    }
  }
}
