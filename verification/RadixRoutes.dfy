/** The greedy tree that serves requests, as a table, and when it answers as the trie does. */
module RadixRoutes {
  import opened Options
  import opened Paths
  import opened TrieTable
  import opened TrieRoutes
  import opened TriePatterns
  import opened TrieWrapper

  // ----- insert -----

  /** insert stops at the first wildcard segment: how many of the segments it uses from i on. */
  function Used(segments: seq<string>, i: nat): (n: nat)
    requires i <= |segments|
    ensures i <= n <= |segments|
    decreases |segments| - i
  {
    if i == |segments| then i else if HasPrefix(segments[i], '*') then i + 1 else Used(segments, i + 1)
  }

  /** The name of a parameter or wildcard, or the segment itself. */
  function PathOf(segment: string): string {
    if HasPrefix(segment, ':') || HasPrefix(segment, '*') then segment[1..] else segment
  }

  function RadixRoute(verb: string, segments: seq<string>, chain: Chain): Route {
    var s := segments[..Used(segments, 0)];
    Route(verb, Keys(s), seq(|s|, i requires 0 <= i < |s| => PathOf(s[i])), chain)
  }

  predicate EndsWild(p: seq<string>) {
    p != [] && p[|p| - 1] == WILD
  }

  /** A catch-all node is given the bare chain instead of a map from methods to chains, so its
      map stays as it is: empty. */
  function RadixInsert(t: Table, r: Route): (u: Table)
    requires [] in t
    ensures [] in u
  {
    GrowAt(t, r, []);
    GrowAt(t, r, r.keys);
    var grown := Grow(t, r, |r.keys|);
    if EndsWild(r.keys) then grown else SetHandler(grown, r.keys, r.verb, r.chain)
  }

  function RadixFrom(reg: Registration): Route {
    RadixRoute(reg.verb, Segments(reg.pattern), reg.chain)
  }

  /** Static patterns go to the cache and not to the tree. */
  function RadixTable(regs: seq<Registration>): (t: Table)
    ensures [] in t
  {
    if regs == [] then EMPTY
    else
      var front, last := RadixTable(regs[..|regs| - 1]), regs[|regs| - 1];
      if IsStatic(last.pattern) then front else RadixInsert(front, RadixFrom(last))
  }

  // ----- search and Get -----

  /** search, below the node at p: a static child is never a parameter or wildcard node, and
      once it is entered its answer is final. */
  function RadixSearch(t: Table, segs: seq<string>, verb: string, params: Params, p: seq<string>): Option<Found>
    requires |p| <= |segs| && p in t
    decreases |segs| - |p|
  {
    if |p| == |segs| then
      if verb in t[p].handlers then Some(Found(t[p].handlers[verb], params)) else None
    else
      var seg := segs[|p|];
      if seg != PARAM && seg != WILD && p + [seg] in t then
        RadixSearch(t, segs, verb, params, p + [seg])
      else
        var q, w := p + [PARAM], p + [WILD];
        var param := if q in t then RadixSearch(t, segs, verb, params[t[q].paramName := seg], q) else None;
        if param.Some? then param
        else if w in t && verb in t[w].handlers then
          Some(Found(t[w].handlers[verb], params[t[w].paramName := Join(segs[|p|..])]))
        else None
  }

  function TreeAnswer(regs: seq<Registration>, verb: string, segs: seq<string>): Option<Found> {
    RadixSearch(RadixTable(regs), segs, verb, map[], [])
  }

  /** The cache of static routes first, then the tree. */
  function RadixGet(regs: seq<Registration>, verb: string, path: string): Option<Found> {
    var hit := Lookup(StaticRoutes(regs), path, verb);
    if hit.Some? then Some(Found(hit.value, map[]))
    else TreeAnswer(regs, verb, Segments(path))
  }

  // ----- the tree against the trie -----

  /** The table t holds these routes as the greedy tree does. */
  ghost predicate Mirrors(t: Table, routes: seq<Route>) {
    forall p :: SameShape(t, TableOf(routes), p)
  }

  /** No empty segments, and a wildcard only at the end. */
  ghost predicate WellFormed(reg: Registration) {
    var segments := Segments(reg.pattern);
    && (forall i :: 0 <= i < |segments| ==> segments[i] != "")
    && (forall i :: 0 <= i < |segments| - 1 ==> !HasPrefix(segments[i], '*'))
  }

  ghost predicate AllWellFormed(regs: seq<Registration>) {
    forall i :: 0 <= i < |regs| && !IsStatic(regs[i].pattern) ==> WellFormed(regs[i])
  }

  ghost predicate SameShape(t: Table, u: Table, p: seq<string>) {
    && (p in t <==> p in u)
    && (p in u && p != [] && (p[|p| - 1] == PARAM || p[|p| - 1] == WILD) ==> t[p].paramName == u[p].paramName)
    && (p in u ==> t[p].handlers == if EndsWild(p) then map[] else u[p].handlers)
  }

  lemma {:induction false} UsesAll(segments: seq<string>, i: nat)
    requires i <= |segments| && forall j :: 0 <= j < |segments| - 1 ==> !HasPrefix(segments[j], '*')
    ensures Used(segments, i) == |segments|
    decreases |segments| - i
  {
    if i < |segments| {
      UsesAll(segments, i + 1);
    }
  }

  /** A well-formed pattern has the same keys in both trees, and the same names where names
      matter. */
  lemma SameKeys(reg: Registration)
    requires WellFormed(reg)
    ensures RadixFrom(reg).keys == RouteFrom(reg).keys && RadixFrom(reg).verb == reg.verb
    ensures RadixFrom(reg).keys != []
    ensures forall i ::
              0 <= i < |RouteFrom(reg).keys| && (RouteFrom(reg).keys[i] == PARAM || RouteFrom(reg).keys[i] == WILD) ==>
              RadixFrom(reg).names[i] == RouteFrom(reg).names[i]
  {
    var s := Segments(reg.pattern);
    UsesAll(s, 0);
    KeepsAll(s, |s|);
    assert s[..|s|] == s;
    forall i | 0 <= i < |s| && (KeyOf(s[i]) == PARAM || KeyOf(s[i]) == WILD) ensures PathOf(s[i]) == NameOf(s[i]) {
    }
  }

  lemma InsertKeepsShape(t: Table, u: Table, a: Route, b: Route, p: seq<string>)
    requires [] in t && [] in u && SameShape(t, u, p) && SameShape(t, u, b.keys)
    requires a.keys == b.keys && a.keys != [] && a.verb == b.verb && a.chain == b.chain
    requires forall i :: 0 <= i < |b.keys| && (b.keys[i] == PARAM || b.keys[i] == WILD) ==> a.names[i] == b.names[i]
    ensures SameShape(RadixInsert(t, a), Insert(u, b), p)
  {
    GrowAt(t, a, p);
    GrowAt(u, b, p);
    GrowAt(t, a, a.keys);
    GrowAt(u, b, b.keys);
  }

  lemma {:induction false} TablesHaveSameShape(regs: seq<Registration>, p: seq<string>)
    requires AllWellFormed(regs)
    ensures SameShape(RadixTable(regs), TableOf(DynamicRoutes(regs)), p)
  {
    if regs != [] {
      var front, reg := regs[..|regs| - 1], regs[|regs| - 1];
      assert forall i :: 0 <= i < |front| ==> front[i] == regs[i];
      TablesHaveSameShape(front, p);
      if !IsStatic(reg.pattern) {
        var dynamic := DynamicRoutes(front);
        TablesHaveSameShape(front, RouteFrom(reg).keys);
        SameKeys(reg);
        assert (dynamic + [RouteFrom(reg)])[..|dynamic|] == dynamic;
        InsertKeepsShape(RadixTable(front), TableOf(dynamic), RadixFrom(reg), RouteFrom(reg), p);
      }
    }
  }

  /** No segment is a bare ":", and the last one is no bare "*".  Anywhere else a bare "*" only
      leads the trie to a wildcard node, which has no children. */
  ghost predicate Tame(segs: seq<string>) {
    (forall i :: 0 <= i < |segs| ==> segs[i] != PARAM) && !EndsWild(segs)
  }

  ghost predicate WildIsLeaf(u: Table) {
    forall p, k :: p + [WILD] + [k] !in u
  }

  lemma {:induction false} NothingBelowWild(regs: seq<Registration>, p: seq<string>, k: string)
    requires AllWellFormed(regs)
    ensures NameAt(DynamicRoutes(regs), p + [WILD] + [k]).None?
  {
    if regs != [] {
      var front, reg := regs[..|regs| - 1], regs[|regs| - 1];
      assert forall i :: 0 <= i < |front| ==> front[i] == regs[i];
      NothingBelowWild(front, p, k);
      if !IsStatic(reg.pattern) {
        NameAtStep(DynamicRoutes(front), RouteFrom(reg), p + [WILD] + [k]);
        WildComesLast(reg, p, k);
      }
    }
  }

  lemma WildComesLast(reg: Registration, p: seq<string>, k: string)
    requires WellFormed(reg)
    ensures !StartsWith(RouteFrom(reg).keys, p + [WILD] + [k])
  {
    var s, q := Segments(reg.pattern), p + [WILD] + [k];
    KeepsAll(s, |s|);
    assert s[..|s|] == s;
    assert q[|p|] == WILD && |p| < |q| - 1;
  }

  lemma WildLeaves(regs: seq<Registration>)
    requires AllWellFormed(regs)
    ensures WildIsLeaf(TableOf(DynamicRoutes(regs)))
  {
    forall p, k ensures p + [WILD] + [k] !in TableOf(DynamicRoutes(regs)) {
      NothingBelowWild(regs, p, k);
      TableHoldsRoutes(DynamicRoutes(regs), p + [WILD] + [k]);
      assert p + [WILD] + [k] != [];
    }
  }

  /** What the greedy search finds below p, the backtracking search finds too. */
  ghost predicate Confirmed(t: Table, u: Table, segs: seq<string>, verb: string, params: Params, p: seq<string>) {
    && p in t && p in u && |p| <= |segs|
    && var r := RadixSearch(t, segs, verb, params, p);
    r.Some? ==> r == Search(u, segs, |p|, verb, params, p)
  }

  lemma ConfirmedByLiteral(t: Table, u: Table, segs: seq<string>, verb: string, params: Params, p: seq<string>)
    requires p in t && p in u && |p| < |segs| && segs[|p|] != PARAM && segs[|p|] != WILD
    requires Confirmed(t, u, segs, verb, params, p + [segs[|p|]])
    ensures Confirmed(t, u, segs, verb, params, p)
  {
  }

  /** No literal child is entered with success, and no catch-all node answers. */
  lemma ConfirmedByParam(t: Table, u: Table, segs: seq<string>, verb: string, params: Params, p: seq<string>)
    requires p in t && p in u && |p| < |segs| && segs[|p|] != PARAM
    requires segs[|p|] == WILD || p + [segs[|p|]] !in t
    requires var lit := p + [segs[|p|]];
             lit in u ==> Search(u, segs, |p| + 1, verb, params, lit) == None
    requires var par := p + [PARAM];
             par in t ==> par in u && t[par].paramName == u[par].paramName
                          && Confirmed(t, u, segs, verb, params[t[par].paramName := segs[|p|]], par)
    requires p + [WILD] in t ==> t[p + [WILD]].handlers == map[]
    ensures Confirmed(t, u, segs, verb, params, p)
  {
    hide Join;
  }

  lemma ConfirmedAtEnd(t: Table, u: Table, segs: seq<string>, verb: string, params: Params, p: seq<string>)
    requires p in t && p in u && |p| == |segs| && t[p].handlers == u[p].handlers
    ensures Confirmed(t, u, segs, verb, params, p)
  {
  }

  lemma {:induction false} WithinTrie(t: Table, u: Table, segs: seq<string>, verb: string, params: Params,
                                      p: seq<string>)
    requires (forall q :: SameShape(t, u, q)) && WildIsLeaf(u) && Tame(segs)
    requires |p| <= |segs| && p in t && !EndsWild(p)
    ensures Confirmed(t, u, segs, verb, params, p)
    decreases |segs| - |p|
  {
    hide Confirmed, RadixSearch, Search, WildIsLeaf;
    assert SameShape(t, u, p);
    if |p| == |segs| {
      ConfirmedAtEnd(t, u, segs, verb, params, p);
    } else {
      var seg := segs[|p|];
      var lit, par, wild := p + [seg], p + [PARAM], p + [WILD];
      assert seg == WILD ==> |p| + 1 < |segs|;
      assert SameShape(t, u, lit) && SameShape(t, u, par) && SameShape(t, u, wild);
      assert lit[|p|] == seg && par[|p|] == PARAM && wild[|p|] == WILD;
      hide SameShape;
      if seg != WILD && lit in t {
        WithinTrie(t, u, segs, verb, params, lit);
        ConfirmedByLiteral(t, u, segs, verb, params, p);
      } else {
        if seg == WILD && lit in u {
          DeadEnd(u, segs, verb, params, p);
        }
        if par in t {
          WithinTrie(t, u, segs, verb, params[t[par].paramName := seg], par);
        }
        ConfirmedByParam(t, u, segs, verb, params, p);
      }
    }
  }

  lemma DeadEnd(u: Table, segs: seq<string>, verb: string, params: Params, p: seq<string>)
    requires WildIsLeaf(u) && p + [WILD] in u && |p| + 1 < |segs|
    ensures Search(u, segs, |p| + 1, verb, params, p + [WILD]) == None
  {
    var w := p + [WILD];
    assert w + [segs[|p| + 1]] !in u && w + [PARAM] !in u && w + [WILD] !in u;
  }

  /** Whatever the production router answers, the trie router with its hash table answers too:
      the same chain with the same parameters. */
  lemma RadixAgreesWithTrie(regs: seq<Registration>, verb: string, path: string)
    requires AllWellFormed(regs) && Tame(Segments(path))
    ensures Agrees(regs, verb, path)
  {
    MirrorsRoutes(regs);
    WildLeaves(regs);
    WithinTrie(RadixTable(regs), TableOf(DynamicRoutes(regs)), Segments(path), verb, map[], []);
  }

  ghost predicate Agrees(regs: seq<Registration>, verb: string, path: string) {
    var r := RadixGet(regs, verb, path);
    r.Some? ==> WrapperMatch(regs, verb, path) == r
  }

  lemma MirrorsRoutes(regs: seq<Registration>)
    requires AllWellFormed(regs)
    ensures Mirrors(RadixTable(regs), DynamicRoutes(regs))
  {
    forall p ensures SameShape(RadixTable(regs), TableOf(DynamicRoutes(regs)), p) {
      TablesHaveSameShape(regs, p);
    }
  }

  // ----- which requests the tree answers -----

  /** Some registered pattern begins with the keys p. */
  predicate Passes(routes: seq<Route>, p: seq<string>) {
    NameAt(routes, p).Some?
  }

  /** A pattern without wildcard that covers the request and never takes a parameter where
      another pattern goes on literally. */
  ghost predicate GreedyCandidate(routes: seq<Route>, verb: string, segs: seq<string>, q: seq<string>) {
    && Candidate(routes, verb, segs, q) && |q| == |segs|
    && forall i :: 0 <= i < |q| ==> Chosen(routes, segs, q, i)
  }

  ghost predicate HasGreedyCandidate(routes: seq<Route>, verb: string, segs: seq<string>) {
    exists q :: GreedyCandidate(routes, verb, segs, q)
  }

  ghost predicate Chosen(routes: seq<Route>, segs: seq<string>, q: seq<string>, i: nat)
    requires i < |q| && i < |segs|
  {
    q[i] != WILD && (q[i] == PARAM ==> segs[i] == PARAM || segs[i] == WILD || !Passes(routes, q[..i] + [segs[i]]))
  }

  lemma {:induction false} GreedyIsFound(t: Table, routes: seq<Route>, segs: seq<string>, verb: string, params: Params,
                                         q: seq<string>, i: nat)
    requires Mirrors(t, routes) && i <= |segs|
    requires GreedyCandidate(routes, verb, segs, q)
    ensures q[..i] in t && RadixSearch(t, segs, verb, params, q[..i]).Some?
    decreases |segs| - i
  {
    hide TableOf, Mirrors, Chosen, Join;
    TableHoldsRoutes(routes, q);
    ShapeOf(t, routes, q, i);
    if i == |segs| {
      assert q[..i] == q;
      assert q != [] ==> Chosen(routes, segs, q, |q| - 1);
      LastNotWild(routes, segs, q);
    } else {
      hide RadixSearch;
      assert Chosen(routes, segs, q, i) && q[..i + 1] == q[..i] + [q[i]];
      ShapeOf(t, routes, q, i + 1);
      ChosenInTable(t, routes, segs, q, i);
      var bound := if q[i] == PARAM then params[t[q[..i + 1]].paramName := segs[i]] else params;
      GreedyIsFound(t, routes, segs, verb, bound, q, i + 1);
      GreedyStep(t, segs, verb, params, q[..i], q[i]);
    }
  }

  lemma LastNotWild(routes: seq<Route>, segs: seq<string>, q: seq<string>)
    requires |q| == |segs| && (q != [] ==> Chosen(routes, segs, q, |q| - 1))
    ensures !EndsWild(q)
  {
  }

  lemma ChosenInTable(t: Table, routes: seq<Route>, segs: seq<string>, q: seq<string>, i: nat)
    requires Mirrors(t, routes) && i < |q| && i < |segs| && Chosen(routes, segs, q, i)
    ensures q[i] == PARAM ==> segs[i] == PARAM || segs[i] == WILD || q[..i] + [segs[i]] !in t
    ensures q[i] != WILD
  {
    var lit := q[..i] + [segs[i]];
    TableHoldsRoutes(routes, lit);
    assert SameShape(t, TableOf(routes), lit);
  }

  lemma ShapeOf(t: Table, routes: seq<Route>, q: seq<string>, i: nat)
    requires Mirrors(t, routes) && q in TableOf(routes) && i <= |q|
    ensures q[..i] in TableOf(routes) && SameShape(t, TableOf(routes), q[..i])
  {
    PrefixHeld(routes, q, i);
  }

  lemma PrefixHeld(routes: seq<Route>, q: seq<string>, i: nat)
    requires q in TableOf(routes) && i <= |q|
    ensures q[..i] in TableOf(routes)
  {
    TableIsPrefixClosed(routes);
  }

  lemma GreedyStep(t: Table, segs: seq<string>, verb: string, params: Params, p: seq<string>, key: string)
    requires p in t && |p| < |segs| && p + [key] in t && key != WILD && (key == PARAM || key == segs[|p|])
    requires key == PARAM ==> segs[|p|] == PARAM || segs[|p|] == WILD || p + [segs[|p|]] !in t
    requires var bound := if key == PARAM then params[t[p + [key]].paramName := segs[|p|]] else params;
             RadixSearch(t, segs, verb, bound, p + [key]).Some?
    ensures RadixSearch(t, segs, verb, params, p).Some?
  {
  }

  lemma {:induction false} FoundIsGreedy(t: Table, routes: seq<Route>, segs: seq<string>, verb: string, params: Params,
                                         p: seq<string>) returns (q: seq<string>)
    requires Mirrors(t, routes) && |p| <= |segs| && p in t && !EndsWild(p)
    requires RadixSearch(t, segs, verb, params, p).Some?
    requires forall i :: 0 <= i < |p| ==> Chosen(routes, segs, p, i) && (p[i] == PARAM || p[i] == segs[i])
    ensures GreedyCandidate(routes, verb, segs, q)
    decreases |segs| - |p|
  {
    assert SameShape(t, TableOf(routes), p);
    if |p| == |segs| {
      q := p;
      TableHoldsRoutes(routes, p);
    } else {
      var seg := segs[|p|];
      var lit, par, wild := p + [seg], p + [PARAM], p + [WILD];
      assert SameShape(t, TableOf(routes), lit) && SameShape(t, TableOf(routes), wild);
      assert lit[|p|] == seg && par[|p|] == PARAM && wild[|p|] == WILD;
      TableHoldsRoutes(routes, lit);
      var exact := seg != PARAM && seg != WILD && lit in t;
      var next := if exact then lit else par;
      assert next[..|p|] == p;
      forall i | 0 <= i < |next| ensures Chosen(routes, segs, next, i) && (next[i] == PARAM || next[i] == segs[i]) {
        if i < |p| {
          assert Chosen(routes, segs, p, i) && next[..i] == p[..i] && next[i] == p[i];
        }
      }
      q := FoundIsGreedy(t, routes, segs, verb, if exact then params else params[t[par].paramName := seg], next);
    }
  }

  /** What the tree is built from: the dynamic patterns up to their first wildcard, with their
      empty segments. */
  function RadixList(regs: seq<Registration>): seq<Route> {
    if regs == [] then []
    else
      var front, last := RadixList(regs[..|regs| - 1]), regs[|regs| - 1];
      if IsStatic(last.pattern) then front else front + [RadixFrom(last)]
  }

  lemma ListGrows(regs: seq<Registration>, reg: Registration)
    requires !IsStatic(reg.pattern)
    ensures RadixList(regs + [reg]) == RadixList(regs) + [RadixFrom(reg)]
  {
    assert (regs + [reg])[..|regs|] == regs;
  }

  lemma {:induction false} TableMirrors(regs: seq<Registration>, p: seq<string>)
    ensures SameShape(RadixTable(regs), TableOf(RadixList(regs)), p)
  {
    if regs != [] {
      var front, reg := regs[..|regs| - 1], regs[|regs| - 1];
      TableMirrors(front, p);
      if !IsStatic(reg.pattern) {
        var list, r := RadixList(front), RadixFrom(reg);
        TableMirrors(front, r.keys);
        assert (list + [r])[..|list|] == list;
        InsertKeepsShape(RadixTable(front), TableOf(list), r, r, p);
      }
    }
  }

  /** The tree answers exactly the requests for which such a pattern is registered, whatever
      the patterns and the request look like. */
  lemma RadixAnswersIff(regs: seq<Registration>, verb: string, segs: seq<string>)
    ensures TreeAnswer(regs, verb, segs).Some? <==> HasGreedyCandidate(RadixList(regs), verb, segs)
  {
    var t, routes := RadixTable(regs), RadixList(regs);
    forall p ensures SameShape(t, TableOf(routes), p) {
      TableMirrors(regs, p);
    }
    if TreeAnswer(regs, verb, segs).Some? {
      var q := FoundIsGreedy(t, routes, segs, verb, map[], []);
    }
    if q :| GreedyCandidate(routes, verb, segs, q) {
      assert q[..0] == [];
      GreedyIsFound(t, routes, segs, verb, map[], q, 0);
    }
  }

  /** No two patterns part into a literal and a parameter at the same place. */
  ghost predicate KeptApart(routes: seq<Route>) {
    forall p, k :: Passes(routes, p + [PARAM]) && k != PARAM && k != WILD ==> !Passes(routes, p + [k])
  }

  /** If literals and parameters are kept apart, every pattern without wildcard that covers a
      request is found. */
  lemma FindsAllWhenApart(regs: seq<Registration>, verb: string, segs: seq<string>, q: seq<string>)
    requires KeptApart(RadixList(regs)) && Candidate(RadixList(regs), verb, segs, q) && WILD !in q
    ensures TreeAnswer(regs, verb, segs).Some?
  {
    ApartIsGreedy(RadixList(regs), verb, segs, q);
    RadixAnswersIff(regs, verb, segs);
  }

  lemma ApartIsGreedy(routes: seq<Route>, verb: string, segs: seq<string>, q: seq<string>)
    requires KeptApart(routes) && Candidate(routes, verb, segs, q) && WILD !in q
    ensures GreedyCandidate(routes, verb, segs, q)
  {
    TableHoldsRoutes(routes, q);
    forall i | 0 <= i < |q| ensures Chosen(routes, segs, q, i) {
      assert q[i] != WILD;
      if q[i] == PARAM {
        NamesArePrefixClosed(routes, q, i + 1);
        assert q[..i + 1] == q[..i] + [PARAM];
        assert Passes(routes, q[..i] + [PARAM]);
      }
    }
  }

  /** Why literals and parameters must be kept apart: "/a/x" is covered by "/:id/x", but the
      tree enters "a" because of "/a/:z/q" and does not come back. */
  lemma GreedyMisses(first: Chain, second: Chain)
    ensures var regs := [Registration("GET", "/:id/x", first), Registration("GET", "/a/:z/q", second)];
            && AllWellFormed(regs)
            && TreeAnswer(regs, "GET", ["a", "x"]) == None
            && Search(TableOf(DynamicRoutes(regs)), ["a", "x"], 0, "GET", map[], []).Some?
  {
    SampleRoutes(first, second);
    hide *;
    Missed([Registration("GET", "/:id/x", first), Registration("GET", "/a/:z/q", second)]);
  }

  lemma Missed(regs: seq<Registration>)
    requires Sample(DynamicRoutes(regs)) && Sample(RadixList(regs))
    ensures TreeAnswer(regs, "GET", ["a", "x"]) == None
    ensures Search(TableOf(DynamicRoutes(regs)), ["a", "x"], 0, "GET", map[], []).Some?
  {
    var segs: seq<string> := ["a", "x"];
    NotGreedy(DynamicRoutes(regs), segs);
    NotGreedy(RadixList(regs), segs);
    RadixAnswersIff(regs, "GET", segs);
    FoundByTrie(DynamicRoutes(regs), segs);
  }

  lemma FoundByTrie(routes: seq<Route>, segs: seq<string>)
    requires segs == ["a", "x"] && Candidate(routes, "GET", segs, [PARAM, "x"])
    ensures Search(TableOf(routes), segs, 0, "GET", map[], []).Some?
  {
    assert OrdinaryRequest(segs);
    hide *;
    var best := SearchIsBestPattern(routes, "GET", segs);
  }

  lemma SampleRoutes(first: Chain, second: Chain)
    ensures var regs := [Registration("GET", "/:id/x", first), Registration("GET", "/a/:z/q", second)];
            && AllWellFormed(regs)
            && Sample(DynamicRoutes(regs)) && Sample(RadixList(regs))
  {
    var a, b := Registration("GET", "/:id/x", first), Registration("GET", "/a/:z/q", second);
    FirstKeys(first);
    SecondKeys(second);
    hide WellFormed, RouteFrom, RadixFrom, IsStatic, DynamicRoutes, RadixList;
    TwoDynamic(a, b);
  }

  ghost predicate Sample(routes: seq<Route>) {
    && |routes| == 2 && routes[0].verb == "GET"
    && routes[0].keys == [PARAM, "x"] && routes[1].keys == ["a", PARAM, "q"]
  }

  lemma TwoDynamic(a: Registration, b: Registration)
    requires !IsStatic(a.pattern) && !IsStatic(b.pattern)
    ensures DynamicRoutes([a, b]) == [RouteFrom(a), RouteFrom(b)]
    ensures RadixList([a, b]) == [RadixFrom(a), RadixFrom(b)]
  {
    hide RouteFrom, RadixFrom, IsStatic;
    RegsGrow([], a);
    RegsGrow([a], b);
    ListGrows([], a);
    ListGrows([a], b);
    assert [a, b] == [a] + [b] && [a] == [] + [a];
  }

  lemma FirstKeys(chain: Chain)
    ensures var reg := Registration("GET", "/:id/x", chain);
            && !IsStatic(reg.pattern) && WellFormed(reg)
            && RouteFrom(reg).keys == RadixFrom(reg).keys == [PARAM, "x"]
            && RouteFrom(reg).verb == RadixFrom(reg).verb == "GET"
  {
    var reg, s := Registration("GET", "/:id/x", chain), [":id", "x"];
    assert Join(s) == ":id" + "/" + "x" by {
      assert s[1..] == ["x"];
    }
    assert reg.pattern == Canonical(s);
    assert Keys(s) == [PARAM, "x"];
    hide RouteFrom, RadixFrom, Join, Segments, Keys, WellFormed, IsStatic;
    DynamicPattern(reg, s, 0);
    SameKeys(reg);
  }

  lemma SecondKeys(chain: Chain)
    ensures var reg := Registration("GET", "/a/:z/q", chain);
            && !IsStatic(reg.pattern) && WellFormed(reg)
            && RouteFrom(reg).keys == RadixFrom(reg).keys == ["a", PARAM, "q"]
  {
    var reg, s := Registration("GET", "/a/:z/q", chain), ["a", ":z", "q"];
    assert Join(s) == "a" + "/" + (":z" + "/" + "q") by {
      assert s[1..] == [":z", "q"] && s[1..][1..] == ["q"];
    }
    assert reg.pattern == Canonical(s);
    assert Keys(s) == ["a", PARAM, "q"];
    hide RouteFrom, RadixFrom, Join, Segments, Keys, WellFormed, IsStatic;
    DynamicPattern(reg, s, 1);
    SameKeys(reg);
  }

  lemma DynamicPattern(reg: Registration, s: seq<string>, i: nat)
    requires IsCanonical(reg.pattern, s) && i < |s| && HasPrefix(s[i], ':')
    requires forall j :: 0 <= j < |s| ==> !HasPrefix(s[j], '*')
    ensures !IsStatic(reg.pattern) && WellFormed(reg)
    ensures RouteFrom(reg).keys == Keys(s) && RouteFrom(reg).verb == reg.verb
  {
    RouteOfSegments(reg, s);
    SegmentsContain(reg.pattern, ':');
    assert ':' in s[i];
    forall j | 0 <= j < |s| ensures s[j] != "" {
      assert Plain(s[j]);
    }
  }

  lemma NotGreedy(routes: seq<Route>, segs: seq<string>)
    requires Sample(routes) && segs == ["a", "x"]
    ensures Candidate(routes, "GET", segs, [PARAM, "x"])
    ensures !HasGreedyCandidate(routes, "GET", segs)
  {
    var r, s := routes[0], routes[1];
    assert routes == [r] + [s];
    NameAtStep([r], s, ["a"]);
    assert Passes(routes, ["a"]) by {
      assert StartsWith(s.keys, ["a"]);
    }
    TwoChains(r, s, r.keys);
    forall q ensures !GreedyCandidate(routes, "GET", segs, q) {
      TwoChains(r, s, q);
      if q == r.keys {
        assert q[..0] + [segs[0]] == ["a"];
        assert !Chosen(routes, segs, q, 0);
      }
    }
  }

  lemma TwoChains(r: Route, s: Route, q: seq<string>)
    requires r.keys != s.keys && r.verb == "GET"
    ensures ChainAt([r] + [s], q, "GET").Some? ==> q == r.keys || q == s.keys
    ensures ChainAt([r] + [s], r.keys, "GET").Some?
  {
    ChainAtStep([r], s, q, "GET");
    ChainAtStep([], r, q, "GET");
    ChainAtStep([r], s, r.keys, "GET");
    ChainAtStep([], r, r.keys, "GET");
  }

  lemma RouteOfSegments(reg: Registration, s: seq<string>)
    requires IsCanonical(reg.pattern, s)
    ensures RouteFrom(reg).keys == Keys(s) && RouteFrom(reg).names == Names(s)
    ensures Segments(reg.pattern) == s
    ensures RouteFrom(reg).verb == reg.verb && RouteFrom(reg).chain == reg.chain
  {
    SegmentsOfCanonical(s);
    KeepsAll(s, |s|);
    assert s[..|s|] == s;
  }
}
