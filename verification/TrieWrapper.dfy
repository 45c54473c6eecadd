/** TrieRouterWrapper: a hash table for static patterns in front of a trie for the others. */
module TrieWrapper {
  import opened Options
  import opened Paths
  import opened TrieTable
  import opened TrieRoutes
  import TriePatterns
  import Router = TrieRouter

  datatype Registration = Registration(verb: string, pattern: string, chain: Chain)

  predicate IsStatic(pattern: string) {
    ':' !in pattern && '*' !in pattern
  }

  function RouteFrom(reg: Registration): Route {
    RouteOf(reg.verb, reg.pattern, reg.chain)
  }

  function AllRoutes(regs: seq<Registration>): seq<Route> {
    if regs == [] then [] else AllRoutes(regs[..|regs| - 1]) + [RouteFrom(regs[|regs| - 1])]
  }

  function DynamicRoutes(regs: seq<Registration>): seq<Route> {
    if regs == [] then []
    else
      var front, last := DynamicRoutes(regs[..|regs| - 1]), regs[|regs| - 1];
      if IsStatic(last.pattern) then front else front + [RouteFrom(last)]
  }

  type StaticTable = map<string, map<string, Chain>>

  function AddStatic(t: StaticTable, reg: Registration): StaticTable {
    var verbs := if reg.pattern in t then t[reg.pattern] else map[];
    t[reg.pattern := verbs[reg.verb := reg.chain]]
  }

  function StaticRoutes(regs: seq<Registration>): StaticTable {
    if regs == [] then map[]
    else
      var front, last := StaticRoutes(regs[..|regs| - 1]), regs[|regs| - 1];
      if IsStatic(last.pattern) then AddStatic(front, last) else front
  }

  function Lookup(t: StaticTable, path: string, verb: string): Option<Chain> {
    if path in t && verb in t[path] then Some(t[path][verb]) else None
  }

  /** The wrapper's answer: the hash table first, then the trie of dynamic routes. */
  function WrapperMatch(regs: seq<Registration>, verb: string, path: string): Option<Found> {
    var hit := Lookup(StaticRoutes(regs), path, verb);
    if hit.Some? then Some(Found(hit.value, map[]))
    else Search(TableOf(DynamicRoutes(regs)), Segments(path), 0, verb, map[], [])
  }

  /** The answer of one trie that holds every route. */
  function TrieMatch(regs: seq<Registration>, verb: string, path: string): Option<Found> {
    Search(TableOf(AllRoutes(regs)), Segments(path), 0, verb, map[], [])
  }

  lemma RegsGrow(regs: seq<Registration>, reg: Registration)
    ensures var dynamic, table := DynamicRoutes(regs), StaticRoutes(regs);
            if IsStatic(reg.pattern) then
              && DynamicRoutes(regs + [reg]) == dynamic
              && StaticRoutes(regs + [reg]) == AddStatic(table, reg)
            else
              && DynamicRoutes(regs + [reg]) == dynamic + [RouteFrom(reg)]
              && StaticRoutes(regs + [reg]) == table
  {
    assert (regs + [reg])[..|regs|] == regs;
  }

  class TrieRouterWrapper {
    const trieRouter: Router.TrieRouter
    var staticRoutes: StaticTable
    ghost var regs: seq<Registration>

    ghost predicate Valid()
      reads this, trieRouter, trieRouter.repr
    {
      && trieRouter.Valid() && trieRouter.routes == DynamicRoutes(regs)
      && staticRoutes == StaticRoutes(regs)
    }

    constructor ()
      ensures Valid() && regs == [] && trieRouter.middlewares == []
      ensures fresh(trieRouter) && fresh(trieRouter.repr)
    {
      trieRouter := new Router.TrieRouter();
      staticRoutes := map[];
      regs := [];
    }

    method AddRoute(verb: string, pattern: string, handler: Handler)
      requires Valid()
      modifies this, trieRouter, trieRouter.repr
      ensures Valid() && fresh(trieRouter.repr - old(trieRouter.repr))
      ensures regs == old(regs) + [Registration(verb, pattern, trieRouter.middlewares + [handler])]
      ensures trieRouter.middlewares == old(trieRouter.middlewares)
    {
      hide Router.TrieRouter.Valid, RouteOf, IsStatic;
      ghost var reg := Registration(verb, pattern, trieRouter.middlewares + [handler]);
      RegsGrow(regs, reg);
      if IsStatic(pattern) {
        if pattern !in staticRoutes {
          staticRoutes := staticRoutes[pattern := map[]];
        }
        var chain := trieRouter.middlewares + [handler];
        staticRoutes := staticRoutes[pattern := staticRoutes[pattern][verb := chain]];
      } else {
        trieRouter.AddRoute(verb, pattern, handler);
      }
      regs := regs + [reg];
    }

    method Use(added: seq<Handler>)
      requires Valid()
      modifies trieRouter`middlewares
      ensures Valid() && trieRouter.middlewares == old(trieRouter.middlewares) + added
    {
      trieRouter.Use(added);
    }

    method Match(verb: string, path: string) returns (r: Option<Found>)
      requires Valid()
      ensures r == WrapperMatch(regs, verb, path)
    {
      if path in staticRoutes {
        if verb in staticRoutes[path] {
          return Some(Found(staticRoutes[path][verb], map[]));
        }
      }
      r := trieRouter.Match(verb, path);
    }
  }

  // ----- static patterns are exactly the static keys -----

  predicate Special(s: string) {
    ':' in s || '*' in s
  }

  ghost predicate StaticKeys(p: seq<string>) {
    forall i :: 0 <= i < |p| ==> !Special(p[i])
  }

  ghost predicate HasSpecial(p: seq<string>) {
    exists i :: 0 <= i < |p| && Special(p[i])
  }

  lemma {:induction false} TrimLeftContains(s: string, c: char)
    requires c != '/'
    ensures c in TrimLeft(s) <==> c in s
  {
    if s != "" && s[0] == '/' {
      TrimLeftContains(s[1..], c);
      assert s == [s[0]] + s[1..];
    }
  }

  lemma {:induction false} TrimRightContains(s: string, c: char)
    requires c != '/'
    ensures c in TrimRight(s) <==> c in s
    decreases |s|
  {
    if s != "" && s[|s| - 1] == '/' {
      TrimRightContains(s[..|s| - 1], c);
      assert s == s[..|s| - 1] + [s[|s| - 1]];
    }
  }

  lemma SegmentsContain(path: string, c: char)
    requires c != '/'
    ensures c in path <==> exists i :: 0 <= i < |Segments(path)| && c in Segments(path)[i]
  {
    TrimLeftContains(path, c);
    TrimRightContains(TrimLeft(path), c);
    JoinSplit(Trim(path));
    JoinContains(Segments(path), c);
  }

  lemma {:induction false} NonEmptyKeepsSpecial(segments: seq<string>, n: nat)
    requires n <= |segments|
    ensures HasSpecial(NonEmpty(segments, n)) <==> exists i :: 0 <= i < n && Special(segments[i])
  {
    if n > 0 {
      NonEmptyKeepsSpecial(segments, n - 1);
      var before, after := NonEmpty(segments, n - 1), NonEmpty(segments, n);
      if segments[n - 1] != "" {
        assert after[|before|] == segments[n - 1];
        assert forall i :: 0 <= i < |before| ==> after[i] == before[i];
      }
    }
  }

  lemma KeysOfSegments(s: seq<string>)
    ensures HasSpecial(Keys(s)) <==> HasSpecial(s)
  {
    forall i | 0 <= i < |s| ensures Special(Keys(s)[i]) <==> Special(s[i]) {
      assert Keys(s)[i] == KeyOf(s[i]);
    }
  }

  lemma StaticIffStaticKeys(reg: Registration)
    ensures StaticKeys(RouteFrom(reg).keys) <==> IsStatic(reg.pattern)
  {
    var segments := Segments(reg.pattern);
    SegmentsContain(reg.pattern, ':');
    SegmentsContain(reg.pattern, '*');
    NonEmptyKeepsSpecial(segments, |segments|);
    KeysOfSegments(NonEmpty(segments, |segments|));
    assert StaticKeys(RouteFrom(reg).keys) <==> !HasSpecial(RouteFrom(reg).keys);
    if !IsStatic(reg.pattern) {
      assert exists i :: 0 <= i < |segments| && Special(segments[i]);
    }
  }

  /** A pattern or path written in the one canonical way, and not the root. */
  ghost predicate IsCanonical(path: string, s: seq<string>) {
    s != [] && (forall i :: 0 <= i < |s| ==> Plain(s[i])) && path == Canonical(s)
  }

  ghost predicate WellWritten(regs: seq<Registration>) {
    forall i :: 0 <= i < |regs| && IsStatic(regs[i].pattern) ==> exists s :: IsCanonical(regs[i].pattern, s)
  }

  lemma CanonicalKeys(reg: Registration, s: seq<string>)
    requires IsStatic(reg.pattern) && IsCanonical(reg.pattern, s)
    ensures RouteFrom(reg).keys == s
  {
    SegmentsOfCanonical(s);
    KeepsAll(s, |s|);
    assert s[..|s|] == s;
    SegmentsContain(reg.pattern, ':');
    SegmentsContain(reg.pattern, '*');
    forall i | 0 <= i < |s| ensures KeyOf(s[i]) == s[i] {
      assert ':' !in s[i] && '*' !in s[i];
    }
    assert Keys(s) == s;
  }

  lemma CanonicalIsInjective(p: seq<string>, s: seq<string>)
    requires p != [] && s != [] && Canonical(p) == Canonical(s)
    requires forall i :: 0 <= i < |p| ==> '/' !in p[i]
    requires forall i :: 0 <= i < |s| ==> '/' !in s[i]
    ensures p == s
  {
    assert Canonical(p)[1..] == Join(p) && Canonical(s)[1..] == Join(s);
    SplitJoin(p);
    SplitJoin(s);
  }

  lemma CanonicalPattern(reg: Registration, p: seq<string>)
    requires WellWritten([reg]) && IsStatic(reg.pattern)
    requires forall i :: 0 <= i < |p| ==> '/' !in p[i]
    ensures RouteFrom(reg).keys != []
    ensures p != [] ==> (RouteFrom(reg).keys == p <==> reg.pattern == Canonical(p))
  {
    assert [reg][0] == reg;
    var s :| IsCanonical(reg.pattern, s);
    CanonicalKeys(reg, s);
    if p != [] && Canonical(p) == reg.pattern {
      CanonicalIsInjective(p, s);
    }
  }

  /** Where a key of p is special, one trie holds what the trie of dynamic routes holds. */
  lemma {:induction false} SpecialChains(regs: seq<Registration>, p: seq<string>, verb: string)
    requires !StaticKeys(p)
    ensures ChainAt(AllRoutes(regs), p, verb) == ChainAt(DynamicRoutes(regs), p, verb)
    ensures NameAt(AllRoutes(regs), p) == NameAt(DynamicRoutes(regs), p)
  {
    if regs != [] {
      var front, reg := regs[..|regs| - 1], regs[|regs| - 1];
      var all, dynamic, r := AllRoutes(front), DynamicRoutes(front), RouteFrom(reg);
      SpecialChains(front, p, verb);
      StaticIffStaticKeys(reg);
      ChainAtStep(all, r, p, verb);
      NameAtStep(all, r, p);
      if IsStatic(reg.pattern) {
        var i :| 0 <= i < |p| && Special(p[i]);
        assert !StartsWith(r.keys, p);
      } else {
        ChainAtStep(dynamic, r, p, verb);
        NameAtStep(dynamic, r, p);
      }
    }
  }

  /** Where no key of p is special, the dynamic routes end nowhere. */
  lemma {:induction false} NoDynamicChain(regs: seq<Registration>, p: seq<string>, verb: string)
    requires StaticKeys(p)
    ensures ChainAt(DynamicRoutes(regs), p, verb) == None
  {
    if regs != [] {
      var front, reg := regs[..|regs| - 1], regs[|regs| - 1];
      NoDynamicChain(front, p, verb);
      StaticIffStaticKeys(reg);
      ChainAtStep(DynamicRoutes(front), RouteFrom(reg), p, verb);
    }
  }

  /** Where no key of p is special, one trie holds the hash table's entry. */
  lemma {:induction false} StaticChains(regs: seq<Registration>, p: seq<string>, verb: string)
    requires WellWritten(regs) && StaticKeys(p) && p != [] && forall i :: 0 <= i < |p| ==> '/' !in p[i]
    ensures ChainAt(AllRoutes(regs), p, verb) == Lookup(StaticRoutes(regs), Canonical(p), verb)
  {
    if regs != [] {
      var front, reg := regs[..|regs| - 1], regs[|regs| - 1];
      assert forall i :: 0 <= i < |front| ==> front[i] == regs[i];
      hide StaticKeys, IsStatic, RouteFrom, Canonical;
      StaticChains(front, p, verb);
      StaticIffStaticKeys(reg);
      ChainAtStep(AllRoutes(front), RouteFrom(reg), p, verb);
      if IsStatic(reg.pattern) {
        assert WellWritten([reg]) by {
          assert regs[|regs| - 1] == reg;
        }
        CanonicalPattern(reg, p);
      }
    }
  }

  lemma {:induction false} DynamicNodes(regs: seq<Registration>, p: seq<string>)
    requires NameAt(DynamicRoutes(regs), p).Some?
    ensures NameAt(AllRoutes(regs), p).Some?
  {
    if regs != [] {
      var front, reg := regs[..|regs| - 1], regs[|regs| - 1];
      NameAtStep(AllRoutes(front), RouteFrom(reg), p);
      NameAtStep(DynamicRoutes(front), RouteFrom(reg), p);
      if NameAt(DynamicRoutes(front), p).Some? {
        DynamicNodes(front, p);
      }
    }
  }

  // ----- the search does not miss the static routes -----

  ghost predicate SameAt(t: Table, u: Table, p: seq<string>, verb: string) {
    && (p in t <==> p in u)
    && (p in t ==> t[p].paramName == u[p].paramName)
    && (p in t ==> (verb in t[p].handlers <==> verb in u[p].handlers))
    && (p in t && verb in t[p].handlers ==> t[p].handlers[verb] == u[p].handlers[verb])
  }

  ghost predicate Answers(t: Table, p: seq<string>, verb: string) {
    p in t && verb in t[p].handlers
  }

  /** The larger table has nothing more to say about this request. */
  ghost predicate Agree(t: Table, u: Table, segs: seq<string>, verb: string) {
    && TriePatterns.PrefixClosed(u)
    && (forall p :: p in u ==> p in t)
    && (forall p :: !StaticKeys(p) ==> SameAt(t, u, p, verb))
    && (StaticKeys(segs) ==> !Answers(t, segs, verb) && !Answers(u, segs, verb))
  }

  ghost predicate Along(p: seq<string>, segs: seq<string>) {
    |p| <= |segs| && forall j :: 0 <= j < |p| ==> p[j] == segs[j] || p[j] == PARAM
  }

  lemma {:induction false} SameSearch(t: Table, u: Table, segs: seq<string>, verb: string, params: Params,
                                      p: seq<string>)
    requires Agree(t, u, segs, verb) && Along(p, segs) && p in t
    ensures Search(t, segs, |p|, verb, params, p) ==
            if p in u then Search(u, segs, |p|, verb, params, p) else None
    decreases |segs| - |p|
  {
    if |p| == |segs| {
      if StaticKeys(p) {
        assert p == segs;
      }
    } else {
      var lit, par, wild := p + [segs[|p|]], p + [PARAM], p + [WILD];
      assert p == lit[..|p|] == par[..|p|] == wild[..|p|];
      assert par[|p|] == PARAM && wild[|p|] == WILD;
      assert SameAt(t, u, par, verb) && SameAt(t, u, wild, verb);
      if lit in t {
        SameSearch(t, u, segs, verb, params, lit);
      }
      if par in t {
        SameSearch(t, u, segs, verb, params[t[par].paramName := segs[|p|]], par);
      }
    }
  }

  /** A handler at the end of the literal path is found first, with nothing bound. */
  lemma {:induction false} LiteralWins(t: Table, segs: seq<string>, verb: string, params: Params, i: nat)
    requires TriePatterns.PrefixClosed(t) && Answers(t, segs, verb) && i <= |segs|
    ensures segs[..i] in t
    ensures Search(t, segs, i, verb, params, segs[..i]) == Some(Found(t[segs].handlers[verb], params))
    decreases |segs| - i
  {
    if i == |segs| {
      assert segs[..i] == segs;
    } else {
      assert segs[..i + 1] == segs[..i] + [segs[i]];
      LiteralWins(t, segs, verb, params, i + 1);
    }
  }

  /** Without a handler at the end of the literal path, an answer binds some parameter. */
  lemma {:induction false} OtherwiseBinds(t: Table, segs: seq<string>, verb: string, params: Params, p: seq<string>)
    requires |p| <= |segs| && p in t && !Answers(t, segs, verb)
    requires params != map[] || p == segs[..|p|]
    ensures var r := Search(t, segs, |p|, verb, params, p); r.Some? ==> r.value.params != map[]
    decreases |segs| - |p|
  {
    if |p| == |segs| {
      assert segs[..|p|] == segs;
    } else {
      var lit, par, wild := p + [segs[|p|]], p + [PARAM], p + [WILD];
      if wild in t {
        assert t[wild].paramName in params[t[wild].paramName := Join(segs[|p|..])];
      }
      assert segs[..|p| + 1] == segs[..|p|] + [segs[|p|]];
      if lit in t {
        OtherwiseBinds(t, segs, verb, params, lit);
      }
      if par in t {
        var bound := params[t[par].paramName := segs[|p|]];
        assert t[par].paramName in bound;
        OtherwiseBinds(t, segs, verb, bound, par);
      }
    }
  }

  // ----- the wrapper against one trie -----

  lemma AnswersIsChain(routes: seq<Route>, p: seq<string>, verb: string)
    ensures var t := TableOf(routes);
            && (Answers(t, p, verb) <==> ChainAt(routes, p, verb).Some?)
            && (Answers(t, p, verb) ==> Some(t[p].handlers[verb]) == ChainAt(routes, p, verb))
  {
    TableHoldsRoutes(routes, p);
  }

  lemma TablesAgree(regs: seq<Registration>, segs: seq<string>, verb: string)
    requires StaticKeys(segs) ==> ChainAt(AllRoutes(regs), segs, verb) == None
    ensures Agree(TableOf(AllRoutes(regs)), TableOf(DynamicRoutes(regs)), segs, verb)
  {
    var all, dynamic := AllRoutes(regs), DynamicRoutes(regs);
    var t, u := TableOf(all), TableOf(dynamic);
    TriePatterns.TableIsPrefixClosed(dynamic);
    forall p | p in u ensures p in t {
      TableHoldsRoutes(dynamic, p);
      TableHoldsRoutes(all, p);
      if p != [] {
        DynamicNodes(regs, p);
      }
    }
    forall p | !StaticKeys(p) ensures SameAt(t, u, p, verb) {
      SpecialChains(regs, p, verb);
      TableHoldsRoutes(dynamic, p);
      TableHoldsRoutes(all, p);
    }
    if StaticKeys(segs) {
      NoDynamicChain(regs, segs, verb);
      AnswersIsChain(all, segs, verb);
      AnswersIsChain(dynamic, segs, verb);
    }
  }

  lemma StaticSegments(path: string)
    ensures IsStatic(path) <==> StaticKeys(Segments(path))
  {
    SegmentsContain(path, ':');
    SegmentsContain(path, '*');
  }

  lemma {:induction false} HitsAreStatic(regs: seq<Registration>, path: string, verb: string)
    requires Lookup(StaticRoutes(regs), path, verb).Some?
    ensures IsStatic(path)
  {
    if regs != [] {
      var front := regs[..|regs| - 1];
      if Lookup(StaticRoutes(front), path, verb).Some? {
        HitsAreStatic(front, path, verb);
      }
    }
  }

  /** When the hash table is a faithful shortcut: for any registrations and any request, written
      in any way, the wrapper answers as one trie with all the routes would, unless the path
      is static and the hash table's entry for it is not the chain that was registered last
      for its segments. */
  lemma ShortcutIsFaithfulIff(regs: seq<Registration>, verb: string, path: string)
    ensures WrapperMatch(regs, verb, path) == TrieMatch(regs, verb, path) <==>
            (IsStatic(path) ==>
               Lookup(StaticRoutes(regs), path, verb) == ChainAt(AllRoutes(regs), Segments(path), verb))
  {
    var all, dynamic, segs := AllRoutes(regs), DynamicRoutes(regs), Segments(path);
    var t, u := TableOf(all), TableOf(dynamic);
    assert segs[..0] == [];
    StaticSegments(path);
    if Lookup(StaticRoutes(regs), path, verb).Some? {
      HitsAreStatic(regs, path, verb);
    }
    AnswersIsChain(all, segs, verb);
    if IsStatic(path) {
      NoDynamicChain(regs, segs, verb);
      AnswersIsChain(dynamic, segs, verb);
      OtherwiseBinds(u, segs, verb, map[], []);
    }
    if IsStatic(path) && Answers(t, segs, verb) {
      TriePatterns.TableIsPrefixClosed(all);
      LiteralWins(t, segs, verb, map[], 0);
    } else {
      TablesAgree(regs, segs, verb);
      SameSearch(t, u, segs, verb, map[], []);
    }
  }

  /** If every static pattern is written canonically, the exception is a static route that is
      requested in another way: the hash table is asked for the path as it is, the trie for its
      segments.  Canonical requests are always answered alike. */
  lemma CanonicalShortcutIff(regs: seq<Registration>, verb: string, path: string)
    requires WellWritten(regs)
    ensures WrapperMatch(regs, verb, path) == TrieMatch(regs, verb, path) <==>
            Lookup(StaticRoutes(regs), Canonical(Segments(path)), verb).None? || path == Canonical(Segments(path))
  {
    var segs := Segments(path);
    ShortcutIsFaithfulIff(regs, verb, path);
    SegmentsHaveNoSlash(path);
    StaticSegments(path);
    if Lookup(StaticRoutes(regs), path, verb).Some? {
      StaticHitIsCanonical(regs, path, verb);
    }
    if IsStatic(path) {
      StaticChains(regs, segs, verb);
    } else if Lookup(StaticRoutes(regs), Canonical(segs), verb).Some? {
      CanonicalHit(regs, segs, verb);
    }
  }

  lemma CanonicalHit(regs: seq<Registration>, segs: seq<string>, verb: string)
    requires WellWritten(regs) && Lookup(StaticRoutes(regs), Canonical(segs), verb).Some?
    requires segs != [] && forall i :: 0 <= i < |segs| ==> '/' !in segs[i]
    ensures StaticKeys(segs)
  {
    var s := Segments(Canonical(segs));
    StaticHitIsCanonical(regs, Canonical(segs), verb);
    SegmentsHaveNoSlash(Canonical(segs));
    CanonicalIsInjective(s, segs);
  }

  lemma {:induction false} SplitHasNoSlash(s: string)
    ensures forall i :: 0 <= i < |Split(s)| ==> '/' !in Split(s)[i]
  {
    if s != "" {
      SplitHasNoSlash(s[1..]);
    }
  }

  lemma SegmentsHaveNoSlash(path: string)
    ensures forall i :: 0 <= i < |Segments(path)| ==> '/' !in Segments(path)[i]
  {
    SplitHasNoSlash(Trim(path));
  }

  /** The paths that the hash table knows are canonical and static. */
  lemma {:induction false} StaticHitIsCanonical(regs: seq<Registration>, path: string, verb: string)
    requires WellWritten(regs) && Lookup(StaticRoutes(regs), path, verb).Some?
    ensures path == Canonical(Segments(path)) && StaticKeys(Segments(path))
  {
    var front, reg := regs[..|regs| - 1], regs[|regs| - 1];
    assert forall i :: 0 <= i < |front| ==> front[i] == regs[i];
    if Lookup(StaticRoutes(front), path, verb).Some? {
      StaticHitIsCanonical(front, path, verb);
    } else {
      var s :| IsCanonical(reg.pattern, s);
      SegmentsOfCanonical(s);
      CanonicalKeys(reg, s);
      StaticIffStaticKeys(reg);
    }
  }

  /** The root is such an exception: the hash table answers it, and no trie ever does, because
      a request has at least one segment. */
  lemma RootOnlyInHashTable(chain: Chain)
    ensures var regs := [Registration("GET", "/", chain)];
            WrapperMatch(regs, "GET", "/") == Some(Found(chain, map[])) && TrieMatch(regs, "GET", "/") == None
  {
    var reg := Registration("GET", "/", chain);
    var regs := [reg];
    assert regs[..0] == [];
    assert TrimLeft("/") == "" by {
      assert "/"[1..] == "";
    }
    assert Segments("/") == [""];
    assert NonEmpty([""], 1) == [];
    assert RouteFrom(reg).keys == [];
    var r := RouteFrom(reg);
    var routes := [r];
    assert AllRoutes(regs) == AllRoutes([]) + [r];
    assert routes[..0] == [];
    forall k ensures [] + [k] !in TableOf(routes) {
      TableHoldsRoutes(routes, [k]);
      assert [] + [k] == [k];
      assert NameAt(routes, [k]) == None;
    }
  }
}
