/** Registered routes, the table they build, and the search in terms of patterns. */
module TrieRoutes {
  import opened Options
  import opened Paths
  import opened TrieTable

  /** A pattern as keys and names: ":id" has key ":" and name "id", "*rest" has key "*" and
      name "rest", any other segment is its own key. */
  datatype Registered = Route(verb: string, keys: seq<string>, names: seq<string>, chain: Chain)

  type Route = r: Registered | |r.keys| == |r.names| witness Route("", [], [], [])

  function KeyOf(segment: string): string {
    if HasPrefix(segment, ':') then PARAM else if HasPrefix(segment, '*') then WILD else segment
  }

  function NameOf(segment: string): string {
    if HasPrefix(segment, ':') || HasPrefix(segment, '*') then segment[1..] else ""
  }

  /** The first n segments without the empty ones, which are skipped. */
  function NonEmpty(segments: seq<string>, n: nat): seq<string>
    requires n <= |segments|
  {
    if n == 0 then []
    else
      var rest := NonEmpty(segments, n - 1);
      if segments[n - 1] == "" then rest else rest + [segments[n - 1]]
  }

  lemma {:induction false} KeepsAll(segments: seq<string>, n: nat)
    requires n <= |segments| && forall i :: 0 <= i < |segments| ==> segments[i] != ""
    ensures NonEmpty(segments, n) == segments[..n]
  {
    if n > 0 {
      KeepsAll(segments, n - 1);
      assert segments[..n] == segments[..n - 1] + [segments[n - 1]];
    }
  }

  function Keys(segments: seq<string>): (r: seq<string>)
    ensures |r| == |segments|
  {
    seq(|segments|, i requires 0 <= i < |segments| => KeyOf(segments[i]))
  }

  function Names(segments: seq<string>): (r: seq<string>)
    ensures |r| == |segments|
  {
    seq(|segments|, i requires 0 <= i < |segments| => NameOf(segments[i]))
  }

  function RouteFor(verb: string, segments: seq<string>, chain: Chain): Route {
    var s := NonEmpty(segments, |segments|);
    Route(verb, Keys(s), Names(s), chain)
  }

  function RouteOf(verb: string, pattern: string, chain: Chain): Route {
    RouteFor(verb, Segments(pattern), chain)
  }

  // ----- building the table -----

  /** Creates what is missing on the way along the first n keys; an existing node keeps the
      name it was created with. */
  function Grow(t: Table, r: Route, n: nat): Table
    requires n <= |r.keys|
  {
    if n == 0 then t
    else
      var u := Grow(t, r, n - 1);
      if r.keys[..n] in u then u else u[r.keys[..n] := Info(r.names[n - 1], map[])]
  }

  /** The table with a node at p, which gets the name if it is new. */
  ghost function With(t: Table, p: seq<string>, name: string): Table {
    if p in t then t else t[p := Info(name, map[])]
  }

  lemma GrowStep(t: Table, r: Route, n: nat)
    requires n < |r.keys|
    ensures r.keys[..n] + [r.keys[n]] == r.keys[..n + 1]
    ensures Grow(t, r, n + 1) == With(Grow(t, r, n), r.keys[..n] + [r.keys[n]], r.names[n])
  {
    assert r.keys[..n] + [r.keys[n]] == r.keys[..n + 1];
  }

  function SetHandler(t: Table, p: seq<string>, verb: string, chain: Chain): Table
    requires p in t
  {
    t[p := t[p].(handlers := t[p].handlers[verb := chain])]
  }

  const EMPTY: Table := map[[] := Info("", map[])]

  /** The place p after the first n keys of a route. */
  ghost predicate Grown(t: Table, r: Route, n: nat, p: seq<string>)
    requires n <= |r.keys|
  {
    var u := Grow(t, r, n);
    && (p in u <==> p in t || (|p| <= n && p == r.keys[..|p|]))
    && (p in t ==> u[p] == t[p])
    && (p in u && p !in t ==> p != [] && u[p] == Info(r.names[|p| - 1], map[]))
  }

  lemma {:induction false} GrownAt(t: Table, r: Route, n: nat, p: seq<string>)
    requires n <= |r.keys| && [] in t
    ensures Grown(t, r, n, p)
  {
    if n != 0 {
      GrownAt(t, r, n - 1, p);
      GrownAt(t, r, n - 1, r.keys[..n]);
      assert |r.keys[..n]| == n;
    } else {
      assert |p| <= 0 ==> p == [];
    }
  }

  predicate StartsWith(keys: seq<string>, p: seq<string>) {
    |p| <= |keys| && p == keys[..|p|]
  }

  /** What the full path of a route adds, seen at one place. */
  lemma GrowAt(t: Table, r: Route, p: seq<string>)
    requires [] in t
    ensures var u := Grow(t, r, |r.keys|);
            && (p in u <==> p in t || StartsWith(r.keys, p))
            && (p in t ==> u[p] == t[p])
            && (p in u && p !in t ==> p != [] && u[p] == Info(r.names[|p| - 1], map[]))
  {
    GrownAt(t, r, |r.keys|, p);
  }

  function Insert(t: Table, r: Route): (u: Table)
    requires [] in t
    ensures [] in u
  {
    GrowAt(t, r, []);
    GrowAt(t, r, r.keys);
    SetHandler(Grow(t, r, |r.keys|), r.keys, r.verb, r.chain)
  }

  function TableOf(routes: seq<Route>): (t: Table)
    ensures [] in t
  {
    if routes == [] then EMPTY else Insert(TableOf(routes[..|routes| - 1]), routes[|routes| - 1])
  }

  // ----- what the table holds, in terms of the routes -----

  /** The chain registered last for exactly these keys and this method. */
  function ChainAt(routes: seq<Route>, p: seq<string>, verb: string): Option<Chain> {
    if routes == [] then None
    else
      var last := routes[|routes| - 1];
      if last.keys == p && last.verb == verb then Some(last.chain)
      else ChainAt(routes[..|routes| - 1], p, verb)
  }

  /** The name given to the node at p by the first route that passes through it. */
  function NameAt(routes: seq<Route>, p: seq<string>): Option<string>
  {
    if routes == [] || p == [] then None
    else
      var first := NameAt(routes[..|routes| - 1], p);
      var last := routes[|routes| - 1];
      if first.Some? then first
      else if StartsWith(last.keys, p) then Some(last.names[|p| - 1]) else None
  }

  lemma ChainAtStep(routes: seq<Route>, r: Route, p: seq<string>, verb: string)
    ensures ChainAt(routes + [r], p, verb) ==
            if r.keys == p && r.verb == verb then Some(r.chain) else ChainAt(routes, p, verb)
  {
    assert (routes + [r])[..|routes|] == routes;
  }

  lemma NameAtStep(routes: seq<Route>, r: Route, p: seq<string>)
    ensures NameAt(routes + [r], p) ==
            if NameAt(routes, p).None? && p != [] && StartsWith(r.keys, p) then Some(r.names[|p| - 1])
            else NameAt(routes, p)
  {
    assert (routes + [r])[..|routes|] == routes;
  }

  ghost predicate Holds(t: Table, routes: seq<Route>, p: seq<string>)
  {
    && (p in t <==> p == [] || NameAt(routes, p).Some?)
    && (p in t && p != [] ==> NameAt(routes, p) == Some(t[p].paramName))
    && forall m :: ChainAt(routes, p, m) ==
                   if p in t && m in t[p].handlers then Some(t[p].handlers[m]) else None
  }

  /** The trie is the list of routes: its nodes are the prefixes of the patterns, a node keeps
      the name of the first route through it and the chain of the last route that ends in it. */
  lemma {:induction false} TableHoldsRoutes(routes: seq<Route>, p: seq<string>)
    ensures Holds(TableOf(routes), routes, p)
  {
    if routes != [] {
      var front, r := routes[..|routes| - 1], routes[|routes| - 1];
      TableHoldsRoutes(front, p);
      GrowAt(TableOf(front), r, p);
      GrowAt(TableOf(front), r, r.keys);
    } else {
      assert p in EMPTY <==> p == [];
    }
  }
}
