/** The trie router as linked nodes that AddRoute changes in place. */
module TrieRouter {
  import opened Options
  import opened Paths
  import opened TrieTable
  import opened TrieRoutes
  import opened KeyTrees

  class TrieNode {
    var children: map<string, TrieNode>
    var handlers: map<string, Chain>
    var paramName: string

    constructor (paramName: string)
      ensures children == map[] && handlers == map[] && this.paramName == paramName
    {
      children, handlers, this.paramName := map[], map[], paramName;
    }
  }

  /** The children of the node at p are the nodes one key further. */
  ghost predicate Links(nodes: map<seq<string>, TrieNode>, p: seq<string>, children: map<string, TrieNode>) {
    forall k :: if p + [k] in nodes then k in children && children[k] == nodes[p + [k]] else k !in children
  }

  lemma LinksGrow(nodes: map<seq<string>, TrieNode>, p: seq<string>, key: string, child: TrieNode,
                  o: seq<string>, children: map<string, TrieNode>)
    requires Links(nodes, o, children)
    ensures Links(nodes[p + [key] := child], o, if o == p then children[key := child] else children)
  {
    forall k ensures o + [k] == p + [key] <==> o == p && k == key {
      Snoc(o, k, p, key);
    }
  }

  /** After i segments the loop of AddRoute stands at p, and the table has grown to u. */
  ghost predicate Reached(segments: seq<string>, r: Route, t: Table, i: nat, p: seq<string>, u: Table)
    requires i <= |segments|
  {
    && Keys(NonEmpty(segments, |segments|)) == r.keys && Names(NonEmpty(segments, |segments|)) == r.names
    && |p| == |NonEmpty(segments, i)| <= |r.keys|
    && p == r.keys[..|p|] && u == Grow(t, r, |p|)
  }

  lemma WalkStart(segments: seq<string>, r: Route, t: Table)
    requires r == RouteFor(r.verb, segments, r.chain)
    ensures Reached(segments, r, t, 0, [], t)
  {
  }

  lemma RouteStep(segments: seq<string>, i: nat)
    requires i < |segments| && segments[i] != ""
    ensures var n, all := |NonEmpty(segments, i)|, NonEmpty(segments, |segments|);
            |NonEmpty(segments, i + 1)| == n + 1 <= |all| && all[n] == segments[i]
  {
    NonEmptyPrefix(segments, i + 1, |segments|);
    assert NonEmpty(segments, i + 1)[|NonEmpty(segments, i)|] == segments[i];
  }

  lemma {:induction false} WalkStep(segments: seq<string>, r: Route, t: Table, i: nat, p: seq<string>, u: Table)
    requires i < |segments| && Reached(segments, r, t, i, p, u)
    ensures var q := p + [KeyOf(segments[i])];
            if segments[i] == "" then Reached(segments, r, t, i + 1, p, u)
            else Reached(segments, r, t, i + 1, q, With(u, q, NameOf(segments[i])))
  {
    if segments[i] != "" {
      RouteStep(segments, i);
      GrowStep(t, r, |p|);
    }
  }

  lemma WalkEnd(segments: seq<string>, r: Route, t: Table, p: seq<string>, u: Table)
    requires Reached(segments, r, t, |segments|, p, u)
    ensures p == r.keys && u == Grow(t, r, |r.keys|)
  {
  }

  class TrieRouter {
    const root: TrieNode
    var middlewares: Chain
    /** Every node under the keys that lead to it from the root. */
    ghost var nodes: map<seq<string>, TrieNode>
    ghost var repr: set<TrieNode>
    ghost var routes: seq<Route>

    ghost predicate Rooted()
      reads this`nodes, this`repr
    {
      [] in nodes && nodes[[]] == root && root in repr
    }

    ghost predicate Linked()
      reads this`nodes, this`repr, repr
    {
      forall p :: p in nodes ==> nodes[p] in repr && Links(nodes, p, nodes[p].children)
    }

    /** The nodes carry what the table says. */
    ghost predicate Shows(t: Table)
      reads this`nodes, this`repr, repr
    {
      && (forall p :: p in t <==> p in nodes)
      && (forall p :: p in nodes ==> nodes[p] in repr && t[p] == Info(nodes[p].paramName, nodes[p].handlers))
    }

    ghost predicate Valid()
      reads this, repr
    {
      && Rooted()
      && Linked() && IsTree(nodes) && Shows(TableOf(routes))
    }

    constructor ()
      ensures Valid() && routes == [] && middlewares == []
      ensures fresh(repr)
    {
      root := new TrieNode("");
      middlewares := [];
      nodes, repr := map[[] := root], {root};
      routes := [];
      new;
      assert TableOf(routes) == EMPTY;
    }

    method Use(added: seq<Handler>)
      requires Valid()
      modifies this`middlewares
      ensures Valid() && middlewares == old(middlewares) + added
    {
      middlewares := middlewares + added;
    }

    method AddRoute(verb: string, pattern: string, handler: Handler)
      requires Valid()
      modifies this, repr
      ensures Valid() && fresh(repr - old(repr))
      ensures middlewares == old(middlewares)
      ensures routes == old(routes) + [RouteOf(verb, pattern, middlewares + [handler])]
    {
      hide IsTree, Linked, Shows, TableOf, SetHandler, Grow, Keys, Names, NonEmpty, Segments;
      var chain := middlewares + [handler];
      var segments := Segments(pattern);
      ghost var r := RouteFor(verb, segments, chain);
      ghost var t := TableOf(routes);
      var leaf := Walk(segments, r, t);
      TableAfter(routes, r);
      Store(leaf, verb, chain, r.keys, Grow(t, r, |r.keys|));
      routes := routes + [r];
    }

    /** The loop of AddRoute: down the path of the pattern, creating what is missing. */
    method Walk(segments: seq<string>, ghost r: Route, ghost t: Table) returns (current: TrieNode)
      requires Linked() && IsTree(nodes) && Shows(t)
      requires r == RouteFor(r.verb, segments, r.chain) && Rooted()
      modifies this`nodes, this`repr, repr`children
      ensures Linked() && IsTree(nodes) && fresh(repr - old(repr))
      ensures Rooted()
      ensures Shows(Grow(t, r, |r.keys|)) && r.keys in nodes && current == nodes[r.keys] && current in repr
    {
      hide IsTree, Linked, Shows, Reached, With;
      current := root;
      ghost var p, u := [], t;
      WalkStart(segments, r, t);
      for i := 0 to |segments|
        invariant Rooted() && Linked() && IsTree(nodes) && fresh(repr - old(repr))
        invariant Reached(segments, r, t, i, p, u) && Shows(u)
        invariant p in nodes && current == nodes[p] && current in repr
      {
        WalkStep(segments, r, t, i, p, u);
        if segments[i] != "" {
          current := Child(current, KeyOf(segments[i]), NameOf(segments[i]), p, u);
          p, u := p + [KeyOf(segments[i])], With(u, p + [KeyOf(segments[i])], NameOf(segments[i]));
        }
      }
      WalkEnd(segments, r, t, p, u);
    }

    /** The child under a key, created with its name if it is missing. */
    method Child(current: TrieNode, key: string, name: string, ghost p: seq<string>, ghost t: Table)
      returns (child: TrieNode)
      requires Rooted() && Linked() && IsTree(nodes) && Shows(t) && p in nodes && nodes[p] == current
      modifies this`nodes, this`repr, current`children
      ensures Linked() && IsTree(nodes) && fresh(repr - old(repr))
      ensures p + [key] in nodes && nodes[p + [key]] == child && child in repr
      ensures Rooted()
      ensures Shows(With(t, p + [key], name))
    {
      assert Links(nodes, p, current.children) && nodes[p] in repr;
      hide IsTree, Linked;
      if key !in current.children {
        child := CreateIn(current, key, name, p, t);
      } else {
        child := current.children[key];
      }
    }

    /** Create, as seen by the table. */
    method CreateIn(current: TrieNode, key: string, name: string, ghost p: seq<string>, ghost t: Table)
      returns (child: TrieNode)
      requires Rooted() && Linked() && IsTree(nodes) && Shows(t) && p in nodes && nodes[p] == current
      requires key !in current.children
      modifies this`nodes, this`repr, current`children
      ensures Rooted() && Linked() && IsTree(nodes) && fresh(repr - old(repr)) && child in repr
      ensures p + [key] in nodes && nodes[p + [key]] == child && p + [key] !in t
      ensures Shows(With(t, p + [key], name))
    {
      hide Links, IsTree;
      child := Create(current, key, name, p);
    }

    /** A new node, linked under a key that was free. */
    method Create(current: TrieNode, key: string, name: string, ghost p: seq<string>)
      returns (child: TrieNode)
      requires Linked() && IsTree(nodes) && p in nodes && nodes[p] == current
      requires key !in current.children
      modifies this`nodes, this`repr, current`children
      ensures Linked() && IsTree(nodes) && fresh(child) && p + [key] !in old(nodes)
      ensures nodes == old(nodes)[p + [key] := child] && repr == old(repr) + {child}
      ensures child.paramName == name && child.handlers == map[]
    {
      child := new TrieNode(name);
      assert Links(nodes, p, current.children);
      ghost var q := p + [key];
      current.children := current.children[key := child];
      nodes, repr := nodes[q := child], repr + {child};
      TreeGrows(old(nodes), p, key, child);
      assert Linked() by {
        forall o | o in old(nodes) ensures Links(nodes, o, nodes[o].children) {
          LinksGrow(old(nodes), p, key, child, o, old(nodes[o].children));
        }
      }
    }

    /** The leaf gets the chain of the method. */
    method Store(leaf: TrieNode, verb: string, chain: Chain, ghost p: seq<string>, ghost t: Table)
      requires Linked() && IsTree(nodes) && Shows(t) && p in nodes && nodes[p] == leaf
      modifies leaf`handlers
      ensures Linked() && Shows(SetHandler(t, p, verb, chain))
    {
      hide Links;
      leaf.handlers := leaf.handlers[verb := chain];
      ghost var u := SetHandler(t, p, verb, chain);
      forall o | o in nodes ensures u[o] == Info(nodes[o].paramName, nodes[o].handlers) {
        if o != p {
          assert nodes[o] != leaf;
        }
      }
    }

    /** matchRecursive, below the node at p. */
    method MatchRecursive(segments: seq<string>, index: nat, verb: string, params: Params, node: TrieNode,
                          ghost p: seq<string>, ghost t: Table)
      returns (r: Option<Found>)
      requires Linked() && Shows(t) && p in nodes && nodes[p] == node && index <= |segments|
      ensures r == Search(t, segments, index, verb, params, p)
      decreases |segments| - index
    {
      if index == |segments| {
        if verb in node.handlers {
          return Some(Found(node.handlers[verb], params));
        }
        return None;
      }
      assert Links(nodes, p, node.children);
      var segment := segments[index];
      if segment in node.children {
        r := MatchRecursive(segments, index + 1, verb, params, node.children[segment], p + [segment], t);
        if r.Some? {
          return;
        }
      }
      if PARAM in node.children {
        var child := node.children[PARAM];
        var newParams := params[child.paramName := segment];
        r := MatchRecursive(segments, index + 1, verb, newParams, child, p + [PARAM], t);
        if r.Some? {
          return;
        }
      }
      if WILD in node.children {
        var child := node.children[WILD];
        var newParams := params[child.paramName := Join(segments[index..])];
        if verb in child.handlers {
          return Some(Found(child.handlers[verb], newParams));
        }
      }
      return None;
    }

    method Match(verb: string, path: string) returns (r: Option<Found>)
      requires Valid()
      ensures r == Search(TableOf(routes), Segments(path), 0, verb, map[], [])
    {
      var segments := Segments(path);
      r := MatchRecursive(segments, 0, verb, map[], root, [], TableOf(routes));
    }
  }

  lemma TableAfter(routes: seq<Route>, r: Route)
    ensures var grown := Grow(TableOf(routes), r, |r.keys|);
            r.keys in grown && TableOf(routes + [r]) == SetHandler(grown, r.keys, r.verb, r.chain)
  {
    GrowAt(TableOf(routes), r, r.keys);
    assert (routes + [r])[..|routes|] == routes;
  }

  lemma {:induction false} NonEmptyPrefix(segments: seq<string>, i: nat, j: nat)
    requires i <= j <= |segments|
    ensures var a, b := NonEmpty(segments, i), NonEmpty(segments, j); |a| <= |b| && a == b[..|a|]
    decreases j
  {
    if i < j {
      NonEmptyPrefix(segments, i, j - 1);
    }
  }
}
