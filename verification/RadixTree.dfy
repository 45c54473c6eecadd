/** The greedy tree as linked nodes that Add changes in place. */
module RadixTree {
  import opened Options
  import opened Paths
  import opened TrieTable
  import opened TrieRoutes
  import opened TrieWrapper
  import opened KeyTrees
  import opened RadixRoutes

  datatype NodeType = Static | Root | ParamNode | CatchAll

  /** The handlers field can hold anything: nothing, a map from methods to chains, or a chain. */
  datatype Handlers = NoHandlers | Methods(chains: map<string, Chain>) | Bare(chain: Chain)

  function ChainsOf(handlers: Handlers): map<string, Chain> {
    if handlers.Methods? then handlers.chains else map[]
  }

  /** No child stands where one with this type and path would. */
  ghost predicate IsFree(children: seq<Node>, path: string, nType: NodeType) {
    && !nType.Root? && (nType.Static? ==> path != PARAM && path != WILD)
    && forall c :: c in children ==> c.nType != nType || (nType.Static? && c.path != path)
  }

  function TypeOf(segment: string): NodeType {
    if HasPrefix(segment, ':') then ParamNode else if HasPrefix(segment, '*') then CatchAll else Static
  }

  function KeyFor(path: string, nType: NodeType): string {
    match nType
    case ParamNode => PARAM
    case CatchAll => WILD
    case _ => path
  }

  lemma KeyForSegment(segment: string)
    ensures KeyFor(PathOf(segment), TypeOf(segment)) == KeyOf(segment)
  {
  }

  class Node {
    const path: string
    const nType: NodeType
    var children: seq<Node>
    var handlers: Handlers

    constructor (path: string, nType: NodeType)
      ensures this.path == path && this.nType == nType && children == [] && handlers == NoHandlers
    {
      this.path, this.nType, children, handlers := path, nType, [], NoHandlers;
    }

    /** The key that stands for this node below its parent. */
    function Key(): string {
      KeyFor(path, nType)
    }

    /** Not a root, and static only with a segment that an ordinary pattern can have. */
    predicate Keyed() {
      !nType.Root? && (nType.Static? ==> path != PARAM && path != WILD)
    }

    method GetChild(path: string) returns (child: Node?)
      ensures child == null ==> forall c :: c in children ==> !(c.nType.Static? && c.path == path)
      ensures child != null ==> child in children && child.nType.Static? && child.path == path
    {
      for i := 0 to |children|
        invariant forall j :: 0 <= j < i ==> !(children[j].nType.Static? && children[j].path == path)
      {
        if children[i].nType.Static? && children[i].path == path {
          return children[i];
        }
      }
      return null;
    }

    method GetParamChild() returns (child: Node?)
      ensures child == null ==> forall c :: c in children ==> !c.nType.ParamNode?
      ensures child != null ==> child in children && child.nType.ParamNode?
    {
      for i := 0 to |children|
        invariant forall j :: 0 <= j < i ==> !children[j].nType.ParamNode?
      {
        if children[i].nType.ParamNode? {
          return children[i];
        }
      }
      return null;
    }

    method GetCatchAllChild() returns (child: Node?)
      ensures child == null ==> forall c :: c in children ==> !c.nType.CatchAll?
      ensures child != null ==> child in children && child.nType.CatchAll?
    {
      for i := 0 to |children|
        invariant forall j :: 0 <= j < i ==> !children[j].nType.CatchAll?
      {
        if children[i].nType.CatchAll? {
          return children[i];
        }
      }
      return null;
    }

    /** The child that insert looks for, by the kind of the segment. */
    method Find(segment: string) returns (child: Node?)
      ensures child == null ==> IsFree(children, PathOf(segment), TypeOf(segment))
      ensures child != null ==> child in children && child.Key() == KeyOf(segment)
    {
      if HasPrefix(segment, ':') {
        child := GetParamChild();
      } else if HasPrefix(segment, '*') {
        child := GetCatchAllChild();
      } else {
        child := GetChild(segment);
      }
    }
  }

  /** The children of the node at p are the nodes one key further. */
  ghost predicate Links(nodes: map<seq<string>, Node>, p: seq<string>, children: seq<Node>) {
    && (forall c :: c in children ==> c.Keyed() && p + [c.Key()] in nodes && nodes[p + [c.Key()]] == c)
    && (forall k :: p + [k] in nodes ==> nodes[p + [k]] in children && nodes[p + [k]].Key() == k)
  }

  lemma LinksGrow(nodes: map<seq<string>, Node>, p: seq<string>, child: Node, o: seq<string>, children: seq<Node>)
    requires Links(nodes, o, children) && child.Keyed() && p + [child.Key()] !in nodes
    ensures Links(nodes[p + [child.Key()] := child], o, if o == p then children + [child] else children)
  {
    forall k ensures o + [k] == p + [child.Key()] <==> o == p && k == child.Key() {
      Snoc(o, k, p, child.Key());
    }
  }

  lemma FreeKey(nodes: map<seq<string>, Node>, p: seq<string>, children: seq<Node>, child: Node)
    requires Links(nodes, p, children) && IsFree(children, child.path, child.nType)
    ensures child.Keyed() && p + [child.Key()] !in nodes
  {
    forall c | c in children ensures c.Key() != child.Key() {
      assert c.Keyed();
    }
  }

  // ----- the loop of insert -----

  /** After i segments, none of them a wildcard, the loop stands at p and the table has grown to u. */
  ghost predicate At(segments: seq<string>, r: Route, t: Table, i: nat, p: seq<string>, u: Table)
    requires i <= |segments|
  {
    && r == RadixRoute(r.verb, segments, r.chain) && Used(segments, 0) == Used(segments, i)
    && |p| == i && p == r.keys[..i] && !EndsWild(p) && u == Grow(t, r, i)
  }

  lemma AtStart(segments: seq<string>, r: Route, t: Table)
    requires r == RadixRoute(r.verb, segments, r.chain)
    ensures At(segments, r, t, 0, [], t)
  {
  }

  lemma {:induction false} AtStep(segments: seq<string>, r: Route, t: Table, i: nat, p: seq<string>, u: Table)
    requires i < |segments| && At(segments, r, t, i, p, u)
    ensures var q := p + [KeyOf(segments[i])];
            var v := With(u, q, PathOf(segments[i]));
            if HasPrefix(segments[i], '*') then q == r.keys && EndsWild(q) && v == Grow(t, r, |r.keys|)
            else At(segments, r, t, i + 1, q, v)
  {
    var n := Used(segments, 0);
    assert i < n && segments[..n][i] == segments[i];
    assert r.keys[i] == KeyOf(segments[i]) && r.names[i] == PathOf(segments[i]);
    GrowStep(t, r, i);
    if HasPrefix(segments[i], '*') {
      assert r.keys[..i + 1] == r.keys;
    }
  }

  lemma AtEnd(segments: seq<string>, r: Route, t: Table, p: seq<string>, u: Table)
    requires At(segments, r, t, |segments|, p, u)
    ensures p == r.keys && !EndsWild(p) && u == Grow(t, r, |r.keys|)
  {
  }

  lemma {:induction false} CatchAllStaysEmpty(regs: seq<Registration>, p: seq<string>)
    requires EndsWild(p) && p in RadixTable(regs)
    ensures RadixTable(regs)[p].handlers == map[]
  {
    if regs != [] {
      var front, reg := regs[..|regs| - 1], regs[|regs| - 1];
      if p in RadixTable(front) {
        CatchAllStaysEmpty(front, p);
      }
      GrowAt(RadixTable(front), RadixFrom(reg), p);
      GrowAt(RadixTable(front), RadixFrom(reg), RadixFrom(reg).keys);
    }
  }

  lemma TableAfter(regs: seq<Registration>, reg: Registration)
    requires !IsStatic(reg.pattern)
    ensures var r := RadixFrom(reg);
            var grown := Grow(RadixTable(regs), r, |r.keys|);
            && r.keys in grown
            && RadixTable(regs + [reg]) ==
               (if EndsWild(r.keys) then grown else SetHandler(grown, r.keys, r.verb, r.chain))
            && (EndsWild(r.keys) ==> grown[r.keys].handlers == map[])
  {
    var r := RadixFrom(reg);
    assert (regs + [reg])[..|regs|] == regs;
    GrowAt(RadixTable(regs), r, r.keys);
    if EndsWild(r.keys) {
      CatchAllStaysEmpty(regs + [reg], r.keys);
    }
  }

  class RadixTree {
    const root: Node
    var cache: StaticTable
    ghost var nodes: map<seq<string>, Node>
    ghost var repr: set<Node>
    ghost var regs: seq<Registration>

    ghost predicate Rooted()
      reads this`nodes, this`repr
    {
      [] in nodes && nodes[[]] == root && root in repr
    }

    ghost predicate Linked()
      reads this`nodes, this`repr, repr
    {
      forall p :: p in nodes ==> nodes[p] in repr && Links(nodes, p, nodes[p].children)
    }

    /** The nodes carry what the table says. */
    ghost predicate Shows(t: Table)
      reads this`nodes, this`repr, repr
    {
      && (forall p :: p in t <==> p in nodes)
      && (forall p :: p in nodes ==> nodes[p] in repr && (p != [] ==> t[p].paramName == nodes[p].path) &&
                                     t[p].handlers == ChainsOf(nodes[p].handlers))
    }

    ghost predicate Valid()
      reads this, repr
    {
      && Rooted() && Linked() && IsTree(nodes)
      && Shows(RadixTable(regs)) && cache == StaticRoutes(regs)
    }

    constructor ()
      ensures Valid() && regs == [] && fresh(repr)
    {
      root := new Node("/", Root);
      cache := map[];
      new;
      nodes, repr, regs := map[[] := root], {root}, [];
    }

    /** A new child at the end of the list of children. */
    method Append(current: Node, path: string, nType: NodeType, ghost p: seq<string>) returns (child: Node)
      requires Rooted() && Linked() && IsTree(nodes) && p in nodes && nodes[p] == current
      requires IsFree(current.children, path, nType)
      modifies this`nodes, this`repr, current`children
      ensures Rooted() && Linked() && IsTree(nodes) && fresh(child)
      ensures child.path == path && child.nType == nType && child.handlers == NoHandlers
      ensures p + [child.Key()] !in old(nodes)
      ensures nodes == old(nodes)[p + [child.Key()] := child] && repr == old(repr) + {child}
    {
      child := new Node(path, nType);
      assert Links(nodes, p, current.children);
      ghost var q := p + [child.Key()];
      FreeKey(nodes, p, current.children, child);
      current.children := current.children + [child];
      nodes, repr := nodes[q := child], repr + {child};
      TreeGrows(old(nodes), p, child.Key(), child);
      assert Linked() by {
        forall o | o in old(nodes) ensures Links(nodes, o, nodes[o].children) {
          LinksGrow(old(nodes), p, child, o, old(nodes[o].children));
        }
      }
    }

    /** Append, as seen by the table. */
    method AppendTo(current: Node, path: string, nType: NodeType, ghost p: seq<string>, ghost t: Table)
      returns (child: Node)
      requires Rooted() && Linked() && IsTree(nodes) && Shows(t) && p in nodes && nodes[p] == current
      requires IsFree(current.children, path, nType)
      modifies this`nodes, this`repr, current`children
      ensures Rooted() && Linked() && IsTree(nodes) && fresh(repr - old(repr)) && child in repr
      ensures p + [KeyFor(path, nType)] in nodes && nodes[p + [KeyFor(path, nType)]] == child
      ensures Shows(With(t, p + [KeyFor(path, nType)], path))
    {
      hide Links, IsTree, IsFree;
      child := Append(current, path, nType, p);
    }

    /** The child for a segment, appended if it is missing. */
    method ChildFor(current: Node, segment: string, ghost p: seq<string>, ghost t: Table) returns (child: Node)
      requires Rooted() && Linked() && IsTree(nodes) && Shows(t) && p in nodes && nodes[p] == current
      modifies this`nodes, this`repr, current`children
      ensures Rooted() && Linked() && IsTree(nodes) && fresh(repr - old(repr)) && child in repr
      ensures p + [KeyOf(segment)] in nodes && nodes[p + [KeyOf(segment)]] == child
      ensures Shows(With(t, p + [KeyOf(segment)], PathOf(segment)))
    {
      assert Links(nodes, p, current.children) && nodes[p] in repr;
      hide IsTree, KeyOf, PathOf, TypeOf, IsFree, Linked;
      var found := current.Find(segment);
      if found == null {
        KeyForSegment(segment);
        child := AppendTo(current, PathOf(segment), TypeOf(segment), p, t);
      } else {
        child := found;
      }
    }

    /** Any change of one node's handlers, as seen by the table. */
    method SetHandlers(leaf: Node, handlers: Handlers, ghost p: seq<string>, ghost t: Table)
      requires Linked() && IsTree(nodes) && Shows(t) && p in nodes && nodes[p] == leaf
      modifies leaf`handlers
      ensures Linked() && Shows(t[p := t[p].(handlers := ChainsOf(handlers))])
    {
      hide Links, ChainsOf;
      leaf.handlers := handlers;
      ghost var u := t[p := t[p].(handlers := ChainsOf(handlers))];
      forall q | q in nodes ensures u[q].handlers == ChainsOf(nodes[q].handlers) && u[q].paramName == t[q].paramName {
        if q != p {
          assert nodes[q] != leaf;
        }
      }
    }

    /** The end of a pattern: the chain of a method, in a map that is made if there is none. */
    method SetMethod(leaf: Node, verb: string, chain: Chain, ghost p: seq<string>, ghost t: Table)
      requires Linked() && IsTree(nodes) && Shows(t) && p in nodes && nodes[p] == leaf
      modifies leaf`handlers
      ensures Linked() && Shows(SetHandler(t, p, verb, chain))
    {
      hide Linked, IsTree;
      var chains := match leaf.handlers
                    case Methods(existing) => existing[verb := chain]
                    case _ => map[verb := chain];
      assert chains == ChainsOf(leaf.handlers)[verb := chain] == t[p].handlers[verb := chain];
      SetHandlers(leaf, Methods(chains), p, t);
    }

    /** A catch-all node gets the bare chain, which no search can use. */
    method SetBare(leaf: Node, chain: Chain, ghost p: seq<string>, ghost t: Table)
      requires Linked() && IsTree(nodes) && Shows(t)
      requires p in nodes && nodes[p] == leaf && p in t && t[p].handlers == map[]
      modifies leaf`handlers
      ensures Linked() && Shows(t)
    {
      hide Linked, IsTree, Shows;
      SetHandlers(leaf, Bare(chain), p, t);
      assert t[p].(handlers := map[]) == t[p] && t[p := t[p]] == t;
    }

    method Insert(verb: string, path: string, chain: Chain)
      requires Valid() && !IsStatic(path)
      modifies this`nodes, this`repr, this`regs, repr
      ensures Valid() && fresh(repr - old(repr))
      ensures regs == old(regs) + [Registration(verb, path, chain)]
    {
      hide IsTree, Linked, Shows, At, With, RadixTable, Grow, SetHandler, EndsWild, KeyOf, PathOf, IsStatic, Segments;
      hide StaticRoutes;
      ghost var reg := Registration(verb, path, chain);
      var segments := Segments(path);
      ghost var r, t := RadixFrom(reg), RadixTable(regs);
      TableAfter(regs, reg);
      StaticAfter(regs, reg);
      var current := root;
      ghost var p, u := [], t;
      AtStart(segments, r, t);
      for i := 0 to |segments|
        invariant Rooted() && Linked() && IsTree(nodes) && fresh(repr - old(repr)) && regs == old(regs)
        invariant At(segments, r, t, i, p, u) && p in nodes && current == nodes[p] && current in repr
        invariant if i < |segments| then Shows(u) else p in u && Shows(SetHandler(u, p, verb, chain))
      {
        AtStep(segments, r, t, i, p, u);
        var child := ChildFor(current, segments[i], p, u);
        p, u := p + [KeyOf(segments[i])], With(u, p + [KeyOf(segments[i])], PathOf(segments[i]));
        if HasPrefix(segments[i], '*') {
          SetBare(child, chain, p, u);
          regs := regs + [reg];
          return;
        }
        current := child;
        if i == |segments| - 1 {
          AtEnd(segments, r, t, p, u);
          SetMethod(current, verb, chain, p, u);
        }
      }
      AtEnd(segments, r, t, p, u);
      regs := regs + [reg];
    }

    method Add(verb: string, path: string, chain: Chain)
      requires Valid()
      modifies this, repr
      ensures Valid() && fresh(repr - old(repr))
      ensures regs == old(regs) + [Registration(verb, path, chain)]
    {
      hide Linked, Shows, IsTree, RadixTable, StaticRoutes, IsStatic;
      if IsStatic(path) {
        ghost var reg := Registration(verb, path, chain);
        StaticOnly(regs, reg);
        if path !in cache {
          cache := cache[path := map[]];
        }
        cache := cache[path := cache[path][verb := chain]];
        regs := regs + [reg];
      } else {
        Insert(verb, path, chain);
      }
    }

    /** search, below the node at p. */
    method SearchFrom(node: Node, verb: string, segments: seq<string>, index: nat, params: Params,
                      ghost p: seq<string>, ghost t: Table) returns (r: Option<Found>)
      requires Linked() && Shows(t) && p in nodes && nodes[p] == node && index == |p| <= |segments|
      ensures p in t && r == RadixSearch(t, segments, verb, params, p)
      decreases |segments| - index, 1
    {
      if index == |segments| {
        if node.handlers.Methods? {
          if verb in node.handlers.chains {
            return Some(Found(node.handlers.chains[verb], params));
          }
        }
        return None;
      }
      assert Links(nodes, p, node.children) && (p + [segments[index]] in t <==> p + [segments[index]] in nodes);
      hide Linked, Shows;
      var seg := segments[index];
      var exact := node.GetChild(seg);
      if exact != null {
        assert exact.Key() == seg;
        r := SearchFrom(exact, verb, segments, index + 1, params, p + [seg], t);
        return;
      }
      r := SearchParam(node, verb, segments, index, params, p, t);
      if r.Some? {
        return;
      }
      r := SearchRest(node, verb, segments, index, params, p, t);
    }

    /** The second loop of search: below the parameter child. */
    method SearchParam(node: Node, verb: string, segments: seq<string>, index: nat, params: Params,
                       ghost p: seq<string>, ghost t: Table) returns (r: Option<Found>)
      requires Linked() && Shows(t) && p in nodes && nodes[p] == node && index == |p| < |segments|
      ensures var q := p + [PARAM];
              r == if q in t then RadixSearch(t, segments, verb, params[t[q].paramName := segments[index]], q) else None
      decreases |segments| - index, 0
    {
      hide RadixSearch;
      assert Links(nodes, p, node.children);
      ghost var q := p + [PARAM];
      for i := 0 to |node.children|
        invariant (forall j :: 0 <= j < i ==> !node.children[j].nType.ParamNode?) ||
                  (q in t && RadixSearch(t, segments, verb, params[t[q].paramName := segments[index]], q) == None)
      {
        var child := node.children[i];
        if child.nType.ParamNode? {
          assert child in node.children && child.Key() == PARAM;
          r := SearchFrom(child, verb, segments, index + 1, params[child.path := segments[index]], q, t);
          if r.Some? {
            return;
          }
        }
      }
      return None;
    }

    /** The third loop of search: the catch-all child takes what remains. */
    method SearchRest(node: Node, verb: string, segments: seq<string>, index: nat, params: Params,
                      ghost p: seq<string>, ghost t: Table) returns (r: Option<Found>)
      requires Linked() && Shows(t) && p in nodes && nodes[p] == node && index < |segments|
      ensures var w := p + [WILD];
              r == if w in t && verb in t[w].handlers
                   then Some(Found(t[w].handlers[verb], params[t[w].paramName := Join(segments[index..])])) else None
    {
      assert Links(nodes, p, node.children);
      for i := 0 to |node.children|
        invariant forall j :: 0 <= j < i ==> !node.children[j].nType.CatchAll?
      {
        var child := node.children[i];
        if child.nType.CatchAll? {
          assert child in node.children && child.Key() == WILD;
          var newParams := params[child.path := Join(segments[index..])];
          if child.handlers.Methods? {
            if verb in child.handlers.chains {
              return Some(Found(child.handlers.chains[verb], newParams));
            }
          }
          return None;
        }
      }
      return None;
    }

    method Get(verb: string, path: string) returns (r: Option<Found>)
      requires Valid()
      ensures r == RadixGet(regs, verb, path)
    {
      if path in cache {
        if verb in cache[path] {
          return Some(Found(cache[path][verb], map[]));
        }
      }
      r := SearchFrom(root, verb, Segments(path), 0, map[], [], RadixTable(regs));
    }
  }

  lemma StaticOnly(regs: seq<Registration>, reg: Registration)
    requires IsStatic(reg.pattern)
    ensures RadixTable(regs + [reg]) == RadixTable(regs)
    ensures StaticRoutes(regs + [reg]) == AddStatic(StaticRoutes(regs), reg)
  {
    assert (regs + [reg])[..|regs|] == regs;
  }

  lemma StaticAfter(regs: seq<Registration>, reg: Registration)
    requires !IsStatic(reg.pattern)
    ensures StaticRoutes(regs + [reg]) == StaticRoutes(regs)
  {
    assert (regs + [reg])[..|regs|] == regs;
  }
}
