/** Trees of linked nodes, described by the keys that lead from the root to each node. */
module KeyTrees {

  /** Each node is reached in one way only, through its ancestors. */
  ghost predicate IsTree<Node>(nodes: map<seq<string>, Node>) {
    && (forall p, k :: p + [k] in nodes ==> p in nodes)
    && (forall p, q :: p in nodes && q in nodes && nodes[p] == nodes[q] ==> p == q)
  }

  lemma Snoc(p: seq<string>, k: string, q: seq<string>, j: string)
    ensures p + [k] == q + [j] <==> p == q && k == j
  {
    if p + [k] == q + [j] {
      assert (p + [k])[..|p|] == p && (q + [j])[..|q|] == q;
      assert (p + [k])[|p|] == k && (q + [j])[|q|] == j;
    }
  }

  /** A new child under a key that was free. */
  lemma TreeGrows<Node>(nodes: map<seq<string>, Node>, p: seq<string>, key: string, child: Node)
    requires IsTree(nodes) && p in nodes && p + [key] !in nodes && child !in nodes.Values
    ensures IsTree(nodes[p + [key] := child])
    ensures forall k :: p + [key] + [k] !in nodes[p + [key] := child]
  {
    forall o, k ensures o + [k] == p + [key] <==> o == p && k == key {
      Snoc(o, k, p, key);
    }
    forall k ensures p + [key] + [k] !in nodes[p + [key] := child] {
      Snoc(p + [key], k, p, key);
    }
  }
}
