/** The consistent-hash balancer: a ring of virtual nodes, rebuilt on every selection. */
module HashRing {
  import opened Options
  import opened Instances

  const VIRTUAL_NODES: nat := 100

  // ----- the order of hash strings -----

  predicate StrLe(a: string, b: string) {
    a == "" || (b != "" && (a[0] < b[0] || (a[0] == b[0] && StrLe(a[1..], b[1..]))))
  }

  predicate StrLess(a: string, b: string) {
    StrLe(a, b) && a != b
  }

  lemma {:induction false} StrLeRefl(a: string)
    ensures StrLe(a, a)
  {
    if a != "" {
      StrLeRefl(a[1..]);
    }
  }

  /** The order is the lexicographic one: a ends first, or has the smaller character at the first
      difference. */
  ghost predicate Before(a: string, b: string, d: nat) {
    && d <= |a| && d <= |b| && a[..d] == b[..d]
    && (d == |a| || (d < |b| && a[d] < b[d]))
  }

  lemma {:induction false} StrLeIff(a: string, b: string)
    ensures StrLe(a, b) <==> exists d: nat :: Before(a, b, d)
  {
    if a == "" {
      assert Before(a, b, 0);
    } else if b != "" && a[0] == b[0] {
      StrLeIff(a[1..], b[1..]);
      if d: nat :| Before(a[1..], b[1..], d) {
        assert a[..d + 1] == [a[0]] + a[1..][..d] && b[..d + 1] == [b[0]] + b[1..][..d];
        assert Before(a, b, d + 1);
      }
      if d: nat :| Before(a, b, d) {
        FirstEqual(a, b, d);
      }
    } else if b != "" && a[0] < b[0] {
      assert Before(a, b, 0);
    } else if d: nat :| Before(a, b, d) {
      if d > 0 {
        assert a[..d][0] == b[..d][0];
      }
    }
  }

  lemma FirstEqual(a: string, b: string, d: nat)
    requires a != "" && b != "" && a[0] == b[0] && Before(a, b, d)
    ensures Before(a[1..], b[1..], d - 1)
  {
    assert d > 0;
    assert a[1..][..d - 1] == a[..d][1..] && b[1..][..d - 1] == b[..d][1..];
  }

  lemma {:induction false} StrLeTotal(a: string, b: string)
    ensures StrLe(a, b) || StrLe(b, a)
  {
    if a != "" && b != "" && a[0] == b[0] {
      StrLeTotal(a[1..], b[1..]);
    }
  }

  lemma {:induction false} StrLeAntisym(a: string, b: string)
    requires StrLe(a, b) && StrLe(b, a)
    ensures a == b
  {
    if a != "" {
      StrLeAntisym(a[1..], b[1..]);
      assert a == [a[0]] + a[1..] && b == [b[0]] + b[1..];
    }
  }

  lemma {:induction false} StrLeTrans(a: string, b: string, c: string)
    requires StrLe(a, b) && StrLe(b, c)
    ensures StrLe(a, c)
  {
    if a != "" && a[0] == b[0] && b[0] == c[0] {
      StrLeTrans(a[1..], b[1..], c[1..]);
    }
  }

  // ----- the hash -----

  function Digit(d: nat): char
    requires d < 10
  {
    ['0', '1', '2', '3', '4', '5', '6', '7', '8', '9'][d]
  }

  function Decimal(n: nat): (r: string)
    ensures r != ""
  {
    if n < 10 then [Digit(n)] else Decimal(n / 10) + [Digit(n % 10)]
  }

  /** h * 33 + r in 32-bit arithmetic, over the characters from the left. */
  function Djb2(key: string): nat {
    if key == "" then 5381
    else (Djb2(key[..|key| - 1]) * 33 + key[|key| - 1] as int) % 0x1_0000_0000
  }

  /** The same without any wrap-around. */
  function Polynomial(key: string): nat {
    if key == "" then 5381 else Polynomial(key[..|key| - 1]) * 33 + key[|key| - 1] as int
  }

  /** Wrapping around at every character is the same as once at the end. */
  lemma {:induction false} Djb2IsPolynomial(key: string)
    ensures Djb2(key) == Polynomial(key) % 0x1_0000_0000
  {
    if key != "" {
      var front := key[..|key| - 1];
      Djb2IsPolynomial(front);
      WrapOnce(Polynomial(front), key[|key| - 1] as int);
    }
  }

  lemma WrapOnce(a: nat, c: nat)
    ensures (a % 0x1_0000_0000 * 33 + c) % 0x1_0000_0000 == (a * 33 + c) % 0x1_0000_0000
  {
    var q, r := a / 0x1_0000_0000, a % 0x1_0000_0000;
    assert a * 33 + c == (r * 33 + c) + (q * 33) * 0x1_0000_0000;
  }

  function Hash(key: string): (r: string)
    ensures r != ""
  {
    Decimal(Djb2(key))
  }

  // ----- the ring as a function of the node list -----

  function VirtualNode(node: string, i: nat): string {
    node + "#" + Decimal(i)
  }

  ghost function NodeSlots(h: string -> string, node: string, n: nat): map<string, string> {
    if n == 0 then map[] else NodeSlots(h, node, n - 1)[h(VirtualNode(node, n - 1)) := node]
  }

  /** Later nodes overwrite earlier ones where their virtual nodes collide. */
  ghost function Ring(h: string -> string, n: nat, nodes: seq<string>): map<string, string> {
    if nodes == [] then map[]
    else Ring(h, n, nodes[..|nodes| - 1]) + NodeSlots(h, nodes[|nodes| - 1], n)
  }

  /** k is the least slot from `from` upwards, or the least slot of all if there is none. */
  ghost predicate IsSuccessor(slots: set<string>, from: string, k: string) {
    && k in slots
    && (if exists x :: x in slots && StrLe(from, x)
        then StrLe(from, k) && forall x :: x in slots && StrLe(from, x) ==> StrLe(k, x)
        else forall x :: x in slots ==> StrLe(k, x))
  }

  /** The slot found does not depend on the order in which a map is walked. */
  lemma SuccessorUnique(slots: set<string>, from: string, a: string, b: string)
    requires IsSuccessor(slots, from, a) && IsSuccessor(slots, from, b)
    ensures a == b
  {
    StrLeAntisym(a, b);
  }

  lemma {:induction false} NodeSlotsOf(h: string -> string, node: string, n: nat)
    ensures forall k :: k in NodeSlots(h, node, n) ==>
              NodeSlots(h, node, n)[k] == node && exists i: nat :: i < n && k == h(VirtualNode(node, i))
  {
    if n != 0 {
      NodeSlotsOf(h, node, n - 1);
    }
  }

  lemma {:induction false} RingValues(h: string -> string, n: nat, nodes: seq<string>)
    ensures forall k :: k in Ring(h, n, nodes) ==> Ring(h, n, nodes)[k] in nodes
    ensures nodes != [] && 0 < n ==> Ring(h, n, nodes) != map[]
  {
    if nodes != [] {
      RingValues(h, n, nodes[..|nodes| - 1]);
      var last := nodes[|nodes| - 1];
      NodeSlotsOf(h, last, n);
      if n > 0 {
        assert h(VirtualNode(last, n - 1)) in Ring(h, n, nodes);
      }
    }
  }

  /** A slot belongs to the i-th virtual node of a listed node, for i below n. */
  ghost predicate SlotOf(h: string -> string, n: nat, nodes: seq<string>, k: string, node: string, i: nat) {
    node in nodes && i < n && k == h(VirtualNode(node, i))
  }

  lemma {:induction false} NodeHasSlots(h: string -> string, node: string, n: nat, i: nat)
    requires i < n
    ensures h(VirtualNode(node, i)) in NodeSlots(h, node, n)
  {
    if i < n - 1 {
      NodeHasSlots(h, node, n - 1, i);
    }
  }

  /** The ring has exactly the slots of n virtual nodes for each node. */
  lemma {:induction false} RingSlotsIff(h: string -> string, n: nat, nodes: seq<string>, k: string)
    ensures k in Ring(h, n, nodes) <==> exists node, i: nat :: SlotOf(h, n, nodes, k, node, i)
  {
    if nodes != [] {
      var front, last := nodes[..|nodes| - 1], nodes[|nodes| - 1];
      RingSlotsIff(h, n, front, k);
      NodeSlotsOf(h, last, n);
      if k in NodeSlots(h, last, n) {
        var i: nat :| i < n && k == h(VirtualNode(last, i));
        assert SlotOf(h, n, nodes, k, last, i);
      }
      if node, i: nat :| SlotOf(h, n, front, k, node, i) {
        assert SlotOf(h, n, nodes, k, node, i);
      }
      if node, i: nat :| SlotOf(h, n, nodes, k, node, i) {
        if node == last {
          NodeHasSlots(h, last, n, i);
        } else {
          assert node in front;
          assert SlotOf(h, n, front, k, node, i);
        }
      }
    }
  }

  /** The larger ring has more slots of x, or has slots taken over for x. */
  ghost predicate OnlyAdds(small: map<string, string>, big: map<string, string>, x: string) {
    && small.Keys <= big.Keys
    && forall k :: k in big ==> big[k] == x || (k in small && big[k] == small[k])
  }

  lemma RingLast(h: string -> string, n: nat, nodes: seq<string>, last: string)
    ensures Ring(h, n, nodes + [last]) == Ring(h, n, nodes) + NodeSlots(h, last, n)
  {
    assert (nodes + [last])[..|nodes|] == nodes;
  }

  /** Putting x anywhere in the list only adds slots of x or takes over slots for x. */
  lemma {:induction false} RingInsert(h: string -> string, n: nat, before: seq<string>, x: string, after: seq<string>)
    ensures OnlyAdds(Ring(h, n, before + after), Ring(h, n, before + [x] + after), x)
  {
    hide Ring;
    if after == [] {
      NodeSlotsOf(h, x, n);
      RingLast(h, n, before, x);
      assert before + [x] + after == before + [x] && before + after == before;
    } else {
      var front, last := after[..|after| - 1], after[|after| - 1];
      RingInsert(h, n, before, x, front);
      RingLast(h, n, before + front, last);
      RingLast(h, n, before + [x] + front, last);
      assert before + after == before + front + [last];
      assert before + [x] + after == before + [x] + front + [last];
    }
  }

  /** Minimal disruption.  Read from the longer list to the shorter one it says that removing
      a node that does not own a key leaves the key where it was; read the other way, that
      adding a node, at any position, leaves the key or moves it to the new node.
      Virtual nodes may collide. */
  lemma MinimalDisruption(h: string -> string, n: nat, before: seq<string>, x: string,
                          after: seq<string>, key: string, k: string, k': string)
    requires IsSuccessor(Ring(h, n, before + [x] + after).Keys, key, k)
    requires IsSuccessor(Ring(h, n, before + after).Keys, key, k')
    ensures var big, small := Ring(h, n, before + [x] + after), Ring(h, n, before + after);
            big[k] != x ==> k' == k && small[k'] == big[k]
  {
    RingInsert(h, n, before, x, after);
    var big, small := Ring(h, n, before + [x] + after), Ring(h, n, before + after);
    if big[k] != x {
      assert k in small;
      assert IsSuccessor(small.Keys, key, k);
      SuccessorUnique(small.Keys, key, k, k');
    }
  }

  // ----- node names -----

  function Number(s: string): int {
    if s == "" then 0 else Number(s[..|s| - 1]) * 10 + (s[|s| - 1] as int - '0' as int)
  }

  /** Decimal notation, read back. */
  lemma {:induction false} DecimalIsRead(n: nat)
    ensures Number(Decimal(n)) == n && forall i :: 0 <= i < |Decimal(n)| ==> Decimal(n)[i] != ':'
  {
    if n < 10 {
      assert Decimal(n)[..0] == "";
    } else {
      DecimalIsRead(n / 10);
      assert Decimal(n)[..|Decimal(n)| - 1] == Decimal(n / 10);
    }
  }

  /** Instances with one node name have one address. */
  lemma NodeNameIsAddress(a: ServiceInstance, b: ServiceInstance)
    requires NodeName(a) == NodeName(b)
    ensures a.host == b.host && a.port == b.port
  {
    var p, q := Decimal(a.port), Decimal(b.port);
    DecimalIsRead(a.port);
    DecimalIsRead(b.port);
    HostEnds(a.host, p, b.host, q);
    HostEnds(b.host, q, a.host, p);
    var s := NodeName(a);
    assert s[..|a.host|] == a.host && s[..|a.host|] == b.host;
    assert s[|a.host| + 1..] == p && s[|a.host| + 1..] == q;
  }

  /** The last colon ends the host. */
  lemma HostEnds(a: string, p: string, b: string, q: string)
    requires a + ":" + p == b + ":" + q && forall i :: 0 <= i < |p| ==> p[i] != ':'
    ensures |b| <= |a|
  {
    var s := a + ":" + p;
    forall i | |a| < i < |s| ensures s[i] != ':' {
      assert s[i] == p[i - |a| - 1];
    }
    assert (b + ":" + q)[|b|] == ':';
  }

  // ----- the balancer object -----

  function NodeName(i: ServiceInstance): string {
    i.host + ":" + Decimal(i.port)
  }

  function NodeNames(instances: seq<ServiceInstance>): seq<string> {
    seq(|instances|, i requires 0 <= i < |instances| => NodeName(instances[i]))
  }

  class ConsistentHashBalancer {
    var nodes: seq<string>
    var hashRing: map<string, string>

    constructor (nodes: seq<string>)
      ensures this.nodes == nodes && hashRing == Ring(Hash, VIRTUAL_NODES, nodes)
    {
      this.nodes := nodes;
      hashRing := map[];
      new;
      BuildHashRing();
    }

    /** Adds the slots of all nodes to the ring, on top of what is there. */
    method BuildHashRing()
      requires hashRing == map[]
      modifies this`hashRing
      ensures hashRing == Ring(Hash, 100, nodes)
    {
      for j := 0 to |nodes|
        invariant hashRing == Ring(Hash, VIRTUAL_NODES, nodes[..j])
      {
        AddNode(nodes[j], VIRTUAL_NODES);
        assert nodes[..j + 1][..j] == nodes[..j];
      }
      assert nodes[..|nodes|] == nodes;
    }

    method AddNode(node: string, n: nat)
      modifies this`hashRing
      ensures hashRing == old(hashRing) + NodeSlots(Hash, node, n)
    {
      hide Djb2, Decimal, VirtualNode;
      for i := 0 to n
        invariant hashRing == old(hashRing) + NodeSlots(Hash, node, i)
      {
        var virtualNode := VirtualNode(node, i);
        hashRing := hashRing[Hash(virtualNode) := node];
      }
    }

    /** The two walks over the ring; the order of each walk is arbitrary. */
    method Closest(currentHash: string) returns (closestNode: string)
      requires hashRing != map[] && "" !in hashRing
      ensures IsSuccessor(hashRing.Keys, currentHash, closestNode)
    {
      closestNode := "";
      var left := hashRing.Keys;
      while left != {}
        invariant left <= hashRing.Keys
        invariant closestNode == "" ==>
                    forall x :: x in hashRing.Keys - left ==> !StrLe(currentHash, x)
        invariant closestNode != "" ==>
                    closestNode in hashRing && StrLe(currentHash, closestNode) &&
                    forall x :: x in hashRing.Keys - left && StrLe(currentHash, x) ==> StrLe(closestNode, x)
      {
        var hashKey :| hashKey in left;
        left := left - {hashKey};
        StrLeRefl(hashKey);
        if StrLe(currentHash, hashKey) && (closestNode == "" || StrLess(hashKey, closestNode)) {
          KeepsLeast(hashRing.Keys - left, currentHash, closestNode, hashKey);
          closestNode := hashKey;
        } else if StrLe(currentHash, hashKey) {
          StrLeTotal(hashKey, closestNode);
        }
      }
      if closestNode == "" {
        left := hashRing.Keys;
        while left != {}
          invariant left <= hashRing.Keys
          invariant closestNode == "" ==> left == hashRing.Keys
          invariant closestNode != "" ==>
                      closestNode in hashRing &&
                      forall x :: x in hashRing.Keys - left ==> StrLe(closestNode, x)
        {
          var hashKey :| hashKey in left;
          left := left - {hashKey};
          StrLeRefl(hashKey);
          if closestNode == "" || StrLess(hashKey, closestNode) {
            KeepsLeast(hashRing.Keys - left, "", closestNode, hashKey);
            closestNode := hashKey;
          } else {
            StrLeTotal(hashKey, closestNode);
          }
        }
      }
    }

    /** `key` stands for the printed current time. */
    method Select(instances: seq<ServiceInstance>, key: string) returns (r: Option<ServiceInstance>)
      modifies this
      ensures Alive(instances) == [] ==> r == None && unchanged(this)
      ensures Alive(instances) != [] ==>
                && nodes == NodeNames(Alive(instances)) && hashRing == Ring(Hash, VIRTUAL_NODES, nodes)
                && r.Some? && FirstWithOwner(Alive(instances), key, r.value)
    {
      if |instances| == 0 {
        return None;
      }
      var alive := FilterAlive(instances);
      if |alive| == 0 {
        return None;
      }
      nodes := NodeNames(alive);
      hashRing := map[];
      BuildHashRing();
      var node := Locate(key);
      var i := IndexOf(alive, node);
      return Some(alive[i]);
    }

    /** The node that owns a key. */
    method Locate(key: string) returns (node: string)
      requires nodes != [] && hashRing == Ring(Hash, VIRTUAL_NODES, nodes)
      ensures node in nodes && Owns(nodes, key, node)
    {
      var currentHash := Hash(key);
      RingValues(Hash, VIRTUAL_NODES, nodes);
      NoEmptySlot(nodes);
      var closestNode := Closest(currentHash);
      node := hashRing[closestNode];
    }

    /** The search for the instance; its fallback to the first one is never needed. */
    method IndexOf(alive: seq<ServiceInstance>, node: string) returns (i: nat)
      requires node in NodeNames(alive)
      ensures i < |alive| && NodeName(alive[i]) == node
      ensures forall j :: 0 <= j < i ==> NodeName(alive[j]) != node
    {
      i := 0;
      while i < |alive|
        invariant i <= |alive|
        invariant forall j :: 0 <= j < i ==> NodeName(alive[j]) != node
      {
        if NodeName(alive[i]) == node {
          return;
        }
        i := i + 1;
      }
      assert false;
    }
  }

  ghost predicate Owns(nodes: seq<string>, key: string, node: string) {
    var ring := Ring(Hash, VIRTUAL_NODES, nodes);
    exists k :: IsSuccessor(ring.Keys, Hash(key), k) && ring[k] == node
  }

  /** r is the first live instance at the address that owns the key. */
  ghost predicate FirstWithOwner(alive: seq<ServiceInstance>, key: string, r: ServiceInstance) {
    exists i ::
      && 0 <= i < |alive| && alive[i] == r
      && Owns(NodeNames(alive), key, NodeName(alive[i]))
      && forall j :: 0 <= j < i ==> NodeName(alive[j]) != NodeName(alive[i])
  }

  /** A key has one owner, so minimal disruption speaks about what Select answers. */
  lemma OwnerIsStable(before: seq<string>, x: string, after: seq<string>, key: string,
                      owner: string, owner': string)
    requires Owns(before + [x] + after, key, owner) && Owns(before + after, key, owner')
    ensures owner == owner' || owner == x
  {
    var k :| IsSuccessor(Ring(Hash, VIRTUAL_NODES, before + [x] + after).Keys, Hash(key), k) &&
             Ring(Hash, VIRTUAL_NODES, before + [x] + after)[k] == owner;
    var k' :| IsSuccessor(Ring(Hash, VIRTUAL_NODES, before + after).Keys, Hash(key), k') &&
              Ring(Hash, VIRTUAL_NODES, before + after)[k'] == owner';
    MinimalDisruption(Hash, VIRTUAL_NODES, before, x, after, Hash(key), k, k');
  }

  lemma KeepsLeast(seen: set<string>, from: string, least: string, x: string)
    requires StrLe(x, x)
    requires least == "" || StrLe(x, least)
    ensures least != "" ==>
              forall y :: y in seen && StrLe(from, y) && StrLe(least, y) ==> StrLe(x, y)
  {
    if least != "" {
      forall y | y in seen && StrLe(from, y) && StrLe(least, y) ensures StrLe(x, y) {
        StrLeTrans(x, least, y);
      }
    }
  }

  lemma {:induction false} NoEmptySlot(nodes: seq<string>)
    ensures "" !in Ring(Hash, VIRTUAL_NODES, nodes)
  {
    if nodes != [] {
      NoEmptySlot(nodes[..|nodes| - 1]);
      NodeSlotsOf(Hash, nodes[|nodes| - 1], VIRTUAL_NODES);
    }
  }
}
