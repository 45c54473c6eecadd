/** The cache that spreads its entries over shards.  Clock readings are parameters. */
module ShardedCache {
  import opened Options
  import opened ExpiringMap

  const DEFAULT_SHARD_COUNT := 32
  const MAX_SHARD_COUNT := 64

  /** Bitwise and; its result never exceeds the mask, so it is an index for any mask. */
  function BitAnd(a: nat, mask: nat): (r: nat)
    ensures r <= mask
  {
    if mask == 0 then 0
    else 2 * BitAnd(a / 2, mask / 2) + (if a % 2 == 1 && mask % 2 == 1 then 1 else 0)
  }

  class Shard<V> {
    var items: Store<V>

    constructor ()
      ensures items == map[]
    {
      items := map[];
    }
  }

  /** `hash` stands for the FNV hash of a key; `contents` is the one map that the shards
      together stand for.  `environment` is what other callers do between the moments at which a
      call that goes over several shards holds a lock; nothing is assumed about it. */
  class ShardedCache<V> {
    const shards: seq<Shard<V>>
    const mask: nat
    const hash: string -> nat
    const environment: nat -> seq<Timed<V>>
    var turn: nat
    ghost var contents: Store<V>

    ghost predicate Shape() {
      && mask + 1 == |shards|
      && (forall i, j :: 0 <= i < j < |shards| ==> shards[i] != shards[j])
    }

    function Index(key: string): (i: nat)
      requires mask + 1 == |shards|
      ensures i < |shards|
    {
      BitAnd(hash(key), mask)
    }

    /** The entries that belong to shard i. */
    ghost function Part(m: Store<V>, i: int): Store<V>
      requires mask + 1 == |shards|
    {
      map k | k in m && Index(k) == i :: m[k]
    }

    ghost predicate Valid()
      reads this, shards
    {
      Shape() && forall i :: 0 <= i < |shards| ==> shards[i].items == Part(contents, i)
    }

    lemma MaskFits()
      requires Valid()
      ensures mask + 1 == |shards|
    {
    }

    /** No requested count means 32 shards; more than 64 means 64.  The count need not be a
        power of two. */
    constructor (requested: int, hash: string -> nat, environment: nat -> seq<Timed<V>>)
      ensures Valid() && contents == map[] && this.hash == hash && this.environment == environment
      ensures |shards| == if requested <= 0 then DEFAULT_SHARD_COUNT
                          else if requested > MAX_SHARD_COUNT then MAX_SHARD_COUNT else requested
      ensures fresh(shards)
    {
      var count := DEFAULT_SHARD_COUNT;
      if requested > 0 {
        count := if requested > MAX_SHARD_COUNT then MAX_SHARD_COUNT else requested;
      }
      var made: seq<Shard<V>> := [];
      while |made| < count
        invariant |made| <= count
        invariant forall i :: 0 <= i < |made| ==> fresh(made[i]) && made[i].items == map[]
        invariant forall i, j :: 0 <= i < j < |made| ==> made[i] != made[j]
      {
        var s := new Shard<V>();
        made := made + [s];
      }
      shards := made;
      mask := count - 1;
      this.hash := hash;
      this.environment := environment;
      turn := 0;
      contents := map[];
    }

    // ----- single keys -----

    method Get(key: string, now: nat) returns (r: Option<V>)
      requires Valid()
      ensures Value(r) == Reply(contents, Op.Get(key), now)
    {
      var shard := shards[Index(key)];
      if key in shard.items {
        if shard.items[key].expiry == 0 || now < shard.items[key].expiry {
          return Some(shard.items[key].value);
        }
      }
      return None;
    }

    method Has(key: string, now: nat) returns (r: bool)
      requires Valid()
      ensures Present(r) == Reply(contents, Op.Has(key), now)
    {
      var shard := shards[Index(key)];
      if key !in shard.items {
        return false;
      }
      if shard.items[key].expiry > 0 && now >= shard.items[key].expiry {
        return false;
      }
      return true;
    }

    method Set(key: string, value: V, ttl: int, now: nat)
      requires Valid()
      modifies this`contents, shards
      ensures Valid()
      ensures contents == After(old(contents), Op.Set(key, value, ttl), now)
    {
      var shard := shards[Index(key)];
      var expiry := 0;
      if ttl > 0 {
        expiry := now + ttl;
      }
      shard.items := shard.items[key := Item(value, expiry)];
      contents := contents[key := Item(value, expiry)];
      assert forall i :: 0 <= i < |shards| && i != Index(key) ==> Part(contents, i) == Part(old(contents), i);
      assert Part(contents, Index(key)) == Part(old(contents), Index(key))[key := Item(value, expiry)];
    }

    method Delete(key: string)
      requires Valid()
      modifies this`contents, shards
      ensures Valid()
      ensures contents == Drop(old(contents), key)
    {
      var shard := shards[Index(key)];
      shard.items := shard.items - {key};
      contents := contents - {key};
      assert forall i :: 0 <= i < |shards| && i != Index(key) ==> Part(contents, i) == Part(old(contents), i);
      assert Part(contents, Index(key)) == Part(old(contents), Index(key)) - {key};
    }

    method GetOrSet(key: string, value: V, ttl: int, now: nat) returns (r: V, found: bool)
      requires Valid()
      modifies this`contents, shards
      ensures Valid()
      ensures contents == After(old(contents), Op.GetOrSet(key, value, ttl), now)
      ensures Loaded(r, found) == Reply(old(contents), Op.GetOrSet(key, value, ttl), now)
    {
      var shard := shards[Index(key)];
      if key in shard.items {
        if shard.items[key].expiry == 0 || now < shard.items[key].expiry {
          return shard.items[key].value, true;
        }
      }
      Set(key, value, ttl, now);
      return value, false;
    }

    // ----- other callers -----

    /** One call of another caller, at one moment. */
    method Do(op: Op<V>, now: nat)
      requires Valid()
      modifies this`contents, shards
      ensures Valid() && contents == After(old(contents), op, now)
    {
      match op
      case Set(key, value, ttl) => Set(key, value, ttl, now);
      case Delete(key) => Delete(key);
      case GetOrSet(key, value, ttl) => var _, _ := GetOrSet(key, value, ttl, now);
      case SetMulti(items, ttl) => SetGroup(items, ttl, now);
      case DeleteMulti(keys) => DeleteGroup(keys);
      case Clear => Clear();
      case Sweep(part) => SweepPart(part, now);
      case _ =>
    }

    /** Whatever the environment has in mind for this turn. */
    method Others(ghost m: Store<V>, ghost tr: Trace<V>) returns (ghost tr': Trace<V>)
      requires Valid() && contents == At(m, tr)
      modifies this`contents, this`turn, shards
      ensures Valid() && contents == At(m, tr') && turn == old(turn) + 1
      ensures var calls := environment(old(turn));
              && tr' == WithOthers(tr, calls, |calls|)
              && MineOf(tr') == MineOf(tr) && TheirsOf(tr') == TheirsOf(tr) + calls
              && Collected(m, tr') == Collected(m, tr)
              && (calls == [] ==> contents == old(contents))
    {
      var calls := environment(turn);
      turn := turn + 1;
      tr' := tr;
      for i := 0 to |calls|
        invariant Valid() && tr' == WithOthers(tr, calls, i) && contents == At(m, tr')
        invariant turn == old(turn) + 1
      {
        Do(calls[i].op, calls[i].now);
        tr' := Theirs(tr', calls[i]);
      }
      OthersKeepMine(m, tr, calls, |calls|);
      assert calls[..|calls|] == calls;
    }

    lemma TraceStart(m: Store<V>)
      ensures At(m, Start) == m && MineOf<V>(Start) == [] && TheirsOf<V>(Start) == [] && Collected(m, Start) == map[]
    {
    }

    /** What the environment does in the turns from .. to. */
    ghost function EnvOps(from: nat, to: nat): seq<Timed<V>>
      requires from <= to
    {
      if from == to then [] else EnvOps(from, to - 1) + environment(to - 1)
    }

    // ----- many keys -----

    /** The keys of one shard, in the order given, among the first n. */
    function KeysAt(keys: seq<string>, i: nat, n: nat): seq<string>
      requires mask + 1 == |shards| && n <= |keys|
    {
      if n == 0 then []
      else KeysAt(keys, i, n - 1) + (if Index(keys[n - 1]) == i then [keys[n - 1]] else [])
    }

    ghost function KeysOf(keys: seq<string>, i: nat): seq<string>
      requires mask + 1 == |shards|
    {
      KeysAt(keys, i, |keys|)
    }

    lemma {:induction false} KeysAtAre(keys: seq<string>, i: nat, n: nat)
      requires mask + 1 == |shards| && n <= |keys|
      ensures forall k :: k in KeysAt(keys, i, n) <==> k in keys[..n] && Index(k) == i
    {
      if n != 0 {
        KeysAtAre(keys, i, n - 1);
        assert keys[..n] == keys[..n - 1] + [keys[n - 1]];
      }
    }

    ghost predicate Apart(order: seq<nat>) {
      forall i, j :: 0 <= i < j < |order| ==> order[i] != order[j]
    }

    /** The groups visited so far: all but those left. */
    ghost predicate Visited(order: seq<nat>, all: set<nat>, left: set<nat>) {
      Apart(order) && forall i :: i in order <==> i in all && i !in left
    }

    /** The groups not in `left` have been visited, and the others have had their turns. */
    ghost predicate Progress(tr: Trace<V>, order: seq<nat>, all: set<nat>, left: set<nat>, from: nat, to: nat) {
      from <= to && TheirsOf(tr) == EnvOps(from, to) && left <= all && Visited(order, all, left)
    }

    lemma NoProgressYet(all: set<nat>, from: nat)
      ensures Progress(Start, [], all, all, from, from)
    {
    }

    lemma ProgressMore(tr: Trace<V>, tr': Trace<V>, order: seq<nat>, all: set<nat>, left: set<nat>, idx: nat,
                       from: nat, to: nat)
      requires Progress(tr, order, all, left, from, to) && idx in left
      requires TheirsOf(tr') == TheirsOf(tr) + environment(to)
      ensures Progress(tr', order + [idx], all, left - {idx}, from, to + 1)
      ensures TheirsOf(tr') == [] ==> TheirsOf(tr) == [] && environment(to) == []
    {
      assert forall i :: 0 <= i < |order| ==> order[i] in order;
    }

    /** The shards that hold some of these keys, each once, in any order. */
    ghost predicate Visits(order: seq<nat>, keys: seq<string>)
      requires mask + 1 == |shards|
    {
      Apart(order) && forall i: nat :: i in order <==> KeysOf(keys, i) != []
    }

    lemma NoKeysYet(keys: seq<string>)
      requires mask + 1 == |shards|
      ensures forall i: nat :: KeysAt(keys, i, 0) == []
    {
    }

    lemma KeysStep(keys: seq<string>, n: nat)
      requires mask + 1 == |shards| && n < |keys|
      ensures forall i: nat :: KeysAt(keys, i, n + 1) ==
                               if Index(keys[n]) == i then KeysAt(keys, i, n) + [keys[n]] else KeysAt(keys, i, n)
    {
      forall i: nat ensures KeysAt(keys, i, n) + [] == KeysAt(keys, i, n) {
      }
    }

    lemma EveryKeyHasAGroup(keys: seq<string>)
      requires mask + 1 == |shards|
      ensures forall k :: k in keys ==> KeysOf(keys, Index(k)) != []
    {
      forall k | k in keys ensures KeysOf(keys, Index(k)) != [] {
        KeysAtAre(keys, Index(k), |keys|);
        assert keys[..|keys|] == keys;
      }
    }

    lemma AllVisited(keys: seq<string>, tr: Trace<V>, order: seq<nat>, all: set<nat>, from: nat, to: nat)
      requires mask + 1 == |shards| && forall i: nat :: i in all <==> KeysOf(keys, i) != []
      requires Progress(tr, order, all, {}, from, to)
      ensures Visits(order, keys) && from <= to && TheirsOf(tr) == EnvOps(from, to)
    {
    }

    /** The keys by shard. */
    method GroupKeys(keys: seq<string>) returns (groups: map<nat, seq<string>>)
      requires mask + 1 == |shards|
      ensures forall i: nat :: i in groups <==> KeysOf(keys, i) != []
      ensures forall i :: i in groups ==> groups[i] == KeysOf(keys, i)
    {
      groups := map[];
      NoKeysYet(keys);
      for n := 0 to |keys|
        invariant forall i: nat :: i in groups <==> KeysAt(keys, i, n) != []
        invariant forall i :: i in groups ==> groups[i] == KeysAt(keys, i, n)
      {
        hide KeysAt, BitAnd;
        KeysStep(keys, n);
        var idx := Index(keys[n]);
        var group := if idx in groups then groups[idx] else [];
        groups := groups[idx := group + [keys[n]]];
      }
    }

    /** The keys whose group has been dealt with. */
    ghost function DoneKeys(keys: set<string>, left: set<nat>): set<string>
      requires mask + 1 == |shards|
    {
      set k | k in keys && Index(k) !in left
    }

    // ----- reading -----

    ghost function Reads(keys: seq<string>, clock: string -> nat, n: nat): seq<Timed<V>>
      requires n <= |keys|
    {
      if n == 0 then [] else Reads(keys, clock, n - 1) + [Timed(Op.Get(keys[n - 1]), clock(keys[n - 1]))]
    }

    /** The reads of these groups, one after the other. */
    ghost function GroupReads(keys: seq<string>, order: seq<nat>, clock: string -> nat): seq<Timed<V>>
      requires mask + 1 == |shards|
    {
      if order == [] then []
      else
        var group := KeysOf(keys, order[|order| - 1]);
        GroupReads(keys, order[..|order| - 1], clock) + Reads(group, clock, |group|)
    }

    lemma OneMoreRead(keys: seq<string>, order: seq<nat>, clock: string -> nat, i: nat)
      requires mask + 1 == |shards|
      ensures var group := KeysOf(keys, i);
              GroupReads(keys, order + [i], clock) == GroupReads(keys, order, clock) + Reads(group, clock, |group|)
    {
      assert (order + [i])[..|order|] == order;
    }

    /** One goroutine of GetMulti; nobody changes its shard meanwhile. */
    method ReadGroup(group: seq<string>, clock: string -> nat, found: map<string, V>, ghost m: Store<V>,
                     ghost tr: Trace<V>)
      returns (result: map<string, V>, ghost tr': Trace<V>)
      requires Valid() && contents == At(m, tr) && found == Collected(m, tr)
      ensures contents == At(m, tr') && result == Collected(m, tr')
      ensures MineOf(tr') == MineOf(tr) + Reads(group, clock, |group|) && TheirsOf(tr') == TheirsOf(tr)
      ensures FoundWith(contents, group, clock, found, result)
    {
      hide Valid, FoundWith;
      result, tr' := found, tr;
      NothingFound(contents, clock, found);
      assert group[..0] == [];
      for n := 0 to |group|
        invariant contents == At(m, tr') && result == Collected(m, tr')
        invariant MineOf(tr') == MineOf(tr) + Reads(group, clock, n) && TheirsOf(tr') == TheirsOf(tr)
        invariant FoundWith(contents, group[..n], clock, found, result)
      {
        var key := group[n];
        ghost var before := result;
        var item := Get(key, clock(key));
        if item.Some? {
          result := result[key := item.value];
        }
        FoundStep(contents, group, clock, found, n, before);
        tr' := Mine(tr', Timed(Op.Get(key), clock(key)));
      }
      assert group[..|group|] == group;
    }

    /** The calls of others, then the reads of one group. */
    method ReadNext(group: seq<string>, clock: string -> nat, found: map<string, V>, ghost m: Store<V>,
                    ghost tr: Trace<V>)
      returns (result: map<string, V>, ghost tr': Trace<V>)
      requires Valid() && contents == At(m, tr) && found == Collected(m, tr)
      modifies this`contents, this`turn, shards
      ensures Valid() && contents == At(m, tr') && result == Collected(m, tr') && turn == old(turn) + 1
      ensures MineOf(tr') == MineOf(tr) + Reads(group, clock, |group|)
      ensures TheirsOf(tr') == TheirsOf(tr) + environment(old(turn))
      ensures environment(old(turn)) == [] ==>
                contents == old(contents) && FoundWith(contents, group, clock, found, result)
    {
      hide Valid, FoundWith, At, MineOf, TheirsOf, Reads;
      tr' := Others(m, tr);
      result, tr' := ReadGroup(group, clock, found, m, tr');
    }

    /** Where a GetMulti stands that began with m in turn `from` and is now in turn `to`. */
    ghost predicate Reading(now: Store<V>, m: Store<V>, keys: seq<string>, clock: string -> nat, result: map<string, V>,
                            tr: Trace<V>, order: seq<nat>, all: set<nat>, left: set<nat>, from: nat, to: nat)
      requires mask + 1 == |shards|
    {
      && now == At(m, tr) && Progress(tr, order, all, left, from, to)
      && MineOf(tr) == GroupReads(keys, order, clock) && result == Collected(m, tr)
      && (TheirsOf(tr) == [] ==> now == m && FoundAt(now, keys, clock, left, result))
    }

    method ReadStep(group: seq<string>, clock: string -> nat, found: map<string, V>, ghost keys: seq<string>,
                    ghost m: Store<V>, ghost tr: Trace<V>, ghost order: seq<nat>, ghost all: set<nat>,
                    ghost left: set<nat>, ghost idx: nat, ghost from: nat)
      returns (result: map<string, V>, ghost tr': Trace<V>)
      requires Valid() && mask + 1 == |shards| && idx in left && group == KeysOf(keys, idx)
      requires Reading(contents, m, keys, clock, found, tr, order, all, left, from, turn)
      modifies this`contents, this`turn, shards
      ensures Valid() && turn == old(turn) + 1
      ensures Reading(contents, m, keys, clock, result, tr', order + [idx], all, left - {idx}, from, turn)
    {
      hide *;
      ReadingKnows(contents, m, keys, clock, found, tr, order, all, left, from, turn);
      ghost var before := contents;
      result, tr' := ReadNext(group, clock, found, m, tr);
      ReadingMore(before, contents, m, keys, clock, found, result, tr, tr', order, all, left, idx, from, turn - 1);
    }

    lemma ReadingKnows(now: Store<V>, m: Store<V>, keys: seq<string>, clock: string -> nat, result: map<string, V>,
                       tr: Trace<V>, order: seq<nat>, all: set<nat>, left: set<nat>, from: nat, to: nat)
      requires mask + 1 == |shards| && Reading(now, m, keys, clock, result, tr, order, all, left, from, to)
      ensures now == At(m, tr) && result == Collected(m, tr)
    {
    }

    lemma ReadingMore(before: Store<V>, now: Store<V>, m: Store<V>, keys: seq<string>, clock: string -> nat,
                      found: map<string, V>, result: map<string, V>, tr: Trace<V>, tr': Trace<V>, order: seq<nat>,
                      all: set<nat>, left: set<nat>, idx: nat, from: nat, to: nat)
      requires mask + 1 == |shards| && idx in left
      requires Reading(before, m, keys, clock, found, tr, order, all, left, from, to)
      requires now == At(m, tr') && result == Collected(m, tr')
      requires var group := KeysOf(keys, idx); MineOf(tr') == MineOf(tr) + Reads(group, clock, |group|)
      requires TheirsOf(tr') == TheirsOf(tr) + environment(to)
      requires environment(to) == [] ==>
                 now == before && FoundWith(now, KeysOf(keys, idx), clock, found, result)
      ensures Reading(now, m, keys, clock, result, tr', order + [idx], all, left - {idx}, from, to + 1)
    {
      hide Visible, At, MineOf, TheirsOf, Collected, FoundWith, FoundAt, Progress, GroupReads, Reads, KeysAt;
      ProgressMore(tr, tr', order, all, left, idx, from, to);
      OneMoreRead(keys, order, clock, idx);
      if TheirsOf(tr') == [] {
        FoundMore(now, keys, clock, left, idx, found, result);
      }
    }

    /** The result holds the live ones among the requested keys whose shard is not in `left`. */
    ghost predicate FoundAt(m: Store<V>, keys: seq<string>, clock: string -> nat, left: set<nat>,
                            result: map<string, V>)
      requires mask + 1 == |shards|
    {
      && (forall k :: k in result <==> k in keys && Index(k) !in left && Visible(m, k, clock(k)).Some?)
      && (forall k :: k in result ==> k in m && result[k] == m[k].value)
    }

    /** found and what the group adds to it. */
    ghost predicate FoundWith(m: Store<V>, group: seq<string>, clock: string -> nat,
                              found: map<string, V>, result: map<string, V>) {
      && (forall k :: k in result <==> k in found || (k in group && Visible(m, k, clock(k)).Some?))
      && (forall k :: k in result ==>
            result[k] == if k in group && Visible(m, k, clock(k)).Some? then m[k].value else found[k])
    }

    lemma NothingFound(m: Store<V>, clock: string -> nat, found: map<string, V>)
      ensures FoundWith(m, [], clock, found, found)
    {
    }

    lemma FoundStep(m: Store<V>, group: seq<string>, clock: string -> nat, found: map<string, V>, n: nat,
                    result: map<string, V>)
      requires n < |group| && FoundWith(m, group[..n], clock, found, result)
      ensures var seen := Visible(m, group[n], clock(group[n]));
              FoundWith(m, group[..n + 1], clock, found,
                        if seen.Some? then result[group[n] := seen.value.value] else result)
    {
      assert group[..n + 1] == group[..n] + [group[n]];
    }

    lemma FoundMore(m: Store<V>, keys: seq<string>, clock: string -> nat, left: set<nat>, idx: nat,
                    found: map<string, V>, result: map<string, V>)
      requires mask + 1 == |shards| && idx in left && FoundAt(m, keys, clock, left, found)
      requires FoundWith(m, KeysOf(keys, idx), clock, found, result)
      ensures FoundAt(m, keys, clock, left - {idx}, result)
    {
      KeysAtAre(keys, idx, |keys|);
      assert keys[..|keys|] == keys;
    }

    /** Reads group by group, in any order, each key at its own time, with the calls of others
        in between.  The result is what these reads find.  If nobody else does anything, it
        holds exactly the requested keys that are live. */
    method GetMulti(keys: seq<string>, clock: string -> nat)
      returns (result: map<string, V>, ghost order: seq<nat>, ghost tr: Trace<V>)
      requires Valid()
      modifies this`contents, this`turn, shards
      ensures Valid() && contents == At(old(contents), tr)
      ensures old(turn) <= turn && TheirsOf(tr) == EnvOps(old(turn), turn)
      ensures Visits(order, keys) && MineOf(tr) == GroupReads(keys, order, clock)
      ensures result == Collected(old(contents), tr)
      ensures TheirsOf(tr) == [] ==> contents == old(contents) && FoundAt(contents, keys, clock, {}, result)
    {
      assert mask + 1 == |shards|;
      hide Valid, Reading, At, MineOf, TheirsOf, EnvOps, GroupReads, Collected, FoundAt, Visits, KeysAt;
      result, order, tr := map[], [], Start;
      var groups := GroupKeys(keys);
      NothingRead(contents, keys, clock, groups.Keys, turn);
      var left := groups.Keys;
      while left != {}
        invariant Valid() && old(turn) <= turn && left <= groups.Keys
        invariant Reading(contents, old(contents), keys, clock, result, tr, order, groups.Keys, left, old(turn), turn)
      {
        var idx :| idx in left;
        result, tr := ReadStep(groups[idx], clock, result, keys, old(contents), tr, order, groups.Keys, left, idx,
                               old(turn));
        left, order := left - {idx}, order + [idx];
      }
      AllRead(contents, old(contents), keys, clock, result, tr, order, groups.Keys, old(turn), turn);
    }

    lemma NothingRead(m: Store<V>, keys: seq<string>, clock: string -> nat, all: set<nat>, from: nat)
      requires mask + 1 == |shards| && forall i: nat :: i in all <==> KeysOf(keys, i) != []
      ensures Reading(m, m, keys, clock, map[], Start, [], all, all, from, from)
    {
      NoProgressYet(all, from);
      EveryKeyHasAGroup(keys);
    }

    lemma AllRead(now: Store<V>, m: Store<V>, keys: seq<string>, clock: string -> nat, result: map<string, V>,
                  tr: Trace<V>, order: seq<nat>, all: set<nat>, from: nat, to: nat)
      requires mask + 1 == |shards| && forall i: nat :: i in all <==> KeysOf(keys, i) != []
      requires Reading(now, m, keys, clock, result, tr, order, all, {}, from, to)
      ensures now == At(m, tr) && from <= to && TheirsOf(tr) == EnvOps(from, to)
      ensures Visits(order, keys) && MineOf(tr) == GroupReads(keys, order, clock)
      ensures result == Collected(m, tr)
      ensures TheirsOf(tr) == [] ==> now == m && FoundAt(now, keys, clock, {}, result)
    {
    }

    // ----- deleting -----

    ghost function DeleteCalls(keys: seq<string>, order: seq<nat>, clock: nat -> nat): seq<Timed<V>>
      requires mask + 1 == |shards|
    {
      if order == [] then []
      else
        var last := order[|order| - 1];
        DeleteCalls(keys, order[..|order| - 1], clock) + [Timed(Op.DeleteMulti(KeysOf(keys, last)), clock(last))]
    }

    lemma OneMoreDelete(keys: seq<string>, order: seq<nat>, clock: nat -> nat, i: nat)
      requires mask + 1 == |shards|
      ensures DeleteCalls(keys, order + [i], clock) ==
              DeleteCalls(keys, order, clock) + [Timed(Op.DeleteMulti(KeysOf(keys, i)), clock(i))]
    {
      assert (order + [i])[..|order|] == order;
    }

    method DeleteGroup(keys: seq<string>)
      requires Valid()
      modifies this`contents, shards
      ensures Valid() && contents == old(contents) - KeySet(keys)
    {
      for n := 0 to |keys|
        invariant Valid() && contents == old(contents) - KeySet(keys[..n])
      {
        Delete(keys[n]);
        assert KeySet(keys[..n + 1]) == KeySet(keys[..n]) + {keys[n]};
      }
      assert keys[..|keys|] == keys;
    }

    /** The calls of others, then the deletion of one group. */
    method DeleteNext(group: seq<string>, ghost now: nat, ghost m: Store<V>, ghost tr: Trace<V>)
      returns (ghost tr': Trace<V>)
      requires Valid() && contents == At(m, tr)
      modifies this`contents, this`turn, shards
      ensures Valid() && contents == At(m, tr') && turn == old(turn) + 1
      ensures MineOf(tr') == MineOf(tr) + [Timed(Op.DeleteMulti(group), now)]
      ensures TheirsOf(tr') == TheirsOf(tr) + environment(old(turn))
      ensures environment(old(turn)) == [] ==> contents == old(contents) - KeySet(group)
    {
      hide Valid;
      tr' := Others(m, tr);
      DeleteGroup(group);
      tr' := Mine(tr', Timed(Op.DeleteMulti(group), now));
    }

    /** Deletes group by group, in any order, each group at one moment, with the calls of others
        in between.  If nobody else does anything, exactly the given keys are gone. */
    method DeleteMulti(keys: seq<string>, ghost clock: nat -> nat) returns (ghost order: seq<nat>, ghost tr: Trace<V>)
      requires Valid()
      modifies this`contents, this`turn, shards
      ensures Valid() && contents == At(old(contents), tr)
      ensures old(turn) <= turn && TheirsOf(tr) == EnvOps(old(turn), turn)
      ensures Visits(order, keys) && MineOf(tr) == DeleteCalls(keys, order, clock)
      ensures TheirsOf(tr) == [] ==> contents == old(contents) - KeySet(keys)
    {
      hide *;
      MaskFits();
      TraceStart(contents);
      ghost var m := contents;
      order, tr := [], Start;
      var groups := GroupKeys(keys);
      NothingDone(m, keys, groups.Keys, clock);
      var left := groups.Keys;
      NoProgressYet(left, turn);
      while left != {}
        invariant Valid() && contents == At(m, tr)
        invariant old(turn) <= turn && Progress(tr, order, groups.Keys, left, old(turn), turn)
        invariant MineOf(tr) == DeleteCalls(keys, order, clock)
        invariant TheirsOf(tr) == [] ==> contents == m - DoneKeys(KeySet(keys), left)
      {
        var idx :| idx in left;
        ghost var before := tr;
        tr := DeleteNext(groups[idx], clock(idx), m, tr);
        DoneMore(m, keys, left, idx);
        ProgressMore(before, tr, order, groups.Keys, left, idx, old(turn), turn - 1);
        OneMoreDelete(keys, order, clock, idx);
        left, order := left - {idx}, order + [idx];
      }
      AllDone(keys);
      AllVisited(keys, tr, order, groups.Keys, old(turn), turn);
    }

    lemma NothingDone(m: Store<V>, keys: seq<string>, left: set<nat>, clock: nat -> nat)
      requires mask + 1 == |shards| && forall i: nat :: i in left <==> KeysOf(keys, i) != []
      ensures m - DoneKeys(KeySet(keys), left) == m && DeleteCalls(keys, [], clock) == []
    {
      EveryKeyHasAGroup(keys);
    }

    lemma DoneMore(m: Store<V>, keys: seq<string>, left: set<nat>, idx: nat)
      requires mask + 1 == |shards| && idx in left
      ensures m - DoneKeys(KeySet(keys), left) - KeySet(KeysOf(keys, idx)) == m - DoneKeys(KeySet(keys), left - {idx})
    {
      KeysAtAre(keys, idx, |keys|);
      assert keys[..|keys|] == keys;
    }

    lemma AllDone(keys: seq<string>)
      requires mask + 1 == |shards|
      ensures DoneKeys(KeySet(keys), {}) == KeySet(keys)
    {
    }

    // ----- storing -----

    ghost function GroupOf(items: map<string, V>, i: nat): map<string, V>
      requires mask + 1 == |shards|
    {
      map k | k in items && Index(k) == i :: items[k]
    }

    ghost predicate ByShard(groups: map<nat, map<string, V>>, items: map<string, V>)
      requires mask + 1 == |shards|
    {
      forall i :: i in groups ==> groups[i] == GroupOf(items, i)
    }

    ghost predicate VisitsItems(order: seq<nat>, items: map<string, V>)
      requires mask + 1 == |shards|
    {
      Apart(order) && forall i: nat :: i in order <==> GroupOf(items, i) != map[]
    }

    ghost function SetCalls(items: map<string, V>, ttl: int, order: seq<nat>, clock: nat -> nat): seq<Timed<V>>
      requires mask + 1 == |shards|
    {
      if order == [] then []
      else
        var last := order[|order| - 1];
        SetCalls(items, ttl, order[..|order| - 1], clock) + [Timed(Op.SetMulti(GroupOf(items, last), ttl), clock(last))]
    }

    lemma OneMoreSet(items: map<string, V>, ttl: int, order: seq<nat>, clock: nat -> nat, i: nat)
      requires mask + 1 == |shards|
      ensures SetCalls(items, ttl, order + [i], clock) ==
              SetCalls(items, ttl, order, clock) + [Timed(Op.SetMulti(GroupOf(items, i), ttl), clock(i))]
    {
      assert (order + [i])[..|order|] == order;
    }

    /** The items by shard; the map is walked in any order. */
    method GroupItems(items: map<string, V>) returns (groups: map<nat, map<string, V>>)
      requires mask + 1 == |shards|
      ensures ByShard(groups, items) && forall i: nat :: i in groups <==> GroupOf(items, i) != map[]
    {
      groups := map[];
      var left := items.Keys;
      while left != {}
        invariant left <= items.Keys && Grouped(groups, items, left)
      {
        var key :| key in left;
        var idx := Index(key);
        var group := if idx in groups then groups[idx] else map[];
        GroupKey(groups, items, left, key, group);
        groups := groups[idx := group[key := items[key]]];
        left := left - {key};
      }
      AllGrouped(groups, items);
    }

    /** The groups of the items without those under the keys of `left`. */
    ghost predicate Grouped(groups: map<nat, map<string, V>>, items: map<string, V>, left: set<string>)
      requires mask + 1 == |shards|
    {
      && (forall k :: k in items && k !in left ==> Index(k) in groups)
      && forall i :: i in groups ==> groups[i] == GroupOf(items - left, i) && groups[i] != map[]
    }

    lemma GroupKey(groups: map<nat, map<string, V>>, items: map<string, V>, left: set<string>, key: string,
                   group: map<string, V>)
      requires mask + 1 == |shards| && key in left && key in items && Grouped(groups, items, left)
      requires group == if Index(key) in groups then groups[Index(key)] else map[]
      ensures Grouped(groups[Index(key) := group[key := items[key]]], items, left - {key})
    {
      var idx, rest := Index(key), left - {key};
      var after := groups[idx := group[key := items[key]]];
      NothingIn(groups, items, left, idx);
      hide GroupOf;
      forall i | i in after ensures after[i] == GroupOf(items - rest, i) && after[i] != map[] {
        GroupGrows(items, left, key, i);
        if i == idx {
          assert key in after[i];
        }
      }
    }

    lemma NothingIn(groups: map<nat, map<string, V>>, items: map<string, V>, left: set<string>, i: nat)
      requires mask + 1 == |shards| && Grouped(groups, items, left)
      ensures i !in groups ==> GroupOf(items - left, i) == map[]
    {
    }

    lemma GroupGrows(items: map<string, V>, left: set<string>, key: string, i: nat)
      requires mask + 1 == |shards| && key in left && key in items
      ensures var before := GroupOf(items - left, i);
              GroupOf(items - (left - {key}), i) == if i == Index(key) then before[key := items[key]] else before
    {
    }

    lemma AllGrouped(groups: map<nat, map<string, V>>, items: map<string, V>)
      requires mask + 1 == |shards| && Grouped(groups, items, {})
      ensures ByShard(groups, items) && forall i: nat :: i in groups <==> GroupOf(items, i) != map[]
    {
      assert items - {} == items;
      forall i: nat | GroupOf(items, i) != map[] ensures i in groups {
        var k :| k in GroupOf(items, i);
      }
    }

    /** What SetMulti stores, without the shards in `left`: every shard reads the clock once,
        at its own time. */
    ghost function StampedFor(items: map<string, V>, ttl: int, clock: nat -> nat, left: set<nat>): Store<V>
      requires mask + 1 == |shards|
    {
      map k | k in items && Index(k) !in left :: Item(items[k], ExpiryOf(ttl, clock(Index(k))))
    }

    /** The calls of others, then the items of one group. */
    method SetNext(group: map<string, V>, ttl: int, now: nat, ghost m: Store<V>, ghost tr: Trace<V>)
      returns (ghost tr': Trace<V>)
      requires Valid() && contents == At(m, tr)
      modifies this`contents, this`turn, shards
      ensures Valid() && contents == At(m, tr') && turn == old(turn) + 1
      ensures MineOf(tr') == MineOf(tr) + [Timed(Op.SetMulti(group, ttl), now)]
      ensures TheirsOf(tr') == TheirsOf(tr) + environment(old(turn))
      ensures environment(old(turn)) == [] ==> contents == old(contents) + Stamped(group, ttl, now)
    {
      hide Valid;
      tr' := Others(m, tr);
      SetGroup(group, ttl, now);
      tr' := Mine(tr', Timed(Op.SetMulti(group, ttl), now));
    }

    /** Where a SetMulti stands that began with m in turn `from` and is now in turn `to`. */
    ghost predicate Storing(now: Store<V>, m: Store<V>, items: map<string, V>, ttl: int, clock: nat -> nat,
                            tr: Trace<V>, order: seq<nat>, all: set<nat>, left: set<nat>, from: nat, to: nat)
      requires mask + 1 == |shards|
    {
      && now == At(m, tr) && Progress(tr, order, all, left, from, to)
      && MineOf(tr) == SetCalls(items, ttl, order, clock)
      && (TheirsOf(tr) == [] ==> now == m + StampedFor(items, ttl, clock, left))
    }

    method StoreStep(groups: map<nat, map<string, V>>, idx: nat, ttl: int, clock: nat -> nat,
                     ghost items: map<string, V>, ghost m: Store<V>, ghost tr: Trace<V>, ghost order: seq<nat>,
                     ghost left: set<nat>, ghost from: nat)
      returns (ghost tr': Trace<V>)
      requires Valid() && idx in groups && idx in left && ByShard(groups, items)
      requires Storing(contents, m, items, ttl, clock, tr, order, groups.Keys, left, from, turn)
      modifies this`contents, this`turn, shards
      ensures Valid() && turn == old(turn) + 1
      ensures Storing(contents, m, items, ttl, clock, tr', order + [idx], groups.Keys, left - {idx}, from, turn)
    {
      assert mask + 1 == |shards|;
      hide Valid, At, MineOf, TheirsOf, Progress, SetCalls, Stamped, StampedFor, GroupOf;
      tr' := SetNext(groups[idx], ttl, clock(idx), m, tr);
      ProgressMore(tr, tr', order, groups.Keys, left, idx, from, turn - 1);
      OneMoreSet(items, ttl, order, clock, idx);
      StampGroup(m, items, ttl, clock, left, idx);
    }

    /** Stores group by group, in any order, each group at one moment, with the calls of others
        in between.  If nobody else does anything, exactly the given items are stored. */
    method SetMulti(items: map<string, V>, ttl: int, clock: nat -> nat)
      returns (ghost order: seq<nat>, ghost tr: Trace<V>)
      requires Valid()
      modifies this`contents, this`turn, shards
      ensures Valid() && contents == At(old(contents), tr)
      ensures old(turn) <= turn && TheirsOf(tr) == EnvOps(old(turn), turn)
      ensures VisitsItems(order, items) && MineOf(tr) == SetCalls(items, ttl, order, clock)
      ensures TheirsOf(tr) == [] ==> contents == old(contents) + StampedFor(items, ttl, clock, {})
    {
      assert mask + 1 == |shards|;
      hide Valid, Storing, ByShard, GroupOf, At, MineOf, TheirsOf, EnvOps, SetCalls, StampedFor, VisitsItems;
      order, tr := [], Start;
      var groups := GroupItems(items);
      NothingStored(contents, items, ttl, clock, groups.Keys, turn);
      var left := groups.Keys;
      while left != {}
        invariant Valid() && old(turn) <= turn && left <= groups.Keys
        invariant Storing(contents, old(contents), items, ttl, clock, tr, order, groups.Keys, left, old(turn), turn)
      {
        var idx :| idx in left;
        tr := StoreStep(groups, idx, ttl, clock, items, old(contents), tr, order, left, old(turn));
        left, order := left - {idx}, order + [idx];
      }
      AllStored(contents, old(contents), items, ttl, clock, tr, order, groups.Keys, old(turn), turn);
    }

    lemma NothingStored(m: Store<V>, items: map<string, V>, ttl: int, clock: nat -> nat, all: set<nat>, from: nat)
      requires mask + 1 == |shards| && forall i: nat :: i in all <==> GroupOf(items, i) != map[]
      ensures Storing(m, m, items, ttl, clock, Start, [], all, all, from, from)
    {
      NoProgressYet(all, from);
      forall k | k in items ensures Index(k) in all {
        assert k in GroupOf(items, Index(k));
      }
    }

    lemma AllStored(now: Store<V>, m: Store<V>, items: map<string, V>, ttl: int, clock: nat -> nat, tr: Trace<V>,
                    order: seq<nat>, all: set<nat>, from: nat, to: nat)
      requires mask + 1 == |shards| && forall i: nat :: i in all <==> GroupOf(items, i) != map[]
      requires Storing(now, m, items, ttl, clock, tr, order, all, {}, from, to)
      ensures now == At(m, tr) && from <= to && TheirsOf(tr) == EnvOps(from, to)
      ensures VisitsItems(order, items) && MineOf(tr) == SetCalls(items, ttl, order, clock)
      ensures TheirsOf(tr) == [] ==> now == m + StampedFor(items, ttl, clock, {})
    {
    }

    lemma StampGroup(m: Store<V>, items: map<string, V>, ttl: int, clock: nat -> nat, left: set<nat>, idx: nat)
      requires mask + 1 == |shards| && idx in left
      ensures m + StampedFor(items, ttl, clock, left) + Stamped(GroupOf(items, idx), ttl, clock(idx)) ==
              m + StampedFor(items, ttl, clock, left - {idx})
    {
      var group := Stamped(GroupOf(items, idx), ttl, clock(idx));
      assert StampedFor(items, ttl, clock, left) + group == StampedFor(items, ttl, clock, left - {idx});
      hide StampedFor, Stamped, GroupOf;
      StoreAssociates(m, StampedFor(items, ttl, clock, left), group);
    }

    lemma StoreAssociates(a: Store<V>, b: Store<V>, c: Store<V>)
      ensures a + b + c == a + (b + c)
    {
    }

    /** One goroutine of SetMulti. */
    method SetGroup(items: map<string, V>, ttl: int, now: nat)
      requires Valid()
      modifies this`contents, shards
      ensures Valid() && contents == old(contents) + Stamped(items, ttl, now)
    {
      var left := items.Keys;
      while left != {}
        invariant Valid() && left <= items.Keys
        invariant contents == old(contents) +
                    map k | k in items && k !in left :: Item(items[k], ExpiryOf(ttl, now))
      {
        var key :| key in left;
        left := left - {key};
        Set(key, items[key], ttl, now);
      }
    }

    // ----- the whole cache -----

    method Clear()
      requires Valid()
      modifies this`contents, shards
      ensures Valid() && contents == map[]
    {
      for i := 0 to |shards|
        invariant forall j :: 0 <= j < i ==> shards[j].items == map[]
      {
        shards[i].items := map[];
      }
      contents := map[];
    }

    /** Expired entries count until they are swept. */
    method Count() returns (total: nat)
      requires Valid()
      ensures total == |contents|
    {
      total := 0;
      for i := 0 to |shards|
        invariant total == |Below(contents, i)|
      {
        BelowStep(contents, i);
        total := total + |shards[i].items|;
      }
      assert Below(contents, |shards|) == contents;
    }

    ghost function Below(m: Store<V>, i: int): Store<V>
      requires mask + 1 == |shards|
    {
      map k | k in m && Index(k) < i :: m[k]
    }

    lemma BelowStep(m: Store<V>, i: nat)
      requires mask + 1 == |shards|
      ensures |Below(m, i + 1)| == |Below(m, i)| + |Part(m, i)|
    {
      var a, b := Below(m, i).Keys, Part(m, i).Keys;
      assert Below(m, i + 1).Keys == a + b && a !! b;
    }

    // ----- the cleanup -----

    /** m without the entries that the sweep of the shards below i removes. */
    ghost function SweptBelow(m: Store<V>, clock: nat -> nat, i: int): Store<V>
      requires mask + 1 == |shards|
    {
      map k | k in m && !(Index(k) < i && Expired(m[k], clock(Index(k)))) :: m[k]
    }

    /** My calls along the trace are the sweeps of the shards 0, 1, ..., each of the keys that
        its shard holds at the moment, each at its own time. */
    ghost predicate SweepsInTurn(m: Store<V>, tr: Trace<V>, clock: nat -> nat)
      requires mask + 1 == |shards|
    {
      match tr
      case Start => true
      case Theirs(before, _) => SweepsInTurn(m, before, clock)
      case Mine(before, call) =>
        var i := |MineOf(before)|;
        SweepsInTurn(m, before, clock) && call == Timed(Op.Sweep(Part(At(m, before), i).Keys), clock(i))
    }

    lemma {:induction false} OthersDoNotSweep(m: Store<V>, tr: Trace<V>, calls: seq<Timed<V>>, n: nat,
                                              clock: nat -> nat)
      requires mask + 1 == |shards| && n <= |calls| && SweepsInTurn(m, tr, clock)
      ensures SweepsInTurn(m, WithOthers(tr, calls, n), clock)
    {
      if n != 0 {
        OthersDoNotSweep(m, tr, calls, n - 1, clock);
      }
    }

    /** The calls of others, then the sweep of one shard. */
    method SweepNext(i: nat, clock: nat -> nat, ghost m: Store<V>, ghost tr: Trace<V>) returns (ghost tr': Trace<V>)
      requires Valid() && contents == At(m, tr) && i < |shards| && |MineOf(tr)| == i && SweepsInTurn(m, tr, clock)
      modifies this`contents, this`turn, shards
      ensures Valid() && contents == At(m, tr') && turn == old(turn) + 1
      ensures SweepsInTurn(m, tr', clock) && |MineOf(tr')| == i + 1
      ensures TheirsOf(tr') == TheirsOf(tr) + environment(old(turn))
      ensures environment(old(turn)) == [] ==> contents == Swept(old(contents), Part(old(contents), i).Keys, clock(i))
    {
      tr' := Others(m, tr);
      OthersDoNotSweep(m, tr, environment(old(turn)), |environment(old(turn))|, clock);
      ghost var present := Part(contents, i).Keys;
      assert shards[i].items.Keys == present;
      hide Valid;
      SweepPart(shards[i].items.Keys, clock(i));
      tr' := Mine(tr', Timed(Op.Sweep(present), clock(i)));
    }

    /** Shard by shard, each at its own time, with the calls of others in between.  If nobody
        else does anything, exactly the entries that are expired when their shard is swept are
        gone, and if all this takes no time, exactly the expired entries of the map. */
    method Cleanup(clock: nat -> nat) returns (ghost tr: Trace<V>)
      requires Valid()
      modifies this`contents, this`turn, shards
      ensures Valid() && contents == At(old(contents), tr)
      ensures old(turn) <= turn && TheirsOf(tr) == EnvOps(old(turn), turn)
      ensures SweepsInTurn(old(contents), tr, clock) && |MineOf(tr)| == |shards|
      ensures TheirsOf(tr) == [] ==> contents == SweptBelow(old(contents), clock, |shards|)
      ensures forall now: nat :: TheirsOf(tr) == [] && OneTime(clock, now) ==>
                contents == Swept(old(contents), old(contents).Keys, now)
    {
      assert mask + 1 == |shards|;
      TraceStart(contents);
      SweepStart(contents, clock);
      hide Valid, At, MineOf, TheirsOf, SweepsInTurn, SweptBelow, Swept;
      ghost var m := contents;
      tr := Start;
      for i := 0 to |shards|
        invariant Valid() && contents == At(m, tr)
        invariant old(turn) <= turn && TheirsOf(tr) == EnvOps(old(turn), turn)
        invariant SweepsInTurn(m, tr, clock) && |MineOf(tr)| == i
        invariant TheirsOf(tr) == [] ==> contents == SweptBelow(m, clock, i)
      {
        tr := SweepNext(i, clock, m, tr);
        SweptMore(m, clock, i);
      }
      forall now: nat | OneTime(clock, now)
        ensures SweptBelow(m, clock, |shards|) == Swept(m, m.Keys, now)
      {
        SweptAll(m, clock, now);
      }
    }

    /** Every shard is swept at the same moment. */
    ghost predicate OneTime(clock: nat -> nat, now: nat) {
      forall i: nat :: clock(i) == now
    }

    lemma SweepStart(m: Store<V>, clock: nat -> nat)
      requires mask + 1 == |shards|
      ensures SweepsInTurn(m, Start, clock) && SweptBelow(m, clock, 0) == m
    {
    }

    lemma SweptMore(m: Store<V>, clock: nat -> nat, i: nat)
      requires mask + 1 == |shards|
      ensures var n := SweptBelow(m, clock, i);
              Swept(n, Part(n, i).Keys, clock(i)) == SweptBelow(m, clock, i + 1)
    {
    }

    lemma SweptAll(m: Store<V>, clock: nat -> nat, now: nat)
      requires mask + 1 == |shards| && OneTime(clock, now)
      ensures SweptBelow(m, clock, |shards|) == Swept(m, m.Keys, now)
    {
    }

    /** The loop over the entries of one shard, or over any keys. */
    method SweepPart(part: set<string>, now: nat)
      requires Valid()
      modifies this`contents, shards
      ensures Valid() && contents == Swept(old(contents), part, now)
    {
      var left := part;
      while left != {}
        invariant Valid() && left <= part
        invariant contents == Swept(old(contents), part - left, now)
      {
        var key :| key in left;
        left := left - {key};
        var shard := shards[Index(key)];
        if key in shard.items {
          var item := shard.items[key];
          if item.expiry > 0 && now >= item.expiry {
            Delete(key);
          }
        }
      }
    }
  }
}
