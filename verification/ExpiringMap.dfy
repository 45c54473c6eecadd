/** One map with expiring entries: what the sharded cache must look like from outside.
    Times are nanoseconds since the epoch. */
module ExpiringMap {
  import opened Options

  /** expiry 0 means that the entry never expires. */
  datatype Item<V> = Item(value: V, expiry: nat)

  type Store<V> = map<string, Item<V>>

  function ExpiryOf(ttl: int, now: nat): nat {
    if ttl > 0 then now + ttl else 0
  }

  /** The test of Get, GetOrSet and GetMulti. */
  predicate Live<V>(item: Item<V>, now: nat) {
    item.expiry == 0 || now < item.expiry
  }

  /** The test of Has and of the sweep. */
  predicate Expired<V>(item: Item<V>, now: nat) {
    item.expiry > 0 && now >= item.expiry
  }

  function Visible<V>(m: Store<V>, key: string, now: nat): Option<Item<V>> {
    if key in m && Live(m[key], now) then Some(m[key]) else None
  }

  /** One call, or the part of a call that happens at one moment.  Sweep is the cleanup of the
      entries under the keys of `part`. */
  datatype Op<V> =
    | Get(key: string)
    | Has(key: string)
    | Set(key: string, value: V, ttl: int)
    | Delete(key: string)
    | GetOrSet(key: string, value: V, ttl: int)
    | GetMulti(keys: seq<string>)
    | SetMulti(items: map<string, V>, ttl: int)
    | DeleteMulti(keys: seq<string>)
    | Clear
    | Sweep(part: set<string>)

  datatype Answer<V> =
    | Nothing
    | Value(value: Option<V>)
    | Present(yes: bool)
    | Loaded(loaded: V, found: bool)
    | Values(values: map<string, V>)

  function Put<V>(m: Store<V>, key: string, value: V, ttl: int, now: nat): Store<V> {
    m[key := Item(value, ExpiryOf(ttl, now))]
  }

  function Drop<V>(m: Store<V>, key: string): Store<V> {
    m - {key}
  }

  function KeySet(keys: seq<string>): set<string> {
    set k | k in keys
  }

  function Stamped<V>(items: map<string, V>, ttl: int, now: nat): Store<V> {
    map k | k in items :: Item(items[k], ExpiryOf(ttl, now))
  }

  function Swept<V>(m: Store<V>, part: set<string>, now: nat): Store<V> {
    map k | k in m && !(k in part && Expired(m[k], now)) :: m[k]
  }

  function After<V>(m: Store<V>, op: Op<V>, now: nat): Store<V> {
    match op
    case Get(_) => m
    case Has(_) => m
    case Set(k, v, ttl) => Put(m, k, v, ttl, now)
    case Delete(k) => Drop(m, k)
    case GetOrSet(k, v, ttl) => if Visible(m, k, now).Some? then m else Put(m, k, v, ttl, now)
    case GetMulti(_) => m
    case SetMulti(items, ttl) => m + Stamped(items, ttl, now)
    case DeleteMulti(keys) => m - KeySet(keys)
    case Clear => map[]
    case Sweep(part) => Swept(m, part, now)
  }

  function Found<V>(m: Store<V>, keys: set<string>, now: nat): map<string, V> {
    map k | k in keys && Visible(m, k, now).Some? :: m[k].value
  }

  function Reply<V>(m: Store<V>, op: Op<V>, now: nat): Answer<V> {
    match op
    case Get(k) => Value(if Visible(m, k, now).Some? then Some(m[k].value) else None)
    case Has(k) => Present(Visible(m, k, now).Some?)
    case GetOrSet(k, v, _) =>
      if Visible(m, k, now).Some? then Loaded(m[k].value, true) else Loaded(v, false)
    case GetMulti(keys) => Values(Found(m, KeySet(keys), now))
    case _ => Nothing
  }

  // ----- runs -----

  datatype Timed<V> = Timed(op: Op<V>, now: nat)

  ghost predicate Sorted<V>(ops: seq<Timed<V>>) {
    forall i, j :: 0 <= i < j < |ops| ==> ops[i].now <= ops[j].now
  }

  function Run<V>(m: Store<V>, ops: seq<Timed<V>>): Store<V>
    decreases |ops|
  {
    if ops == [] then m else Run(After(m, ops[0].op, ops[0].now), ops[1..])
  }

  // ----- multiple operations in parts -----

  ghost predicate KeyInSome(parts: seq<seq<string>>, k: string) {
    exists i :: 0 <= i < |parts| && k in parts[i]
  }

  /** The parts are a division of the keys, in any order and with any overlap. */
  ghost predicate Divides(parts: seq<seq<string>>, keys: seq<string>) {
    forall k: string :: k in keys <==> KeyInSome(parts, k)
  }

  lemma KeyInFirst(parts: seq<seq<string>>, k: string)
    requires parts != []
    ensures KeyInSome(parts, k) <==> k in parts[0] || KeyInSome(parts[1..], k)
  {
    if KeyInSome(parts[1..], k) {
      var i :| 0 <= i < |parts[1..]| && k in parts[1..][i];
      assert parts[i + 1] == parts[1..][i];
    }
    if i :| 0 <= i < |parts| && k in parts[i] && k !in parts[0] {
      assert parts[1..][i - 1] == parts[i];
    }
  }

  function FoundTogether<V>(m: Store<V>, parts: seq<seq<string>>, now: nat): map<string, V>
    decreases |parts|
  {
    if parts == [] then map[] else Found(m, KeySet(parts[0]), now) + FoundTogether(m, parts[1..], now)
  }

  lemma {:induction false} FoundAmong<V>(m: Store<V>, parts: seq<seq<string>>, now: nat, k: string)
    ensures var found := FoundTogether(m, parts, now);
            && (k in found <==> KeyInSome(parts, k) && Visible(m, k, now).Some?)
            && (k in found ==> found[k] == m[k].value)
    decreases |parts|
  {
    if parts != [] {
      FoundAmong(m, parts[1..], now, k);
      KeyInFirst(parts, k);
    }
  }

  /** A multiple read done in any number of parts finds what the whole read finds. */
  lemma FoundInParts<V>(m: Store<V>, parts: seq<seq<string>>, keys: seq<string>, now: nat)
    requires Divides(parts, keys)
    ensures FoundTogether(m, parts, now) == Found(m, KeySet(keys), now)
  {
    forall k | k in FoundTogether(m, parts, now) || k in Found(m, KeySet(keys), now)
      ensures k in FoundTogether(m, parts, now) && k in Found(m, KeySet(keys), now)
      ensures FoundTogether(m, parts, now)[k] == Found(m, KeySet(keys), now)[k]
    {
      FoundAmong(m, parts, now, k);
    }
  }

  function Deletes<V>(parts: seq<seq<string>>, times: seq<nat>): seq<Timed<V>>
    requires |parts| == |times|
  {
    seq(|parts|, i requires 0 <= i < |parts| => Timed(DeleteMulti(parts[i]), times[i]))
  }

  /** A multiple deletion done in any number of parts, each at its own time, is the whole
      deletion. */
  lemma DeletedInParts<V>(m: Store<V>, parts: seq<seq<string>>, times: seq<nat>, keys: seq<string>, now: nat)
    requires Divides(parts, keys) && |parts| == |times|
    ensures Run(m, Deletes(parts, times)) == After(m, DeleteMulti(keys), now)
  {
    forall k: string ensures k in Run(m, Deletes(parts, times)) <==> k in m && k !in keys
                     ensures k in Run(m, Deletes(parts, times)) ==> Run(m, Deletes(parts, times))[k] == m[k] {
      DeletedAt(m, parts, times, k);
    }
  }

  lemma {:induction false} DeletedAt<V>(m: Store<V>, parts: seq<seq<string>>, times: seq<nat>, k: string)
    requires |parts| == |times|
    ensures var u := Run(m, Deletes(parts, times));
            (k in u <==> k in m && !KeyInSome(parts, k)) && (k in u ==> u[k] == m[k])
    decreases |parts|
  {
    if parts != [] {
      var ops := Deletes<V>(parts, times);
      assert ops[1..] == Deletes(parts[1..], times[1..]);
      assert KeySet(parts[0]) == set x | x in parts[0];
      DeletedAt(After(m, DeleteMulti(parts[0]), times[0]), parts[1..], times[1..], k);
      KeyInFirst(parts, k);
    }
  }

  function Stores<V>(parts: seq<map<string, V>>, ttl: int, now: nat): seq<Timed<V>> {
    seq(|parts|, i requires 0 <= i < |parts| => Timed(SetMulti(parts[i], ttl), now))
  }

  /** Each part holds some of the items, and each item is in some part. */
  ghost predicate DividesItems<V>(parts: seq<map<string, V>>, items: map<string, V>) {
    && (forall i, k :: 0 <= i < |parts| && k in parts[i] ==> k in items && parts[i][k] == items[k])
    && forall k :: k in items ==> ItemInSome(parts, k)
  }

  ghost predicate ItemInSome<V>(parts: seq<map<string, V>>, k: string) {
    exists i :: 0 <= i < |parts| && k in parts[i]
  }

  /** A multiple store done in any number of parts is the whole store. */
  lemma StoredInParts<V>(m: Store<V>, parts: seq<map<string, V>>, items: map<string, V>, ttl: int, now: nat)
    requires DividesItems(parts, items)
    ensures Run(m, Stores(parts, ttl, now)) == After(m, SetMulti(items, ttl), now)
  {
    var u, v := Run(m, Stores(parts, ttl, now)), After(m, SetMulti(items, ttl), now);
    forall k: string ensures k in u <==> k in v
                     ensures k in u ==> u[k] == v[k] {
      StoredAt(m, parts, items, ttl, now, k);
    }
  }

  lemma {:induction false} StoredAt<V>(m: Store<V>, parts: seq<map<string, V>>, items: map<string, V>, ttl: int,
                                       now: nat, k: string)
    requires forall i, x :: 0 <= i < |parts| && x in parts[i] ==> x in items && parts[i][x] == items[x]
    ensures var u := Run(m, Stores(parts, ttl, now));
            && (k in u <==> k in m || ItemInSome(parts, k))
            && (ItemInSome(parts, k) ==> k in items && u[k] == Item(items[k], ExpiryOf(ttl, now)))
            && (k in u && !ItemInSome(parts, k) ==> u[k] == m[k])
    decreases |parts|
  {
    if parts != [] {
      assert Stores(parts, ttl, now)[1..] == Stores(parts[1..], ttl, now);
      StoredAt(After(m, SetMulti(parts[0], ttl), now), parts[1..], items, ttl, now, k);
      ItemInFirst(parts, k);
    }
  }

  lemma ItemInFirst<V>(parts: seq<map<string, V>>, k: string)
    requires parts != []
    ensures ItemInSome(parts, k) <==> k in parts[0] || ItemInSome(parts[1..], k)
  {
    if ItemInSome(parts[1..], k) {
      var i :| 0 <= i < |parts[1..]| && k in parts[1..][i];
      assert parts[i + 1] == parts[1..][i];
    }
    if i :| 0 <= i < |parts| && k in parts[i] && k !in parts[0] {
      assert parts[1..][i - 1] == parts[i];
    }
  }

  // ----- sweeping is invisible -----

  /** The replies to everything but the sweeps. */
  function Replies<V>(m: Store<V>, ops: seq<Timed<V>>): seq<Answer<V>>
    decreases |ops|
  {
    if ops == [] then []
    else (if ops[0].op.Sweep? then [] else [Reply(m, ops[0].op, ops[0].now)]) +
         Replies(After(m, ops[0].op, ops[0].now), ops[1..])
  }

  function WithoutSweeps<V>(ops: seq<Timed<V>>): seq<Timed<V>>
    decreases |ops|
  {
    if ops == [] then []
    else (if ops[0].op.Sweep? then [] else [ops[0]]) + WithoutSweeps(ops[1..])
  }

  /** Two stores that no operation from time t on can tell apart. */
  ghost predicate Alike<V(!new)>(a: Store<V>, b: Store<V>, t: nat) {
    forall k: string :: Visible(a, k, t) == Visible(b, k, t)
  }

  lemma StaysAlike<V(!new)>(a: Store<V>, b: Store<V>, t: nat, now: nat)
    requires Alike(a, b, t) && t <= now
    ensures Alike(a, b, now)
  {
    forall k: string ensures Visible(a, k, now) == Visible(b, k, now) {
      assert Visible(a, k, t) == Visible(b, k, t);
    }
  }

  lemma StepsAlike<V(!new)>(a: Store<V>, b: Store<V>, op: Op<V>, now: nat)
    requires Alike(a, b, now)
    ensures Reply(a, op, now) == Reply(b, op, now)
    ensures Alike(After(a, op, now), After(b, op, now), now)
    ensures op.Sweep? ==> Alike(After(a, op, now), b, now)
  {
    var a', b' := After(a, op, now), After(b, op, now);
    forall k: string
      ensures Visible(a', k, now) == Visible(b', k, now)
      ensures op.Sweep? ==> Visible(a', k, now) == Visible(b, k, now)
    {
      assert Visible(a, k, now) == Visible(b, k, now);
    }
    match op
    case Get(k) => assert Visible(a, k, now) == Visible(b, k, now);
    case Has(k) => assert Visible(a, k, now) == Visible(b, k, now);
    case GetOrSet(k, _, _) => assert Visible(a, k, now) == Visible(b, k, now);
    case GetMulti(keys) =>
      forall k: string ensures Visible(a, k, now) == Visible(b, k, now) {
      }
      assert Found(a, KeySet(keys), now) == Found(b, KeySet(keys), now);
    case _ =>
  }

  lemma {:induction false} AlikeRunsReplyAlike<V(!new)>(a: Store<V>, b: Store<V>, ops: seq<Timed<V>>, t: nat)
    requires Alike(a, b, t) && Sorted(ops) && (ops != [] ==> t <= ops[0].now)
    ensures Replies(a, ops) == Replies(b, WithoutSweeps(ops))
    decreases |ops|
  {
    if ops != [] {
      var op, now, rest := ops[0].op, ops[0].now, ops[1..];
      assert forall i :: 0 <= i < |rest| ==> rest[i] == ops[i + 1];
      StaysAlike(a, b, t, now);
      StepsAlike(a, b, op, now);
      if op.Sweep? {
        AlikeRunsReplyAlike(After(a, op, now), b, rest, now);
        assert WithoutSweeps(ops) == WithoutSweeps(rest);
      } else {
        AlikeRunsReplyAlike(After(a, op, now), After(b, op, now), rest, now);
        assert WithoutSweeps(ops) == [ops[0]] + WithoutSweeps(rest);
        assert WithoutSweeps(ops)[1..] == WithoutSweeps(rest);
      }
    }
  }

  /** Sweeps, however many, of whatever keys and whenever, never change a reply to any other
      operation, single or multiple. */
  lemma CleanupIsInvisible<V(!new)>(m: Store<V>, ops: seq<Timed<V>>)
    requires Sorted(ops)
    ensures Replies(m, ops) == Replies(m, WithoutSweeps(ops))
  {
    if ops != [] {
      AlikeRunsReplyAlike(m, m, ops, ops[0].now);
    }
  }

  // ----- traces: what one caller and all others do, in the order in which it happens -----

  datatype Trace<V> =
    | Start
    | Mine(before: Trace<V>, call: Timed<V>)
    | Theirs(before: Trace<V>, call: Timed<V>)

  function Calls<V>(tr: Trace<V>): seq<Timed<V>> {
    if tr.Start? then [] else Calls(tr.before) + [tr.call]
  }

  function MineOf<V>(tr: Trace<V>): seq<Timed<V>> {
    match tr
    case Start => []
    case Mine(before, call) => MineOf(before) + [call]
    case Theirs(before, _) => MineOf(before)
  }

  function TheirsOf<V>(tr: Trace<V>): seq<Timed<V>> {
    match tr
    case Start => []
    case Mine(before, _) => TheirsOf(before)
    case Theirs(before, call) => TheirsOf(before) + [call]
  }

  /** The map m after a trace. */
  function At<V>(m: Store<V>, tr: Trace<V>): Store<V> {
    if tr.Start? then m else After(At(m, tr.before), tr.call.op, tr.call.now)
  }

  /** What my Gets have found along a trace. */
  function Collected<V>(m: Store<V>, tr: Trace<V>): map<string, V> {
    match tr
    case Start => map[]
    case Theirs(before, _) => Collected(m, before)
    case Mine(before, call) =>
      var got := Collected(m, before);
      if !call.op.Get? then got
      else
        var seen := Visible(At(m, before), call.op.key, call.now);
        if seen.Some? then got[call.op.key := seen.value.value] else got
  }

  /** The first n of these calls are made by others. */
  function WithOthers<V>(tr: Trace<V>, calls: seq<Timed<V>>, n: nat): Trace<V>
    requires n <= |calls|
  {
    if n == 0 then tr else Theirs(WithOthers(tr, calls, n - 1), calls[n - 1])
  }

  lemma {:induction false} OthersKeepMine<V>(m: Store<V>, tr: Trace<V>, calls: seq<Timed<V>>, n: nat)
    requires n <= |calls|
    ensures var after := WithOthers(tr, calls, n);
            && MineOf(after) == MineOf(tr) && TheirsOf(after) == TheirsOf(tr) + calls[..n]
            && Collected(m, after) == Collected(m, tr)
  {
    if n != 0 {
      OthersKeepMine(m, tr, calls, n - 1);
    }
  }

  lemma {:induction false} RunSnoc<V>(m: Store<V>, ops: seq<Timed<V>>, x: Timed<V>)
    ensures Run(m, ops + [x]) == After(Run(m, ops), x.op, x.now)
    decreases |ops|
  {
    if ops == [] {
      assert [x][1..] == [];
    } else {
      RunSnoc(After(m, ops[0].op, ops[0].now), ops[1..], x);
      assert (ops + [x])[1..] == ops[1..] + [x];
    }
  }

  /** A trace is a run of all its calls, so what holds of runs holds of traces. */
  lemma {:induction false} TraceIsARun<V>(m: Store<V>, tr: Trace<V>)
    ensures At(m, tr) == Run(m, Calls(tr))
  {
    if !tr.Start? {
      TraceIsARun(m, tr.before);
      RunSnoc(m, Calls(tr.before), tr.call);
    }
  }
}
