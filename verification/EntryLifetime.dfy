/** How long an entry answers: a matter of its ttl and the clock alone. */
module EntryLifetime {
  import opened Options
  import opened ExpiringMap

  /** An entry with this ttl, stored at time t, is still to be answered at time `now`. */
  predicate Alive(ttl: int, t: nat, now: nat) {
    ttl <= 0 || now < t + ttl
  }

  /** The operation does not write or delete the entry of k that was stored at time t.  GetOrSet
      stores a value only if it finds none. */
  predicate LeavesAlone<V>(call: Timed<V>, k: string, ttl: int, t: nat) {
    match call.op
    case Get(_) => true
    case Has(_) => true
    case Set(x, _, _) => x != k
    case Delete(x) => x != k
    case GetOrSet(x, _, _) => x != k || Alive(ttl, t, call.now)
    case GetMulti(_) => true
    case SetMulti(items, _) => k !in items
    case DeleteMulti(keys) => k !in keys
    case Clear => false
    case Sweep(_) => true
  }

  /** Calls from time t to time `now`, in order, that leave the entry alone. */
  ghost predicate Between<V>(calls: seq<Timed<V>>, k: string, ttl: int, t: nat, now: nat) {
    && t <= now && Sorted(calls)
    && forall i :: 0 <= i < |calls| ==> t <= calls[i].now <= now && LeavesAlone(calls[i], k, ttl, t)
  }

  /** The entry is there, or was swept away after its time. */
  ghost predicate Stored<V>(m: Store<V>, k: string, v: V, ttl: int, t: nat, now: nat) {
    if k in m then m[k] == Item(v, ExpiryOf(ttl, t)) else !Alive(ttl, t, now)
  }

  lemma StepKeepsStored<V>(m: Store<V>, call: Timed<V>, k: string, v: V, ttl: int, t: nat, now: nat)
    requires Stored(m, k, v, ttl, t, now) && t <= now <= call.now && LeavesAlone(call, k, ttl, t)
    ensures Stored(After(m, call.op, call.now), k, v, ttl, t, call.now)
  {
  }

  lemma {:induction false} StaysStored<V>(m: Store<V>, calls: seq<Timed<V>>, k: string, v: V, ttl: int, t: nat,
                                          from: nat, now: nat)
    requires Stored(m, k, v, ttl, t, from) && t <= from <= now && Between(calls, k, ttl, t, now)
    requires forall i :: 0 <= i < |calls| ==> from <= calls[i].now
    ensures Stored(Run(m, calls), k, v, ttl, t, now)
    decreases |calls|
  {
    if calls != [] {
      var rest := calls[1..];
      StepKeepsStored(m, calls[0], k, v, ttl, t, from);
      assert forall i :: 0 <= i < |rest| ==> rest[i] == calls[i + 1];
      StaysStored(After(m, calls[0].op, calls[0].now), rest, k, v, ttl, t, calls[0].now, now);
    }
  }

  /** What k answers at time `now`. */
  ghost predicate Answers<V>(m: Store<V>, k: string, v: V, yes: bool, now: nat) {
    && Reply(m, Op.Get(k), now) == Value(if yes then Some(v) else None)
    && Reply(m, Op<V>.Has(k), now) == Present(yes)
  }

  lemma StoredAnswers<V>(m: Store<V>, k: string, v: V, ttl: int, t: nat, now: nat)
    requires Stored(m, k, v, ttl, t, now)
    ensures Answers(m, k, v, Alive(ttl, t, now), now)
  {
  }

  lemma FirstCall<V>(m: Store<V>, call: Timed<V>, calls: seq<Timed<V>>)
    ensures Run(m, [call] + calls) == Run(After(m, call.op, call.now), calls)
  {
    assert ([call] + calls)[1..] == calls;
  }

  /** The lifetime of an entry.  After Set(k, v, ttl) at time t, whatever calls and sweeps come in
      between as long as none of them writes or deletes k, a Get or Has of k at time `now` finds v
      exactly when ttl is not positive or `now` is before t + ttl. */
  lemma SetLives<V>(m: Store<V>, k: string, v: V, ttl: int, t: nat, calls: seq<Timed<V>>, now: nat)
    requires Between(calls, k, ttl, t, now)
    ensures Answers(Run(m, [Timed(Set(k, v, ttl), t)] + calls), k, v, ttl <= 0 || now < t + ttl, now)
  {
    FirstCall(m, Timed(Set(k, v, ttl), t), calls);
    StaysStored(After(m, Set(k, v, ttl), t), calls, k, v, ttl, t, t, now);
    StoredAnswers(Run(After(m, Set(k, v, ttl), t), calls), k, v, ttl, t, now);
  }

  lemma SetMultiLives<V>(m: Store<V>, items: map<string, V>, k: string, ttl: int, t: nat, calls: seq<Timed<V>>,
                         now: nat)
    requires k in items && Between(calls, k, ttl, t, now)
    ensures Answers(Run(m, [Timed(SetMulti(items, ttl), t)] + calls), k, items[k], ttl <= 0 || now < t + ttl, now)
  {
    FirstCall(m, Timed(SetMulti(items, ttl), t), calls);
    StaysStored(After(m, SetMulti(items, ttl), t), calls, k, items[k], ttl, t, t, now);
    StoredAnswers(Run(After(m, SetMulti(items, ttl), t), calls), k, items[k], ttl, t, now);
  }

  /** The same for a GetOrSet that finds nothing. */
  lemma GetOrSetLives<V>(m: Store<V>, k: string, v: V, ttl: int, t: nat, calls: seq<Timed<V>>, now: nat)
    requires Reply(m, Op.Get(k), t) == Value(None) && Between(calls, k, ttl, t, now)
    ensures Reply(m, GetOrSet(k, v, ttl), t) == Loaded(v, false)
    ensures Answers(Run(m, [Timed(GetOrSet(k, v, ttl), t)] + calls), k, v, ttl <= 0 || now < t + ttl, now)
  {
    FirstCall(m, Timed(GetOrSet(k, v, ttl), t), calls);
    StaysStored(After(m, GetOrSet(k, v, ttl), t), calls, k, v, ttl, t, t, now);
    StoredAnswers(Run(After(m, GetOrSet(k, v, ttl), t), calls), k, v, ttl, t, now);
  }

  // ----- deletion -----

  predicate Removes<V>(op: Op<V>, k: string) {
    match op
    case Delete(x) => x == k
    case DeleteMulti(keys) => k in keys
    case Clear => true
    case _ => false
  }

  predicate Writes<V>(op: Op<V>, k: string) {
    match op
    case Set(x, _, _) => x == k
    case GetOrSet(x, _, _) => x == k
    case SetMulti(items, _) => k in items
    case _ => false
  }

  lemma {:induction false} StaysAway<V>(m: Store<V>, calls: seq<Timed<V>>, k: string)
    requires k !in m && forall i :: 0 <= i < |calls| ==> !Writes(calls[i].op, k)
    ensures k !in Run(m, calls)
    decreases |calls|
  {
    if calls != [] {
      assert !Writes(calls[0].op, k);
      assert forall i :: 0 <= i < |calls[1..]| ==> calls[1..][i] == calls[i + 1];
      StaysAway(After(m, calls[0].op, calls[0].now), calls[1..], k);
    }
  }

  /** What is deleted, alone, with others or with everything, is not found again until it is
      written again. */
  lemma DeletedIsGone<V>(m: Store<V>, op: Op<V>, t: nat, calls: seq<Timed<V>>, k: string, now: nat)
    requires Removes(op, k) && forall i :: 0 <= i < |calls| ==> !Writes(calls[i].op, k)
    ensures var u := Run(m, [Timed(op, t)] + calls);
            Reply(u, Op.Get(k), now) == Value(None) && Reply(u, Op<V>.Has(k), now) == Present(false)
  {
    FirstCall(m, Timed(op, t), calls);
    assert k !in After(m, op, t);
    StaysAway(After(m, op, t), calls, k);
  }

  // ----- what one call means for single keys -----

  /** A call changes no key but those that it writes or removes. */
  lemma OtherKeysStay<V>(m: Store<V>, call: Timed<V>, k: string)
    requires !Writes(call.op, k) && !Removes(call.op, k)
    ensures Reply(After(m, call.op, call.now), Op.Get(k), call.now) == Reply(m, Op.Get(k), call.now)
  {
  }

  /** GetOrSet of a key that is found returns what Get returns, and changes nothing. */
  lemma GetOrSetFinds<V>(m: Store<V>, k: string, found: V, v: V, ttl: int, now: nat)
    requires Reply(m, Op.Get(k), now) == Value(Some(found))
    ensures Reply(m, GetOrSet(k, v, ttl), now) == Loaded(found, true)
    ensures After(m, GetOrSet(k, v, ttl), now) == m
  {
  }

  /** GetMulti returns exactly what Get returns for each of its keys. */
  lemma GetMultiIsManyGets<V>(m: Store<V>, keys: seq<string>, now: nat, k: string)
    ensures var r := Reply(m, GetMulti(keys), now);
            && r.Values?
            && (k in keys ==>
                  Reply(m, Op.Get(k), now) == Value(if k in r.values then Some(r.values[k]) else None))
            && (k !in keys ==> k !in r.values)
  {
  }

  /** A sweep of everything keeps exactly the entries that Has still reports, as they are. */
  lemma SweepKeepsLiving<V>(m: Store<V>, now: nat, k: string)
    ensures var swept := After(m, Sweep(m.Keys), now);
            && (k in swept <==> Reply(m, Op<V>.Has(k), now) == Present(true))
            && (k in swept ==> swept[k] == m[k])
  {
  }
}
