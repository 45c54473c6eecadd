/** One key of one Redis server, and the three commands the locks send it.
    Every command is a function from the key's entry to its new entry. */
module KeyServer {

  /** The stored value is the uuid of a lock object; here it is the object's number. */
  datatype Entry = Absent | Key(owner: nat, expiry: int)

  /** Redis treats a key as gone from the moment its expiry is reached. */
  predicate Live(e: Entry, now: int) {
    e.Key? && now < e.expiry
  }

  predicate OwnedBy(e: Entry, owner: nat, now: int) {
    Live(e, now) && e.owner == owner
  }

  /** `SET key value NX PX ttl`; it succeeds exactly when the key was not live. */
  function SetNX(e: Entry, me: nat, now: int, ttl: int): Entry {
    if Live(e, now) then e else Key(me, now + ttl)
  }

  /** The release script: delete the key only if it still holds my value. */
  function CompareAndDelete(e: Entry, me: nat, now: int): Entry {
    if OwnedBy(e, me, now) then Absent else e
  }

  /** The renewal script: move the expiry only if the key still holds my value. */
  function CompareAndExtend(e: Entry, me: nat, now: int, ttl: int): Entry {
    if OwnedBy(e, me, now) then Key(me, now + ttl) else e
  }
}
