/**
 Properties of the cache that relate several operations or several instants:
 how expiry evolves with time, how writes change the set of live keys, what
 a second lookup or a second enumeration sees, and the concrete scenarios the
 repository's tests exercise.
 */
module CacheLaws {
  import opened Cache

  // ---------------------------------------------------------------------
  // Expiry of a single entry
  // ---------------------------------------------------------------------

  /** An entry written without a deadline is live at every instant. */
  lemma UnsetDeadlineNeverExpires(value: string, now: Time)
    ensures !Item(value, ZeroTime).IsExpired(now)
  {
  }

  /** The comparison is strict: an entry is still live at its own deadline
      and expired from the next instant on. */
  lemma DeadlineBoundary(value: string, deadline: Time)
    requires !IsZero(deadline)
    ensures !Item(value, deadline).IsExpired(deadline)
    ensures Item(value, deadline).IsExpired(deadline + 1)
  {
  }

  /** Once expired, an entry stays expired as time advances. */
  lemma ExpiryIsPermanent(i: Item, t: Time, u: Time)
    requires t <= u && i.IsExpired(t)
    ensures i.IsExpired(u)
  {
  }

  /** As time advances the set of live keys can only shrink. */
  lemma LiveKeysShrinkOverTime(m: map<string, Item>, t: Time, u: Time)
    requires t <= u
    ensures LiveKeys(m, u) <= LiveKeys(m, t)
  {
  }

  // ---------------------------------------------------------------------
  // Writes and the live keys
  // ---------------------------------------------------------------------

  /** A write makes its key live or not according to the new entry alone,
      and leaves the liveness of every other key as it was. */
  lemma WriteLiveKeys(m: map<string, Item>, key: string, i: Item, now: Time)
    ensures LiveKeys(m[key := i], now) ==
              if i.IsExpired(now) then LiveKeys(m, now) - {key}
              else LiveKeys(m, now) + {key}
  {
  }

  // ---------------------------------------------------------------------
  // Eviction
  // ---------------------------------------------------------------------

  /** Evicting keeps exactly the live keys, with their entries untouched, and
      evicting a second time at the same instant changes nothing. */
  lemma EvictIsIdempotent(m: map<string, Item>, now: Time)
    ensures Evict(m, now).Keys == LiveKeys(m, now)
    ensures forall k :: k in Evict(m, now) ==> Evict(m, now)[k] == m[k]
    ensures LiveKeys(Evict(m, now), now) == LiveKeys(m, now)
    ensures Evict(Evict(m, now), now) == Evict(m, now)
  {
  }

  // ---------------------------------------------------------------------
  // Laws over an existing cache
  // ---------------------------------------------------------------------

  /** After `Put`, a lookup finds the written value at any instant, even if
      the key held an entry with a deadline before. */
  method PutThenGet(c: Cache, key: string, value: string, now: Time)
    returns (v: string, found: bool)
    modifies c
    ensures found && v == value
    ensures c.items == old(c.items)[key := Item(value, ZeroTime)]
  {
    c.Put(key, value);
    v, found := c.Get(key, now);
  }

  /** After `PutTill` a lookup finds the written value exactly while the
      deadline is unset or not yet passed; otherwise it evicts the key. */
  method PutTillThenGet(c: Cache, key: string, value: string, deadline: Time, now: Time)
    returns (v: string, found: bool)
    modifies c
    ensures found <==> IsZero(deadline) || now <= deadline
    ensures found ==> v == value && c.items == old(c.items)[key := Item(value, deadline)]
    ensures !found ==> v == "" && c.items == old(c.items) - {key}
  {
    c.PutTill(key, value, deadline);
    v, found := c.Get(key, now);
  }

  /** Two writes to the same key: the later one wins entirely. */
  method OverwriteWins(c: Cache, key: string, v1: string, d1: Time, v2: string, now: Time)
    returns (v: string, found: bool)
    modifies c
    ensures found && v == v2
    ensures c.items == old(c.items)[key := Item(v2, ZeroTime)]
  {
    c.PutTill(key, v1, d1);
    c.Put(key, v2);
    v, found := c.Get(key, now);
  }

  /** `PutTill` with the zero deadline has the same effect as `Put`. */
  method ZeroDeadlineIsPut(a: Cache, b: Cache, key: string, value: string)
    requires a.items == b.items
    modifies a, b
    ensures a.items == b.items
  {
    a.Put(key, value);
    b.PutTill(key, value, ZeroTime);
  }

  /** A lookup of an expired key evicts exactly that key; looking it up again
      still finds nothing and changes nothing more. */
  method GetExpiredTwice(c: Cache, key: string, now: Time)
    returns (v1: string, found1: bool, v2: string, found2: bool)
    requires key in c.items && c.items[key].IsExpired(now)
    modifies c
    ensures v1 == "" && !found1 && v2 == "" && !found2
    ensures c.items == old(c.items) - {key}
  {
    v1, found1 := c.Get(key, now);
    v2, found2 := c.Get(key, now);
  }

  /** A second enumeration at the same instant returns the same keys and
      leaves the cache as the first one left it. */
  method KeysTwice(c: Cache, now: Time) returns (first: seq<string>, second: seq<string>)
    modifies c
    ensures Elements(first) == Elements(second) == LiveKeys(old(c.items), now)
    ensures |first| == |second|
    ensures c.items == Evict(old(c.items), now)
  {
    first := c.Keys(now);
    second := c.Keys(now);
    EvictIsIdempotent(old(c.items), now);
  }

  // ---------------------------------------------------------------------
  // Scenarios of the repository's tests, on a fresh cache
  // ---------------------------------------------------------------------

  /** A new cache finds no key and enumerates nothing. */
  method EmptyCache(key: string, now: Time) returns (v: string, found: bool, keys: seq<string>)
    ensures v == "" && !found
    ensures keys == []
  {
    var c := new Cache();
    v, found := c.Get(key, now);
    keys := c.Keys(now);
  }

  /** Writing "value1" and then "value2" under "key1" reads back "value2". */
  method OverwriteValue(now: Time) returns (v: string, found: bool)
    ensures found && v == "value2"
  {
    var c := new Cache();
    c.Put("key1", "value1");
    c.Put("key1", "value2");
    v, found := c.Get("key1", now);
  }

  /** Three entries, one without a deadline, one due two time units after
      `start` and one due 120 units after; three units later only the second
      has expired, and the enumeration holds the other two keys. */
  method ExpiredValues(start: Time)
    returns (v1: string, ok1: bool, v2: string, ok2: bool, v3: string, ok3: bool,
             vMissing: string, okMissing: bool, keys: seq<string>)
    requires start > 0
    ensures ok1 && v1 == "value1"
    ensures !ok2 && v2 == ""
    ensures ok3 && v3 == "value3"
    ensures !okMissing && vMissing == ""
    ensures Elements(keys) == {"key1", "key3"} && |keys| == 2
  {
    var c := new Cache();
    c.Put("key1", "value1");
    c.PutTill("key2", "value2", start + 2);
    c.PutTill("key3", "value3", start + 120);
    var now := start + 3;
    v1, ok1 := c.Get("key1", now);
    v2, ok2 := c.Get("key2", now);
    v3, ok3 := c.Get("key3", now);
    vMissing, okMissing := c.Get("notExistingKey", now);
    keys := c.Keys(now);
  }
}
