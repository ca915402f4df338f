/**
 An in-memory, string-keyed cache whose entries may carry an absolute
 expiration deadline. Expired entries are evicted lazily: only a lookup
 (`Get`, or `Keys`, which looks up every key) removes them.

 The wall clock is not modelled: every operation that needs the current
 time takes it as the parameter `now`.
 */
module Cache {

  /** An absolute instant, as an abstract integer timestamp. */
  type Time = int

  /** The zero instant, the value an unset deadline holds. */
  const ZeroTime: Time := 0

  predicate IsZero(t: Time) {
    t == ZeroTime
  }

  /** `t` lies strictly before `u`. */
  predicate Before(t: Time, u: Time) {
    t < u
  }

  /** One stored entry: the value and its deadline (`ZeroTime` when none). */
  datatype Item = Item(value: string, expiration: Time)
  {
    /** An entry without a deadline never expires; otherwise it is expired
        once its deadline lies strictly before `now`. */
    predicate IsExpired(now: Time) {
      if IsZero(expiration) then false else Before(expiration, now)
    }
  }

  /** The keys of `m` whose entries are live (not expired) at `now`. */
  function LiveKeys(m: map<string, Item>, now: Time): set<string> {
    set k | k in m && !m[k].IsExpired(now)
  }

  /** `m` with every entry expired at `now` removed. */
  function Evict(m: map<string, Item>, now: Time): map<string, Item> {
    map k | k in LiveKeys(m, now) :: m[k]
  }

  /** The set of elements of a sequence. */
  function Elements(s: seq<string>): set<string> {
    set x | x in s
  }

  /** No element occurs twice in `s`. */
  predicate Distinct(s: seq<string>) {
    forall i, j :: 0 <= i < j < |s| ==> s[i] != s[j]
  }

  /** A duplicate-free sequence has exactly as many elements as its set. */
  lemma {:induction false} DistinctCardinality(s: seq<string>)
    requires Distinct(s)
    ensures |Elements(s)| == |s|
  {
    if s != [] {
      var tail := s[1..];
      assert Distinct(tail) by {
        forall i, j | 0 <= i < j < |tail| ensures tail[i] != tail[j] {
          assert tail[i] == s[i + 1] && tail[j] == s[j + 1];
        }
      }
      DistinctCardinality(tail);
      assert Elements(s) == Elements(tail) + {s[0]};
      assert s[0] !in Elements(tail);
    }
  }

  class Cache {
    var items: map<string, Item>

    /** A new cache holds no entries. */
    constructor ()
      ensures items == map[]
    {
      items := map[];
    }

    /** Looks `key` up at time `now`. A missing key, or a key whose entry has
        expired, yields `("", false)`; an expired entry is deleted on the way.
        A live entry yields its value and leaves the cache as it was. */
    method Get(key: string, now: Time) returns (value: string, found: bool)
      modifies this
      ensures found <==> key in LiveKeys(old(items), now)
      ensures !found ==> value == ""
      ensures key !in old(items) ==> items == old(items)
      ensures key in old(items) && old(items)[key].IsExpired(now) ==>
                items == old(items) - {key}
      ensures key in old(items) && !old(items)[key].IsExpired(now) ==>
                value == old(items)[key].value && items == old(items)
    {
      if key !in items {
        return "", false;
      }
      var i := items[key];
      if i.IsExpired(now) {
        items := items - {key};
        return "", false;
      }
      return i.value, true;
    }

    /** Stores `value` under `key` with no deadline, replacing any entry the
        key had; no other key is touched. */
    method Put(key: string, value: string)
      modifies this
      ensures items == old(items)[key := Item(value, ZeroTime)]
    {
      var i := Item(value, ZeroTime);
      items := items[key := i];
    }

    /** Returns the keys live at `now`, each once and in no particular order,
        looking every key up with `Get` so that expired entries are evicted. */
    method Keys(now: Time) returns (result: seq<string>)
      modifies this
      ensures Distinct(result)
      ensures Elements(result) == LiveKeys(old(items), now)
      ensures |result| == |LiveKeys(old(items), now)|
      ensures items == Evict(old(items), now)
    {
      ghost var m0 := items;
      result := [];
      var pending := items.Keys;
      while pending != {}
        invariant pending <= m0.Keys
        invariant forall k :: k in items <==> k in m0 && (k in pending || !m0[k].IsExpired(now))
        invariant forall k :: k in items ==> items[k] == m0[k]
        invariant Elements(result) == LiveKeys(m0, now) - pending
        invariant Distinct(result)
        decreases pending
      {
        var k :| k in pending;
        assert k in items && items[k] == m0[k];
        var _, ok := Get(k, now);
        assert ok <==> k in LiveKeys(m0, now);
        if ok {
          assert Elements(result + [k]) == Elements(result) + {k};
          result := result + [k];
        }
        pending := pending - {k};
      }
      assert items == Evict(m0, now);
      DistinctCardinality(result);
    }

    /** Stores `value` under `key` with the given deadline, replacing any
        entry the key had; no other key is touched. A deadline already in the
        past is stored all the same and only evicted by a later lookup. */
    method PutTill(key: string, value: string, deadline: Time)
      modifies this
      ensures items == old(items)[key := Item(value, deadline)]
    {
      var i := Item(value, deadline);
      items := items[key := i];
    }
  }
}
