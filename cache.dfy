/**
 * The local-map path of `CacheService` in src/services/cache.js: a `Map`
 * from keys to `{value, timestamp, ttl}` entries, with expiry checked when an
 * entry is read. The Redis client is never connected, so every operation
 * takes its local branch. The current time `now`, in milliseconds, is a
 * parameter of each operation that reads the clock.
 *
 * A `LocalCache` value is the map's content together with the insertion
 * order of its keys, the order a JavaScript `Map` iterates in. The functions
 * on it say what each operation does; the `CacheService` class holds it and
 * performs the operations in place.
 */
module Cache {
  import opened Text

  /** The default time to live of `set`, in seconds. */
  const DefaultTtl: int := 3600

  /** `CACHE_SETTINGS.KEYS`: the prefixes of the per-user keys. */
  const UserProfilePrefix: string := "user:profile:"
  const StudyStatsPrefix: string := "study:stats:"

  /** A stored item; `ttl` is in milliseconds. */
  datatype Entry<V> = Entry(value: V, timestamp: int, ttl: int)

  /** The expiry test of `get`, `exists` and `cleanupExpired`; at exactly `ttl` the entry is live. */
  predicate Expired<V>(e: Entry<V>, now: int) {
    now - e.timestamp > e.ttl
  }

  datatype LocalCache<V> = LocalCache(entries: map<string, Entry<V>>, order: seq<string>)

  predicate Distinct(s: seq<string>) {
    forall i, j :: 0 <= i < j < |s| ==> s[i] != s[j]
  }

  /** The order lists each stored key exactly once. */
  ghost predicate Wellformed<V>(c: LocalCache<V>) {
    Distinct(c.order) && (forall k :: k in c.entries <==> k in c.order)
  }

  /** `s` without the occurrences of `x`, in order. */
  function Without(s: seq<string>, x: string): (r: seq<string>)
    ensures forall k :: k in r <==> k in s && k != x
    ensures Distinct(s) ==> Distinct(r)
    ensures |r| <= |s|
  {
    if s == [] then []
    else
      var rest := Without(s[1..], x);
      assert forall k :: k in s <==> k == s[0] || k in s[1..];
      assert Distinct(s) ==> Distinct(s[1..]) && s[0] !in s[1..] by {
        if Distinct(s) {
          DistinctTail(s);
        }
      }
      if s[0] == x then rest else [s[0]] + rest
  }

  lemma DistinctTail(s: seq<string>)
    requires |s| > 0 && Distinct(s)
    ensures Distinct(s[1..]) && s[0] !in s[1..]
  {
    var rest := s[1..];
    forall i, j | 0 <= i < j < |rest| ensures rest[i] != rest[j] {
      assert rest[i] == s[i + 1] && rest[j] == s[j + 1];
    }
    forall i | 0 <= i < |rest| ensures rest[i] != s[0] {
      assert rest[i] == s[i + 1];
    }
  }

  /** `generateKey(prefix, identifier)`: the prefix followed by the identifier. */
  function GenerateKey(prefix: string, identifier: string): (key: string)
    ensures |key| == |prefix| + |identifier|
    ensures key[..|prefix|] == prefix && key[|prefix|..] == identifier
  {
    prefix + identifier
  }

  /** Keys with the same prefix are equal only for equal identifiers. */
  lemma GenerateKeyInjective(prefix: string, a: string, b: string)
    ensures GenerateKey(prefix, a) == GenerateKey(prefix, b) <==> a == b
  {
    if GenerateKey(prefix, a) == GenerateKey(prefix, b) {
      assert a == GenerateKey(prefix, a)[|prefix|..];
    }
  }

  /** A user's profile key and a user's stats key never coincide. */
  lemma ProfileAndStatsKeysDiffer(a: string, b: string)
    ensures GenerateKey(UserProfilePrefix, a) != GenerateKey(StudyStatsPrefix, b)
  {
    assert GenerateKey(UserProfilePrefix, a)[0] == 'u';
    assert GenerateKey(StudyStatsPrefix, b)[0] == 's';
  }

  /** `set(key, value, ttl)`: a fresh entry replaces any older one; a new key goes last. */
  function Stored<V>(c: LocalCache<V>, key: string, value: V, now: int, ttl: int): LocalCache<V> {
    LocalCache(c.entries[key := Entry(value, now, ttl * 1000)],
               if key in c.entries then c.order else c.order + [key])
  }

  /** The `Map.delete(key)` step shared by `delete`, `get`, `exists` and `cleanupExpired`. */
  function Removed<V>(c: LocalCache<V>, key: string): LocalCache<V> {
    LocalCache(c.entries - {key}, Without(c.order, key))
  }

  /** The value `get(key)` returns: the stored value of a live entry, otherwise nothing. */
  function LiveValue<V>(c: LocalCache<V>, now: int, key: string): Option<V> {
    if key in c.entries && !Expired(c.entries[key], now) then Some(c.entries[key].value) else None
  }

  /** The cache after `get(key)` or `exists(key)`: an expired entry is dropped. */
  function Read<V>(c: LocalCache<V>, now: int, key: string): LocalCache<V> {
    if key in c.entries && Expired(c.entries[key], now) then Removed(c, key) else c
  }

  /** Reading the keys `ks` one after another, as `getMultiple` and `cleanupExpired` do. */
  function Sweep<V>(c: LocalCache<V>, now: int, ks: seq<string>): LocalCache<V> {
    if ks == [] then c else Read(Sweep(c, now, ks[..|ks| - 1]), now, ks[|ks| - 1])
  }

  /** The cache after `cleanupExpired()`: every key is read once. */
  function Cleaned<V>(c: LocalCache<V>, now: int): LocalCache<V> {
    Sweep(c, now, c.order)
  }

  /** `setMultiple(items, ttl)`: the pairs stored one after another. */
  function StoredAll<V>(c: LocalCache<V>, items: seq<(string, V)>, now: int, ttl: int): LocalCache<V> {
    if items == [] then c
    else
      var last := items[|items| - 1];
      Stored(StoredAll(c, items[..|items| - 1], now, ttl), last.0, last.1, now, ttl)
  }

  /** Storing keeps the order listing each stored key once. */
  lemma StoredWellformed<V>(c: LocalCache<V>, key: string, value: V, now: int, ttl: int)
    requires Wellformed(c)
    ensures Wellformed(Stored(c, key, value, now, ttl))
  {
    if key !in c.entries {
      var o := c.order + [key];
      forall i, j | 0 <= i < j < |o| ensures o[i] != o[j] {
        if j == |c.order| {
          assert o[i] == c.order[i];
        }
      }
    }
  }

  /** Removing a key, and so reading one, keeps the order listing each stored key once. */
  lemma RemovedWellformed<V>(c: LocalCache<V>, now: int, key: string)
    requires Wellformed(c)
    ensures Wellformed(Removed(c, key)) && Wellformed(Read(c, now, key))
  {
  }

  lemma {:induction false} SweepWellformed<V>(c: LocalCache<V>, now: int, ks: seq<string>)
    requires Wellformed(c)
    ensures Wellformed(Sweep(c, now, ks))
  {
    if ks != [] {
      SweepWellformed(c, now, ks[..|ks| - 1]);
      RemovedWellformed(Sweep(c, now, ks[..|ks| - 1]), now, ks[|ks| - 1]);
    }
  }

  /** A value set at `t0` with `ttl` seconds is returned up to and including `t0 + ttl * 1000`, and not after. */
  lemma SetThenGet<V>(c: LocalCache<V>, key: string, value: V, t0: int, ttl: int, now: int)
    ensures now - t0 <= ttl * 1000 ==> LiveValue(Stored(c, key, value, t0, ttl), now, key) == Some(value)
    ensures now - t0 > ttl * 1000 ==> LiveValue(Stored(c, key, value, t0, ttl), now, key) == None
    ensures now - t0 > ttl * 1000 ==> key !in Read(Stored(c, key, value, t0, ttl), now, key).entries
  {
  }

  /** `get` of a missing key returns nothing and changes nothing. */
  lemma GetMissing<V>(c: LocalCache<V>, now: int, key: string)
    requires key !in c.entries
    ensures LiveValue(c, now, key) == None && Read(c, now, key) == c
  {
  }

  /**
   * A read changes the cache only by dropping the expired entry it found:
   * a live read leaves it as it was, and no other key's answer changes.
   */
  lemma ReadEffect<V>(c: LocalCache<V>, now: int, key: string, other: string)
    ensures LiveValue(c, now, key).Some? ==> Read(c, now, key) == c
    ensures LiveValue(Read(c, now, key), now, other) == LiveValue(c, now, other)
    ensures Read(c, now, key).entries.Keys
         == c.entries.Keys - (if key in c.entries && Expired(c.entries[key], now) then {key} else {})
  {
  }

  /** `delete(key)` removes that key and keeps every other entry as it was. */
  lemma RemovedEffect<V>(c: LocalCache<V>, key: string)
    ensures key !in Removed(c, key).entries
    ensures forall k :: k != key ==> (k in Removed(c, key).entries <==> k in c.entries)
    ensures forall k :: k != key && k in c.entries ==> Removed(c, key).entries[k] == c.entries[k]
  {
  }

  /**
   * Reading the keys `ks` removes exactly the entries among them that are
   * expired at `now` and keeps all others unchanged.
   */
  lemma {:induction false} SweepEntries<V>(c: LocalCache<V>, now: int, ks: seq<string>)
    ensures Sweep(c, now, ks).entries
         == map k | k in c.entries && !(k in ks && Expired(c.entries[k], now)) :: c.entries[k]
  {
    if ks != [] {
      var front := ks[..|ks| - 1];
      SweepEntries(c, now, front);
      var x := ks[|ks| - 1];
      assert forall k :: k in ks <==> k in front || k == x by {
        assert ks == front + [x];
      }
    }
  }

  /** After reading `ks`, each key answers as it did before. */
  lemma SweepAnswers<V>(c: LocalCache<V>, now: int, ks: seq<string>, key: string)
    ensures LiveValue(Sweep(c, now, ks), now, key) == LiveValue(c, now, key)
  {
    SweepEntries(c, now, ks);
  }

  /**
   * `cleanupExpired` removes exactly the expired entries: what remains is
   * live, and every `get` at the same time answers as before.
   */
  lemma CleanedEffect<V>(c: LocalCache<V>, now: int, key: string)
    requires Wellformed(c)
    ensures Cleaned(c, now).entries == map k | k in c.entries && !Expired(c.entries[k], now) :: c.entries[k]
    ensures forall k :: k in Cleaned(c, now).entries ==> !Expired(Cleaned(c, now).entries[k], now)
    ensures LiveValue(Cleaned(c, now), now, key) == LiveValue(c, now, key)
    ensures Wellformed(Cleaned(c, now))
  {
    SweepEntries(c, now, c.order);
    SweepWellformed(c, now, c.order);
  }

  /** The value `setMultiple` leaves under `key`: the last pair for it wins. */
  function LastValue<V>(items: seq<(string, V)>, key: string): Option<V> {
    if items == [] then None
    else if items[|items| - 1].0 == key then Some(items[|items| - 1].1)
    else LastValue(items[..|items| - 1], key)
  }

  /** `setMultiple` stores the last value given for each key and keeps every other entry. */
  lemma {:induction false} StoredAllEntries<V>(c: LocalCache<V>, items: seq<(string, V)>, now: int, ttl: int, key: string)
    ensures LastValue(items, key).Some? ==>
              key in StoredAll(c, items, now, ttl).entries
              && StoredAll(c, items, now, ttl).entries[key] == Entry(LastValue(items, key).value, now, ttl * 1000)
    ensures LastValue(items, key).None? ==>
              (key in StoredAll(c, items, now, ttl).entries <==> key in c.entries)
              && (key in c.entries ==> StoredAll(c, items, now, ttl).entries[key] == c.entries[key])
  {
    if items != [] {
      StoredAllEntries(c, items[..|items| - 1], now, ttl, key);
    }
  }

  /** `getStats()` on the local map. */
  datatype Stats = Stats(kind: string, size: nat, keys: seq<string>)

  lemma {:induction false} DistinctSize(s: seq<string>)
    requires Distinct(s)
    ensures |set k | k in s| == |s|
  {
    if s != [] {
      DistinctTail(s);
      DistinctSize(s[1..]);
      KeySetCons(s);
    }
  }

  lemma KeySetCons(s: seq<string>)
    requires |s| > 0 && s[0] !in s[1..]
    ensures |set k | k in s| == |set k | k in s[1..]| + 1
  {
    var later := set k | k in s[1..];
    assert s[0] !in later;
    assert (set k | k in s) == later + {s[0]} by {
      assert forall k :: k in s <==> k == s[0] || k in s[1..] by {
        assert s == [s[0]] + s[1..];
      }
    }
  }

  /** The local cache service: its map, changed in place. */
  class CacheService<V> {
    var entries: map<string, Entry<V>>
    var order: seq<string>

    function Store(): LocalCache<V>
      reads this
    {
      LocalCache(entries, order)
    }

    ghost predicate Valid()
      reads this
    {
      Wellformed(Store())
    }

    constructor()
      ensures entries == map[] && order == [] && Valid()
    {
      entries := map[];
      order := [];
    }

    method Set(now: int, key: string, value: V, ttl: int := DefaultTtl)
      requires Valid()
      modifies this
      ensures Store() == Stored(old(Store()), key, value, now, ttl) && Valid()
    {
      StoredWellformed(Store(), key, value, now, ttl);
      if key !in entries {
        order := order + [key];
      }
      entries := entries[key := Entry(value, now, ttl * 1000)];
    }

    method Delete(key: string)
      requires Valid()
      modifies this
      ensures Store() == Removed(old(Store()), key) && Valid()
    {
      RemovedWellformed(Store(), 0, key);
      entries := entries - {key};
      order := Without(order, key);
    }

    method Get(now: int, key: string) returns (r: Option<V>)
      requires Valid()
      modifies this
      ensures r == LiveValue(old(Store()), now, key)
      ensures Store() == Read(old(Store()), now, key) && Valid()
    {
      if key !in entries {
        return None;
      }
      var item := entries[key];
      if now - item.timestamp > item.ttl {
        RemovedWellformed(Store(), now, key);
        entries := entries - {key};
        order := Without(order, key);
        return None;
      }
      return Some(item.value);
    }

    method Clear()
      modifies this
      ensures entries == map[] && order == [] && Valid()
    {
      entries := map[];
      order := [];
    }

    /** `exists(key)`: whether `get(key)` would find a value, with the same effect on the map. */
    method Exists(now: int, key: string) returns (b: bool)
      requires Valid()
      modifies this
      ensures b <==> LiveValue(old(Store()), now, key).Some?
      ensures Store() == Read(old(Store()), now, key) && Valid()
    {
      if key !in entries {
        return false;
      }
      var item := entries[key];
      if now - item.timestamp > item.ttl {
        RemovedWellformed(Store(), now, key);
        entries := entries - {key};
        order := Without(order, key);
        return false;
      }
      return true;
    }

    /** `getMultiple(keys)`: one `get` per key; each answer is the one the cache held at the start. */
    method GetMultiple(now: int, keys: seq<string>) returns (results: map<string, Option<V>>)
      requires Valid()
      modifies this
      ensures results.Keys == set k | k in keys
      ensures forall k :: k in results ==> results[k] == LiveValue(old(Store()), now, k)
      ensures Store() == Sweep(old(Store()), now, keys) && Valid()
    {
      results := map[];
      var n := 0;
      while n < |keys|
        invariant 0 <= n <= |keys| && Valid()
        invariant Store() == Sweep(old(Store()), now, keys[..n])
        invariant results.Keys == set k | k in keys[..n]
        invariant forall k :: k in results ==> results[k] == LiveValue(old(Store()), now, k)
      {
        SweepAnswers(old(Store()), now, keys[..n], keys[n]);
        var r := Get(now, keys[n]);
        results := results[keys[n] := r];
        assert keys[..n + 1][..n] == keys[..n];
        assert keys[..n + 1] == keys[..n] + [keys[n]];
        n := n + 1;
      }
      assert keys[..n] == keys;
    }

    /** `setMultiple(items, ttl)`: one `set` per pair, in order. */
    method SetMultiple(now: int, items: seq<(string, V)>, ttl: int := DefaultTtl)
      requires Valid()
      modifies this
      ensures Store() == StoredAll(old(Store()), items, now, ttl) && Valid()
    {
      var n := 0;
      while n < |items|
        invariant 0 <= n <= |items| && Valid()
        invariant Store() == StoredAll(old(Store()), items[..n], now, ttl)
      {
        Set(now, items[n].0, items[n].1, ttl);
        assert items[..n + 1][..n] == items[..n];
        n := n + 1;
      }
      assert items[..n] == items;
    }

    /** `invalidateUserCache(userId)`: deletes the user's profile key and then the stats key. */
    method InvalidateUserCache(userId: string)
      requires Valid()
      modifies this
      ensures Store() == Removed(Removed(old(Store()), GenerateKey(UserProfilePrefix, userId)),
                                 GenerateKey(StudyStatsPrefix, userId))
      ensures Valid()
      ensures GenerateKey(UserProfilePrefix, userId) !in entries
      ensures GenerateKey(StudyStatsPrefix, userId) !in entries
    {
      Delete(GenerateKey(UserProfilePrefix, userId));
      Delete(GenerateKey(StudyStatsPrefix, userId));
    }

    /** `cleanupExpired()`: walks the keys in map order and deletes each expired entry. */
    method CleanupExpired(now: int)
      requires Valid()
      modifies this
      ensures Store() == Cleaned(old(Store()), now) && Valid()
    {
      var keys := order;
      var n := 0;
      while n < |keys|
        invariant 0 <= n <= |keys| && Valid()
        invariant Store() == Sweep(old(Store()), now, keys[..n])
      {
        var key := keys[n];
        ghost var before := Store();
        if key in entries && now - entries[key].timestamp > entries[key].ttl {
          Delete(key);
        }
        assert Store() == Read(before, now, key);
        assert keys[..n + 1][..n] == keys[..n];
        n := n + 1;
      }
      assert keys[..n] == keys;
    }

    /** `getStats()`: the map's size and its keys in map order; the size is the number of keys. */
    method GetStats() returns (stats: Stats)
      requires Valid()
      ensures stats.kind == "local"
      ensures stats.keys == order && stats.size == |entries|
      ensures stats.size == |stats.keys|
      ensures forall k :: k in stats.keys <==> k in entries
    {
      DistinctSize(order);
      assert entries.Keys == set k | k in order;
      stats := Stats("local", |entries|, order);
    }
  }
}
