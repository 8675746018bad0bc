/** The nonce replay cache: a table that is swept lazily and evicts its least recently used
    entry when full. `Step` relates the table before and after one locked operation; the
    class performs those steps. Iteration order over the table is arbitrary, and every clock
    reading is an argument. */
module ReplayCache {
  import opened Bytes

  type Instant = nat
  type Nonce = s: bytes | |s| == 32 witness seq(32, _ => 0)
  type Key = s: bytes | |s| == 64 witness seq(64, _ => 0)

  datatype Entry = Entry(expiresAt: Instant, lastAccessed: Instant)
  type Table = map<Key, Entry>

  datatype Config = Config(retention: nat, maxEntries: nat)

  const LAZY_EVICT_BATCH: nat := 64
  const AGENT_ID_SIZE: nat := 32

  /** `make_key`: the agent id, cut or zero-padded to 32 octets, then the nonce. */
  function MakeKey(agentId: bytes, nonce: Nonce): (key: Key)
    ensures forall i :: 0 <= i < AGENT_ID_SIZE ==> key[i] == if i < |agentId| then agentId[i] else 0
    ensures key[AGENT_ID_SIZE..] == nonce
  {
    var n := if |agentId| < AGENT_ID_SIZE then |agentId| else AGENT_ID_SIZE;
    agentId[..n] + seq(AGENT_ID_SIZE - n, _ => 0) + nonce
  }

  /** Among 32-octet agent ids the key stands for exactly one pair. */
  lemma MakeKeyInjective(a: bytes, n: Nonce, b: bytes, m: Nonce)
    requires |a| == AGENT_ID_SIZE && |b| == AGENT_ID_SIZE && MakeKey(a, n) == MakeKey(b, m)
    ensures a == b && n == m
  {
    assert a == MakeKey(a, n)[..32] && b == MakeKey(b, m)[..32];
    assert n == MakeKey(a, n)[32..] && m == MakeKey(b, m)[32..];
  }

  predicate Expired(e: Entry, now: Instant) { now >= e.expiresAt }

  predicate Live(t: Table, k: Key, now: Instant) { k in t && !Expired(t[k], now) }

  // ------------------------------------------------------------------------- steps

  /** `scanned` was looked at and its expired entries were dropped. */
  ghost predicate Swept(t: Table, scanned: set<Key>, now: Instant, t': Table) {
    scanned <= t.Keys && t' == t - (set k | k in scanned && Expired(t[k], now))
  }

  /** A table over half full is scanned for up to 64 entries. */
  ghost predicate LazilyEvicted(cfg: Config, t: Table, now: Instant, t': Table) {
    if |t| <= cfg.maxEntries / 2 then t' == t
    else exists scanned: set<Key> ::
           |scanned| == (if |t| < LAZY_EVICT_BATCH then |t| else LAZY_EVICT_BATCH) && Swept(t, scanned, now, t')
  }

  /** The eviction candidate: least recently used, and used before the second reading. */
  ghost predicate LeastRecent(t: Table, k: Key, lruNow: Instant) {
    k in t && t[k].lastAccessed < lruNow && forall j :: j in t ==> t[k].lastAccessed <= t[j].lastAccessed
  }

  ghost predicate SomeExpired(t: Table, now: Instant) { exists k :: k in t && Expired(t[k], now) }

  /** One expired entry goes; failing that the least recently used one; failing that none. */
  ghost predicate LruEvicted(t: Table, now: Instant, lruNow: Instant, t': Table) {
    if SomeExpired(t, now) then exists k :: k in t && Expired(t[k], now) && t' == t - {k}
    else if exists k :: k in t && t[k].lastAccessed < lruNow then exists k :: LeastRecent(t, k, lruNow) && t' == t - {k}
    else t' == t
  }

  /** Eviction happens only when the table is full. */
  ghost predicate MadeRoom(cfg: Config, t: Table, now: Instant, lruNow: Instant, t': Table) {
    if |t| >= cfg.maxEntries then LruEvicted(t, now, lruNow, t') else t' == t
  }

  /** The locked operations. `now` is read before the lock is taken; `lruNow` is the second
      reading, used only when an unexpired entry must be evicted. */
  datatype Op =
    | Check(key: Key, now: Instant)
    | CheckAndInsert(key: Key, now: Instant, lruNow: Instant)
    | Insert(key: Key, now: Instant, lruNow: Instant)
    | EvictExpired(now: Instant)
    | Clear

  ghost predicate CheckStep(t: Table, k: Key, now: Instant, t': Table, replay: bool) {
    if Live(t, k, now) then replay && t' == t[k := t[k].(lastAccessed := now)]
    else !replay && t' == t - {k}
  }

  ghost predicate CheckAndInsertStep(cfg: Config, t: Table, k: Key, now: Instant, lruNow: Instant,
                                     t': Table, replay: bool) {
    if Live(t, k, now) then replay && t' == t
    else !replay && exists u :: MadeRoom(cfg, t - {k}, now, lruNow, u) && t' == u[k := Entry(now + cfg.retention, now)]
  }

  /** A key that is already in the table needs no room. */
  ghost predicate RoomFor(cfg: Config, t: Table, k: Key, now: Instant, lruNow: Instant, t': Table) {
    if k in t then t' == t else MadeRoom(cfg, t, now, lruNow, t')
  }

  ghost predicate InsertStep(cfg: Config, t: Table, k: Key, now: Instant, lruNow: Instant, t': Table) {
    exists u :: RoomFor(cfg, t, k, now, lruNow, u) && t' == u[k := Entry(now + cfg.retention, now)]
  }

  /** `replay` is what `check` answers, and whether `check_and_insert` fails. */
  ghost predicate Step(cfg: Config, t: Table, op: Op, t': Table, replay: bool) {
    match op
    case Check(k, now) => exists s :: LazilyEvicted(cfg, t, now, s) && CheckStep(s, k, now, t', replay)
    case CheckAndInsert(k, now, lruNow) =>
      exists s :: LazilyEvicted(cfg, t, now, s) && CheckAndInsertStep(cfg, s, k, now, lruNow, t', replay)
    case Insert(k, now, lruNow) =>
      !replay && exists s :: LazilyEvicted(cfg, t, now, s) && InsertStep(cfg, s, k, now, lruNow, t')
    case EvictExpired(now) => !replay && t' == map k | k in t && !Expired(t[k], now) :: t[k]
    case Clear => !replay && t' == map[]
  }

  // ------------------------------------------------------------------------- class

  class Cache {
    const cfg: Config
    var entries: Table

    constructor (cfg: Config)
      ensures this.cfg == cfg && entries == map[]
    {
      this.cfg := cfg;
      entries := map[];
    }

    /** `check` */
    method Check(agentId: bytes, nonce: Nonce, now: Instant) returns (replay: bool)
      modifies this
      ensures Step(cfg, old(entries), Op.Check(MakeKey(agentId, nonce), now), entries, replay)
    {
      var key := MakeKey(agentId, nonce);
      LazyEvict(now);
      ghost var s := entries;
      if key in entries {
        if Expired(entries[key], now) {
          entries := entries - {key};
          replay := false;
        } else {
          entries := entries[key := entries[key].(lastAccessed := now)];
          replay := true;
        }
      } else {
        replay := false;
        assert s == s - {key};
      }
      assert CheckStep(s, key, now, entries, replay);
    }

    /** `check_and_insert` */
    method CheckAndInsert(agentId: bytes, nonce: Nonce, now: Instant, lruNow: Instant) returns (replay: bool)
      modifies this
      ensures Step(cfg, old(entries), Op.CheckAndInsert(MakeKey(agentId, nonce), now, lruNow), entries, replay)
    {
      var key := MakeKey(agentId, nonce);
      LazyEvict(now);
      ghost var s := entries;
      if key in entries {
        if !Expired(entries[key], now) {
          assert CheckAndInsertStep(cfg, s, key, now, lruNow, entries, true);
          return true;
        }
        entries := entries - {key};
      }
      assert entries == s - {key};
      if |entries| >= cfg.maxEntries { EvictLru(now, lruNow); }
      ghost var u := entries;
      assert MadeRoom(cfg, s - {key}, now, lruNow, u);
      entries := entries[key := Entry(now + cfg.retention, now)];
      replay := false;
      assert CheckAndInsertStep(cfg, s, key, now, lruNow, entries, replay);
    }

    /** `insert`: an entry that is already there is replaced, live or not. */
    method Insert(agentId: bytes, nonce: Nonce, now: Instant, lruNow: Instant)
      modifies this
      ensures Step(cfg, old(entries), Op.Insert(MakeKey(agentId, nonce), now, lruNow), entries, false)
    {
      var key := MakeKey(agentId, nonce);
      LazyEvict(now);
      ghost var s := entries;
      if key !in entries && |entries| >= cfg.maxEntries { EvictLru(now, lruNow); }
      ghost var u := entries;
      assert RoomFor(cfg, s, key, now, lruNow, u);
      entries := entries[key := Entry(now + cfg.retention, now)];
      assert InsertStep(cfg, s, key, now, lruNow, entries);
    }

    /** `evict_expired`: a full sweep. */
    method EvictExpired(now: Instant) returns (evicted: nat)
      modifies this
      ensures Step(cfg, old(entries), Op.EvictExpired(now), entries, false)
      ensures evicted == |old(entries)| - |entries|
    {
      var before := |entries|;
      var kept := map k | k in entries && !Expired(entries[k], now) :: entries[k];
      assert kept.Keys <= entries.Keys;
      CardinalityMonotone(kept.Keys, entries.Keys);
      entries := kept;
      evicted := before - |entries|;
    }

    method Clear()
      modifies this
      ensures Step(cfg, old(entries), Op.Clear, entries, false)
    {
      entries := map[];
    }

    /** `lazy_evict`: at most 64 entries are visited, in no particular order. */
    method LazyEvict(now: Instant)
      modifies this
      ensures LazilyEvicted(cfg, old(entries), now, entries)
    {
      if |entries| <= cfg.maxEntries / 2 { return; }
      var toRemove; ghost var scanned;
      toRemove, scanned := ScanBatch(entries, now);
      assert toRemove == set k | k in scanned && Expired(entries[k], now);
      entries := entries - toRemove;
      assert Swept(old(entries), scanned, now, entries);
    }

    /** `evict_lru`: the first expired entry met, else the entry with the earliest access
        strictly before the second clock reading. */
    method EvictLru(now: Instant, lruNow: Instant)
      modifies this
      ensures LruEvicted(old(entries), now, lruNow, entries)
    {
      var unvisited := entries.Keys;
      while unvisited != {}
        invariant unvisited <= entries.Keys && entries == old(entries)
        invariant forall k :: k in entries && k !in unvisited ==> !Expired(entries[k], now)
        decreases unvisited
      {
        var key :| key in unvisited;
        if Expired(entries[key], now) {
          entries := entries - {key};
          return;
        }
        unvisited := unvisited - {key};
      }
      assert !SomeExpired(entries, now);
      unvisited := entries.Keys;
      var found := false;
      var lruKey: Key := seq(64, _ => 0);
      var lruTime := lruNow;
      while unvisited != {}
        invariant unvisited <= entries.Keys && entries == old(entries) && lruTime <= lruNow
        invariant found ==> lruKey in entries && entries[lruKey].lastAccessed == lruTime < lruNow
        invariant !found ==> lruTime == lruNow
        invariant forall k :: k in entries && k !in unvisited ==> lruTime <= entries[k].lastAccessed
        decreases unvisited
      {
        var key :| key in unvisited;
        if entries[key].lastAccessed < lruTime {
          lruTime := entries[key].lastAccessed;
          lruKey := key;
          found := true;
        }
        unvisited := unvisited - {key};
      }
      if found {
        assert LeastRecent(entries, lruKey, lruNow);
        entries := entries - {lruKey};
      }
    }
  }

  /** The scan of `lazy_evict`: which of the visited entries have expired. */
  method ScanBatch(t: Table, now: Instant) returns (toRemove: set<Key>, ghost scanned: set<Key>)
    ensures scanned <= t.Keys && |scanned| == if |t| < LAZY_EVICT_BATCH then |t| else LAZY_EVICT_BATCH
    ensures forall k :: k in toRemove <==> k in scanned && Expired(t[k], now)
  {
    var unvisited := t.Keys;
    var checked := 0;
    toRemove, scanned := {}, {};
    while unvisited != {} && checked < LAZY_EVICT_BATCH
      invariant scanned <= t.Keys && unvisited <= t.Keys && scanned !! unvisited
      invariant |scanned| == checked <= LAZY_EVICT_BATCH && checked + |unvisited| == |t|
      invariant forall k :: k in toRemove <==> k in scanned && Expired(t[k], now)
      decreases unvisited
    {
      var key :| key in unvisited;
      if Expired(t[key], now) { toRemove := toRemove + {key}; }
      unvisited := unvisited - {key};
      scanned := scanned + {key};
      checked := checked + 1;
    }
  }

  lemma CardinalityMonotone(a: set<Key>, b: set<Key>)
    requires a <= b
    ensures |a| <= |b|
  {
    assert b == a + (b - a);
  }
}
