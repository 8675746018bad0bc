/** What the replay cache still promises when it is full. */
module ReplayLru {
  import opened ReplayCache
  import opened ReplayRuns

  /** The operation wrote its key's entry: an insertion, or a `check` that hit. */
  ghost predicate Touching(e: Event) {
    e.op.Insert? || (e.op.CheckAndInsert? && !e.replay) || (e.op.Check? && e.replay)
  }

  ghost predicate Touches(e: Event, k: Key) { Touching(e) && e.op.key == k }

  ghost predicate Inserts(e: Event, k: Key) { Touches(e, k) && !e.op.Check? }

  /** Strictly increasing readings in lock order, each second reading no earlier than the first. */
  ghost predicate StrictlyOrdered(events: seq<Event>) {
    && (forall i, j :: 0 <= i < j < |events| && !events[i].op.Clear? && !events[j].op.Clear? ==>
          events[i].op.now < events[j].op.now)
    && (forall i :: 0 <= i < |events| && (events[i].op.Insert? || events[i].op.CheckAndInsert?) ==>
          events[i].op.now <= events[i].op.lruNow)
  }

  /** Every entry was last accessed before `now`. */
  ghost predicate AccessedBefore(t: Table, now: Instant) {
    forall k :: k in t ==> t[k].lastAccessed < now
  }

  // ---------------------------------------------------------------------- capacity

  lemma TrimmedSmaller(t: Table, now: Instant, s: Table)
    requires Trimmed(t, now, s)
    ensures |s| <= |t|
    ensures forall n :: AccessedBefore(t, n) ==> AccessedBefore(s, n)
  {
    assert s.Keys <= t.Keys;
    CardinalityMonotone(s.Keys, t.Keys);
  }

  /** A full table gives up an entry if and only if one has expired or was last accessed
      before the second clock reading. */
  lemma EvictionExact(t: Table, now: Instant, lruNow: Instant, u: Table)
    requires LruEvicted(t, now, lruNow, u)
    ensures |u| < |t| <==> SomeExpired(t, now) || exists k :: k in t && t[k].lastAccessed < lruNow
    ensures |u| <= |t|
  {
    if SomeExpired(t, now) {
      var k :| k in t && Expired(t[k], now) && u == t - {k};
      assert u.Keys == t.Keys - {k};
    } else if exists k :: k in t && t[k].lastAccessed < lruNow {
      var k :| LeastRecent(t, k, lruNow) && u == t - {k};
      assert u.Keys == t.Keys - {k};
    }
  }

  lemma RoomLeaves(cfg: Config, t: Table, now: Instant, lruNow: Instant, u: Table)
    requires MadeRoom(cfg, t, now, lruNow, u) && 1 <= cfg.maxEntries && |t| <= cfg.maxEntries
    requires AccessedBefore(t, now) && now <= lruNow
    ensures |u| < cfg.maxEntries && forall k :: k in u ==> k in t && u[k] == t[k]
  {
    if |t| >= cfg.maxEntries {
      EvictionExact(t, now, lruNow, u);
      assert t.Keys != {};
      var k :| k in t;
      assert t[k].lastAccessed < lruNow;
    }
  }

  lemma GrowsByOne(u: Table, k: Key, e: Entry)
    ensures |u[k := e]| <= |u| + 1
  {
    assert u[k := e].Keys == u.Keys + {k};
  }

  lemma InsertedCapacity(cfg: Config, s: Table, k: Key, now: Instant, lruNow: Instant, u: Table)
    requires MadeRoom(cfg, s, now, lruNow, u) && 1 <= cfg.maxEntries && |s| <= cfg.maxEntries
    requires AccessedBefore(s, now) && now <= lruNow
    ensures var t' := u[k := Entry(now + cfg.retention, now)];
            |t'| <= cfg.maxEntries && forall j :: j in t' ==> t'[j].lastAccessed <= now
  {
    hide MadeRoom;
    RoomLeaves(cfg, s, now, lruNow, u);
    GrowsByOne(u, k, Entry(now + cfg.retention, now));
  }

  lemma CheckCapacity(s: Table, k: Key, now: Instant, t': Table, replay: bool)
    requires CheckStep(s, k, now, t', replay) && AccessedBefore(s, now)
    ensures |t'| <= |s| && forall j :: j in t' ==> t'[j].lastAccessed <= now
  {
    assert t'.Keys <= s.Keys;
    CardinalityMonotone(t'.Keys, s.Keys);
  }

  lemma CheckAndInsertCapacity(cfg: Config, s: Table, k: Key, now: Instant, lruNow: Instant, t': Table, replay: bool)
    requires CheckAndInsertStep(cfg, s, k, now, lruNow, t', replay)
    requires 1 <= cfg.maxEntries && |s| <= cfg.maxEntries && AccessedBefore(s, now) && now <= lruNow
    ensures |t'| <= cfg.maxEntries && forall j :: j in t' ==> t'[j].lastAccessed <= now
  {
    hide MadeRoom;
    if !replay {
      CardinalityMonotone((s - {k}).Keys, s.Keys);
      var u :| MadeRoom(cfg, s - {k}, now, lruNow, u) && t' == u[k := Entry(now + cfg.retention, now)];
      InsertedCapacity(cfg, s - {k}, k, now, lruNow, u);
    }
  }

  lemma InsertCapacity(cfg: Config, s: Table, k: Key, now: Instant, lruNow: Instant, t': Table)
    requires InsertStep(cfg, s, k, now, lruNow, t')
    requires 1 <= cfg.maxEntries && |s| <= cfg.maxEntries && AccessedBefore(s, now) && now <= lruNow
    ensures |t'| <= cfg.maxEntries && forall j :: j in t' ==> t'[j].lastAccessed <= now
  {
    hide MadeRoom;
    var u :| RoomFor(cfg, s, k, now, lruNow, u) && t' == u[k := Entry(now + cfg.retention, now)];
    if k in s { assert t'.Keys == s.Keys; } else { InsertedCapacity(cfg, s, k, now, lruNow, u); }
  }

  lemma CapacityStep(cfg: Config, t: Table, op: Op, t': Table, replay: bool)
    requires Step(cfg, t, op, t', replay) && 1 <= cfg.maxEntries && |t| <= cfg.maxEntries
    requires !op.Clear? ==> AccessedBefore(t, op.now)
    requires op.Insert? || op.CheckAndInsert? ==> op.now <= op.lruNow
    ensures |t'| <= cfg.maxEntries
    ensures !op.Clear? ==> forall k :: k in t' ==> t'[k].lastAccessed <= op.now
  {
    hide MadeRoom, CheckStep, CheckAndInsertStep, InsertStep, Trimmed;
    if !op.Clear? {
      var s := StepThrough(cfg, t, op, t', replay);
      TrimmedSmaller(t, op.now, s);
      match op
      case Check(k, now) => CheckCapacity(s, k, now, t', replay);
      case CheckAndInsert(k, now, lruNow) => CheckAndInsertCapacity(cfg, s, k, now, lruNow, t', replay);
      case Insert(k, now, lruNow) => InsertCapacity(cfg, s, k, now, lruNow, t');
      case EvictExpired(now) =>
    }
  }

  /** With at least one slot and strictly increasing readings the table never exceeds
      `maxEntries`, and entries are never newer than the readings so far. */
  lemma {:induction false} CapacityKept(cfg: Config, states: seq<Table>, events: seq<Event>, n: nat)
    requires Run(cfg, states, events) && n <= |events|
    requires 1 <= cfg.maxEntries && StrictlyOrdered(events)
    ensures |states[n]| <= cfg.maxEntries
    ensures forall j :: n <= j < |events| && !events[j].op.Clear? ==> AccessedBefore(states[n], events[j].op.now)
  {
    if n > 0 {
      hide Step;
      CapacityKept(cfg, states, events, n - 1);
      CapacityStep(cfg, states[n - 1], events[n - 1].op, states[n], events[n - 1].replay);
      if events[n - 1].op.Clear? {
        assert states[n] == map[] by { ClearStep(cfg, states[n - 1], states[n], events[n - 1].replay); }
      }
    }
  }

  lemma ClearStep(cfg: Config, t: Table, t': Table, replay: bool)
    requires Step(cfg, t, Clear, t', replay)
    ensures t' == map[]
  {}

  // -------------------------------------------------------- when the limit is kept

  /** The event put its key's entry in the table. */
  ghost predicate Grows(e: Event) { e.op.Insert? || (e.op.CheckAndInsert? && !e.replay) }

  /** There is a free slot, or `evict_lru` would drop something. */
  ghost predicate SlotAhead(cfg: Config, t: Table, now: Instant, lruNow: Instant) {
    |t| < cfg.maxEntries || SomeExpired(t, now) || exists x :: x in t && t[x].lastAccessed < lruNow
  }

  lemma RoomExact(cfg: Config, t: Table, now: Instant, lruNow: Instant, u: Table)
    requires MadeRoom(cfg, t, now, lruNow, u) && |t| <= cfg.maxEntries
    ensures |u| < cfg.maxEntries <==> SlotAhead(cfg, t, now, lruNow)
    ensures |u| <= |t| && u.Keys <= t.Keys
  {
    hide LruEvicted, SomeExpired;
    if |t| == cfg.maxEntries { EvictionExact(t, now, lruNow, u); }
    RoomSubset(cfg, t, now, lruNow, u);
  }

  lemma NewKeyGrows(u: Table, k: Key, e: Entry)
    requires k !in u
    ensures |u[k := e]| == |u| + 1
  {
    assert u[k := e].Keys == u.Keys + {k};
  }

  lemma AddedExact(cfg: Config, t: Table, k: Key, now: Instant, lruNow: Instant, u: Table)
    requires MadeRoom(cfg, t, now, lruNow, u) && |t| <= cfg.maxEntries && k !in t
    ensures var t' := u[k := Entry(now + cfg.retention, now)];
            && (|t'| <= cfg.maxEntries <==> SlotAhead(cfg, t, now, lruNow))
            && |t'| <= cfg.maxEntries + 1
  {
    hide MadeRoom, SlotAhead;
    RoomExact(cfg, t, now, lruNow, u);
    NewKeyGrows(u, k, Entry(now + cfg.retention, now));
  }

  /** A table that lost an entry has a free slot; one that lost none is the same. */
  lemma SlotSurvives(cfg: Config, t: Table, k: Key, now: Instant, lruNow: Instant, s: Table)
    requires Trimmed(t, now, s) && |t| <= cfg.maxEntries
    ensures |s - {k}| <= cfg.maxEntries
    ensures SlotAhead(cfg, s - {k}, now, lruNow) <==> SlotAhead(cfg, t, now, lruNow) || k in t
  {
    var r := s - {k};
    assert r.Keys <= t.Keys;
    CardinalityMonotone(r.Keys, t.Keys);
    if r.Keys == t.Keys {
      assert r == t;
    } else {
      var x :| x in t && x !in r;
      CardinalityMonotone(r.Keys, t.Keys - {x});
      assert |r| < |t|;
      assert x == k || Expired(t[x], now);
    }
  }

  lemma GrownExact(cfg: Config, t: Table, op: Op, s: Table, t': Table)
    requires (op.Insert? || op.CheckAndInsert?) && Trimmed(t, op.now, s) && |t| <= cfg.maxEntries
    requires op.Insert? ==> InsertStep(cfg, s, op.key, op.now, op.lruNow, t')
    requires op.CheckAndInsert? ==> CheckAndInsertStep(cfg, s, op.key, op.now, op.lruNow, t', false)
    ensures |t'| <= cfg.maxEntries <==> SlotAhead(cfg, t, op.now, op.lruNow) || op.key in t
    ensures |t'| <= cfg.maxEntries + 1
  {
    hide MadeRoom, SlotAhead, Trimmed, CheckAndInsertStep, InsertStep;
    var k, now, lruNow := op.key, op.now, op.lruNow;
    SlotSurvives(cfg, t, k, now, lruNow, s);
    if op.Insert? && k in s {
      InsertPresent(cfg, s, k, now, lruNow, t');
      TrimmedSmaller(t, now, s);
      TrimmedMember(t, now, s, k);
    } else {
      var u := RoomMade(cfg, s, op, t');
      AddedExact(cfg, s - {k}, k, now, lruNow, u);
    }
  }

  lemma TrimmedMember(t: Table, now: Instant, s: Table, k: Key)
    requires Trimmed(t, now, s) && k in s
    ensures k in t
  {}

  lemma InsertPresent(cfg: Config, s: Table, k: Key, now: Instant, lruNow: Instant, t': Table)
    requires InsertStep(cfg, s, k, now, lruNow, t') && k in s
    ensures |t'| == |s|
  {
    assert t'.Keys == s.Keys;
  }

  /** A key that is new, or has expired, is added after room has been made without it. */
  lemma RoomMade(cfg: Config, s: Table, op: Op, t': Table) returns (u: Table)
    requires op.Insert? || op.CheckAndInsert?
    requires op.Insert? ==> InsertStep(cfg, s, op.key, op.now, op.lruNow, t') && op.key !in s
    requires op.CheckAndInsert? ==> CheckAndInsertStep(cfg, s, op.key, op.now, op.lruNow, t', false)
    ensures MadeRoom(cfg, s - {op.key}, op.now, op.lruNow, u)
    ensures t' == u[op.key := Entry(op.now + cfg.retention, op.now)]
  {
    hide MadeRoom;
    assert op.key !in s ==> s - {op.key} == s;
    u :| MadeRoom(cfg, s - {op.key}, op.now, op.lruNow, u) && t' == u[op.key := Entry(op.now + cfg.retention, op.now)];
  }

  /** From any table within the limit, an operation that adds an entry stays within it if and
      only if a slot is free, the key is there already, an entry has expired, or one was last
      accessed strictly before the second reading; every other operation stays within it. On
      a full tie the table grows, by one. */
  lemma LimitExact(cfg: Config, t: Table, e: Event, t': Table)
    requires Step(cfg, t, e.op, t', e.replay) && |t| <= cfg.maxEntries
    ensures Grows(e) ==>
              (|t'| <= cfg.maxEntries <==> SlotAhead(cfg, t, e.op.now, e.op.lruNow) || e.op.key in t)
    ensures !Grows(e) ==> |t'| <= |t|
    ensures |t'| <= cfg.maxEntries + 1
  {
    hide Step, SlotAhead, InsertStep, CheckAndInsertStep;
    if Grows(e) {
      var s := StepThrough(cfg, t, e.op, t', e.replay);
      GrownExact(cfg, t, e.op, s, t');
    } else {
      if Touching(e) { TouchedEntry(cfg, t, e, t'); } else { UntouchedEntries(cfg, t, e, t'); }
      assert t'.Keys <= t.Keys;
      CardinalityMonotone(t'.Keys, t.Keys);
    }
  }

  /** A passed limit is not won back by eviction: from any table, however large, only a clear or
      an expiry leaves fewer entries than before. */
  lemma NeverShrinks(cfg: Config, t: Table, e: Event, t': Table)
    requires Step(cfg, t, e.op, t', e.replay) && !e.op.Clear? && !SomeExpired(t, e.op.now)
    ensures |t'| >= |t|
  {
    hide Step, InsertStep, CheckAndInsertStep;
    var s := StepThrough(cfg, t, e.op, t', e.replay);
    assert s == t;
    if Grows(e) {
      if e.op.Insert? && e.op.key in t {
        InsertPresent(cfg, t, e.op.key, e.op.now, e.op.lruNow, t');
      } else {
        AddedNeverShrinks(cfg, t, e.op, t');
      }
    } else if e.op.Check? {
      assert e.op.key !in t ==> t - {e.op.key} == t;
      assert t'.Keys == t.Keys;
    } else if e.op.CheckAndInsert? {
      ReplayKeeps(cfg, t, e.op.key, e.op.now, e.op.lruNow, t');
    }
  }

  lemma ReplayKeeps(cfg: Config, t: Table, k: Key, now: Instant, lruNow: Instant, t': Table)
    requires CheckAndInsertStep(cfg, t, k, now, lruNow, t', true)
    ensures t' == t
  {}

  /** At most one entry makes room for the new one. */
  lemma AddedNeverShrinks(cfg: Config, t: Table, op: Op, t': Table)
    requires op.Insert? || op.CheckAndInsert?
    requires op.Insert? ==> InsertStep(cfg, t, op.key, op.now, op.lruNow, t') && op.key !in t
    requires op.CheckAndInsert? ==> CheckAndInsertStep(cfg, t, op.key, op.now, op.lruNow, t', false)
    requires !SomeExpired(t, op.now)
    ensures |t'| >= |t|
  {
    hide MadeRoom, InsertStep;
    assert op.key !in t;
    var u := RoomMade(cfg, t, op, t');
    assert t - {op.key} == t;
    RoomSubset(cfg, t, op.now, op.lruNow, u);
    RoomCostsOne(cfg, t, op.now, op.lruNow, u);
    NewKeyGrows(u, op.key, Entry(op.now + cfg.retention, op.now));
  }

  lemma RoomCostsOne(cfg: Config, t: Table, now: Instant, lruNow: Instant, u: Table)
    requires MadeRoom(cfg, t, now, lruNow, u)
    ensures |u| >= |t| - 1
  {
    if u != t {
      var k :| k in t && u == t - {k};
      assert u.Keys == t.Keys - {k};
    }
  }

  /** The limit is passed in a run from the empty cache: one slot, two keys, one reading. */
  lemma LimitPassed(a: Key, b: Key)
    requires a != b
    ensures var states := [map[], map[a := Entry(10, 0)], map[a := Entry(10, 0), b := Entry(10, 0)]];
            var events := [Event(CheckAndInsert(a, 0, 0), false), Event(CheckAndInsert(b, 0, 0), false)];
            Run(Config(10, 1), states, events) && |states[2]| == 2
  {
    hide Step;
    FirstInserted(Config(10, 1), a, 0);
    SecondInserted(a, b);
    var two := map[a := Entry(10, 0), b := Entry(10, 0)];
    assert two.Keys == {a, b};
  }

  /** When neither eviction drops anything, a new key is added to the table as it is. */
  lemma AddedStep(cfg: Config, t: Table, k: Key, now: Instant, lruNow: Instant)
    requires k !in t && LazilyEvicted(cfg, t, now, t) && MadeRoom(cfg, t, now, lruNow, t)
    ensures var t' := t[k := Entry(now + cfg.retention, now)];
            && Step(cfg, t, CheckAndInsert(k, now, lruNow), t', false)
            && Step(cfg, t, Insert(k, now, lruNow), t', false)
  {
    hide LazilyEvicted, MadeRoom;
    var t' := t[k := Entry(now + cfg.retention, now)];
    assert t - {k} == t;
    assert CheckAndInsertStep(cfg, t, k, now, lruNow, t', false);
    assert RoomFor(cfg, t, k, now, lruNow, t);
    assert InsertStep(cfg, t, k, now, lruNow, t');
  }

  /** On an empty cache a key is inserted. */
  lemma FirstInserted(cfg: Config, k: Key, now: Instant)
    ensures var one := map[k := Entry(now + cfg.retention, now)];
            && Step(cfg, map[], CheckAndInsert(k, now, now), one, false)
            && Step(cfg, map[], Insert(k, now, now), one, false)
  {
    hide Step;
    var none: Table := map[];
    AddedStep(cfg, none, k, now, now);
    assert none[k := Entry(now + cfg.retention, now)] == map[k := Entry(now + cfg.retention, now)];
  }

  lemma SecondInserted(a: Key, b: Key)
    requires a != b
    ensures Step(Config(10, 1), map[a := Entry(10, 0)], CheckAndInsert(b, 0, 0),
                 map[a := Entry(10, 0), b := Entry(10, 0)], false)
  {
    hide Step, MadeRoom, LazilyEvicted;
    var one := map[a := Entry(10, 0)];
    NoneToEvict(Config(10, 1), a);
    AddedStep(Config(10, 1), one, b, 0, 0);
    assert one[b := Entry(10, 0)] == map[a := Entry(10, 0), b := Entry(10, 0)];
  }

  lemma NoneToEvict(cfg: Config, a: Key)
    requires cfg.maxEntries == 1
    ensures var one := map[a := Entry(10, 0)]; LazilyEvicted(cfg, one, 0, one) && MadeRoom(cfg, one, 0, 0, one)
  {
    var one := map[a := Entry(10, 0)];
    assert one.Keys == {a} && |one| == 1;
    assert Swept(one, {a}, 0, one);
  }

  // ------------------------------------------------------------------------ sweeps

  /** After `evict_expired` exactly the entries that had not expired are left, as they were. */
  lemma EvictExpiredExact(cfg: Config, t: Table, now: Instant, t': Table)
    requires Step(cfg, t, EvictExpired(now), t', false)
    ensures !SomeExpired(t', now)
    ensures forall k :: k in t' <==> k in t && now < t[k].expiresAt
    ensures forall k :: k in t' ==> t'[k] == t[k]
  {}

  ghost function ExpiredKeys(t: Table, now: Instant): set<Key> { set k | k in t && Expired(t[k], now) }

  /** The sweep that opens an operation leaves a table at most half full alone; from a fuller one it
      drops expired entries only, and leaves at most as many expired ones as there are entries
      beyond the 64 it visits: none, in a table of up to 64. */
  lemma SweepExact(cfg: Config, t: Table, now: Instant, t': Table)
    requires LazilyEvicted(cfg, t, now, t')
    ensures |t| <= cfg.maxEntries / 2 ==> t' == t
    ensures Trimmed(t, now, t')
    ensures |t| > cfg.maxEntries / 2 ==> |ExpiredKeys(t', now)| <= if |t| <= 64 then 0 else |t| - 64
  {
    LazyTrims(cfg, t, now, t');
    if |t| > cfg.maxEntries / 2 {
      var scanned: set<Key> :|
        |scanned| == (if |t| < LAZY_EVICT_BATCH then |t| else LAZY_EVICT_BATCH) && Swept(t, scanned, now, t');
      assert ExpiredKeys(t', now) <= t.Keys - scanned;
      CardinalityMonotone(ExpiredKeys(t', now), t.Keys - scanned);
    }
  }

  /** A `check` that finds nothing live leaves no entry for the key. */
  lemma MissRemoves(cfg: Config, t: Table, k: Key, now: Instant, t': Table)
    requires Step(cfg, t, Check(k, now), t', false)
    ensures k !in t'
  {
    hide Step;
    var s := StepThrough(cfg, t, Check(k, now), t', false);
  }

  // ----------------------------------------------------------------- LRU guarantee

  /** `k` sits in the table with the entry it had when it was last touched, at `since`, and
      every other entry is older or belongs to a key touched meanwhile. */
  ghost predicate Guarded(t: Table, k: Key, entry: Entry, others: set<Key>) {
    k in t && t[k] == entry &&
    forall x :: x in t && x != k ==> t[x].lastAccessed < entry.lastAccessed || x in others
  }

  lemma GuardedTrimmed(t: Table, k: Key, entry: Entry, others: set<Key>, now: Instant, s: Table)
    requires Guarded(t, k, entry, others) && !Expired(entry, now) && Trimmed(t, now, s)
    ensures Guarded(s, k, entry, others)
  {}

  /** Making room for `x` cannot cost `k` its place while fewer than `maxEntries` other keys,
      `x` among them, have been touched since. */
  lemma GuardedRoom(cfg: Config, t: Table, k: Key, entry: Entry, others: set<Key>, x: Key,
                    now: Instant, lruNow: Instant, u: Table)
    requires Guarded(t, k, entry, others) && !Expired(entry, now) && x !in t && x in others
    requires MadeRoom(cfg, t, now, lruNow, u) && |others| < cfg.maxEntries
    ensures Guarded(u, k, entry, others)
  {
    hide Guarded;
    if |t| >= cfg.maxEntries {
      if SomeExpired(t, now) {
        var y :| y in t && Expired(t[y], now) && u == t - {y};
        GuardedWithout(t, k, entry, others, y);
      } else if exists j :: j in t && t[j].lastAccessed < lruNow {
        var y :| LeastRecent(t, y, lruNow) && u == t - {y};
        if y == k { CrowdedOut(t, k, entry, others, x); }
        GuardedWithout(t, k, entry, others, y);
      }
    }
  }

  lemma GuardedWithout(t: Table, k: Key, entry: Entry, others: set<Key>, y: Key)
    requires Guarded(t, k, entry, others)
    ensures y != k ==> Guarded(t - {y}, k, entry, others)
    ensures t[k] == entry
  {}

  /** If `k` is the least recently used entry, every other one was touched since. */
  lemma CrowdedOut(t: Table, k: Key, entry: Entry, others: set<Key>, x: Key)
    requires Guarded(t, k, entry, others) && x !in t && x in others
    requires forall j :: j in t ==> t[k].lastAccessed <= t[j].lastAccessed
    ensures |t| <= |others|
  {
    var crowd := (t.Keys - {k}) + {x};
    assert |crowd| == |t|;
    CardinalityMonotone(crowd, others);
  }

  lemma GuardedCheck(s: Table, k: Key, entry: Entry, others: set<Key>, j: Key, now: Instant, t': Table, replay: bool)
    requires Guarded(s, k, entry, others) && !Expired(entry, now) && CheckStep(s, j, now, t', replay)
    requires j == k ==> !replay
    requires replay ==> j in others
    ensures Guarded(t', k, entry, others)
  {}

  lemma GuardedCheckAndInsert(cfg: Config, s: Table, k: Key, entry: Entry, others: set<Key>, j: Key,
                              now: Instant, lruNow: Instant, t': Table, replay: bool)
    requires Guarded(s, k, entry, others) && !Expired(entry, now)
    requires CheckAndInsertStep(cfg, s, j, now, lruNow, t', replay)
    requires j == k ==> replay
    requires !replay ==> j in others && |others| < cfg.maxEntries
    ensures Guarded(t', k, entry, others)
  {
    hide MadeRoom;
    if !replay {
      var u :| MadeRoom(cfg, s - {j}, now, lruNow, u) && t' == u[j := Entry(now + cfg.retention, now)];
      GuardedRoom(cfg, s - {j}, k, entry, others, j, now, lruNow, u);
    }
  }

  lemma GuardedInsert(cfg: Config, s: Table, k: Key, entry: Entry, others: set<Key>, j: Key,
                      now: Instant, lruNow: Instant, t': Table)
    requires Guarded(s, k, entry, others) && !Expired(entry, now) && InsertStep(cfg, s, j, now, lruNow, t')
    requires j != k && j in others && |others| < cfg.maxEntries
    ensures Guarded(t', k, entry, others)
  {
    hide MadeRoom;
    var u :| RoomFor(cfg, s, j, now, lruNow, u) && t' == u[j := Entry(now + cfg.retention, now)];
    if j !in s { GuardedRoom(cfg, s, k, entry, others, j, now, lruNow, u); }
  }

  lemma GuardedStep(cfg: Config, t: Table, k: Key, entry: Entry, others: set<Key>, e: Event, t': Table)
    requires Guarded(t, k, entry, others) && Step(cfg, t, e.op, t', e.replay)
    requires !e.op.Clear? && !Expired(entry, e.op.now) && !Touches(e, k)
    requires Touching(e) ==> e.op.key in others
    requires |others| < cfg.maxEntries
    ensures Guarded(t', k, entry, others)
  {
    hide Guarded, Step, CheckStep, CheckAndInsertStep, InsertStep, Trimmed;
    var s := StepThrough(cfg, t, e.op, t', e.replay);
    GuardedTrimmed(t, k, entry, others, e.op.now, s);
    match e.op
    case Check(j, now) => GuardedCheck(s, k, entry, others, j, now, t', e.replay);
    case CheckAndInsert(j, now, lruNow) =>
      GuardedCheckAndInsert(cfg, s, k, entry, others, j, now, lruNow, t', e.replay);
    case Insert(j, now, lruNow) => GuardedInsert(cfg, s, k, entry, others, j, now, lruNow, t');
    case EvictExpired(now) =>
  }

  /** A key that is in the table and has not expired is reported. */
  lemma LiveReported(cfg: Config, t: Table, e: Event, t': Table, k: Key)
    requires Step(cfg, t, e.op, t', e.replay) && (e.op.Check? || e.op.CheckAndInsert?) && e.op.key == k
    requires Live(t, k, e.op.now)
    ensures e.replay
  {
    hide Step;
    var s := StepThrough(cfg, t, e.op, t', e.replay);
  }

  /** The other keys touched strictly between two events. */
  ghost function Others(events: seq<Event>, i: nat, j: nat, k: Key): set<Key>
    requires j <= |events|
  {
    set m | i < m < j && Touching(events[m]) && events[m].op.key != k :: events[m].op.key
  }

  /** `i` is the last touch of `k` before `j`, and nothing was cleared between them. */
  ghost predicate LastTouch(events: seq<Event>, i: nat, j: nat, k: Key) {
    && i < j <= |events| && Touches(events[i], k)
    && forall m :: i < m < j ==> !Touches(events[m], k) && !events[m].op.Clear?
  }

  lemma GuardedStart(cfg: Config, states: seq<Table>, events: seq<Event>, i: nat, k: Key, others: set<Key>)
    requires Run(cfg, states, events) && 1 <= cfg.maxEntries && StrictlyOrdered(events)
    requires i < |events| && Touches(events[i], k) && k in states[i + 1]
    ensures Guarded(states[i + 1], k, states[i + 1][k], others)
  {
    hide Step, StrictlyOrdered;
    CapacityKept(cfg, states, events, i);
    TouchedEntry(cfg, states[i], events[i], states[i + 1]);
  }

  lemma {:induction false} GuardedRun(cfg: Config, states: seq<Table>, events: seq<Event>,
                                      i: nat, m: nat, j: nat, k: Key)
    requires Run(cfg, states, events) && 1 <= cfg.maxEntries && StrictlyOrdered(events)
    requires LastTouch(events, i, j, k) && i < m <= j
    requires |Others(events, i, j, k)| < cfg.maxEntries
    requires k in states[i + 1] && forall q :: i < q < j ==> !Expired(states[i + 1][k], events[q].op.now)
    ensures Guarded(states[m], k, states[i + 1][k], Others(events, i, j, k))
    decreases m
  {
    hide Guarded, Step, StrictlyOrdered, Expired;
    var entry, others := states[i + 1][k], Others(events, i, j, k);
    if m == i + 1 {
      GuardedStart(cfg, states, events, i, k, others);
    } else {
      var p := m - 1;
      GuardedRun(cfg, states, events, i, p, j, k);
      assert Touching(events[p]) ==> events[p].op.key in others;
      GuardedStep(cfg, states[p], k, entry, others, events[p], states[m]);
    }
  }

  /** `insert` restarts the clocks of a live entry and touches no other live one. It is a no-op
      on the entry exactly if that was inserted, and last accessed, at the same reading. */
  lemma InsertOnLive(cfg: Config, t: Table, k: Key, now: Instant, lruNow: Instant, t': Table)
    requires Live(t, k, now) && Step(cfg, t, Insert(k, now, lruNow), t', false)
    ensures k in t' && t'[k] == Entry(now + cfg.retention, now)
    ensures t'[k] == t[k] <==> t[k].lastAccessed == now && t[k].expiresAt == now + cfg.retention
    ensures forall j :: j in t && j != k && !Expired(t[j], now) ==> j in t' && t'[j] == t[j]
    ensures t'.Keys <= t.Keys
  {
    hide Step;
    var s := StepThrough(cfg, t, Insert(k, now, lruNow), t', false);
  }

  /** An entry inserted at 0 for 10 and inserted again at 5 lives until 15. */
  lemma InsertIsNoNoOp(k: Key)
    ensures var t := map[k := Entry(10, 0)];
            Live(t, k, 5) && Step(Config(10, 4), t, Insert(k, 5, 5), map[k := Entry(15, 5)], false)
  {
    var cfg, t := Config(10, 4), map[k := Entry(10, 0)];
    assert LazilyEvicted(cfg, t, 5, t);
    assert RoomFor(cfg, t, k, 5, 5, t) && t[k := Entry(15, 5)] == map[k := Entry(15, 5)];
    assert InsertStep(cfg, t, k, 5, 5, map[k := Entry(15, 5)]);
  }

  lemma RoomSubset(cfg: Config, t: Table, now: Instant, lruNow: Instant, u: Table)
    requires MadeRoom(cfg, t, now, lruNow, u)
    ensures forall x :: x in u ==> x in t && u[x] == t[x]
  {}

  lemma InsertedEntry(cfg: Config, s: Table, op: Op, t': Table)
    requires op.Insert? || op.CheckAndInsert?
    requires op.Insert? ==> InsertStep(cfg, s, op.key, op.now, op.lruNow, t')
    requires op.CheckAndInsert? ==> CheckAndInsertStep(cfg, s, op.key, op.now, op.lruNow, t', false)
    ensures op.key in t' && t'[op.key] == Entry(op.now + cfg.retention, op.now)
    ensures forall x :: x in t' && x != op.key ==> x in s && t'[x] == s[x]
  {
    hide MadeRoom;
    if op.Insert? {
      var u :| RoomFor(cfg, s, op.key, op.now, op.lruNow, u)
            && t' == u[op.key := Entry(op.now + cfg.retention, op.now)];
      if op.key !in s { RoomSubset(cfg, s, op.now, op.lruNow, u); }
    } else {
      var u :| MadeRoom(cfg, s - {op.key}, op.now, op.lruNow, u)
            && t' == u[op.key := Entry(op.now + cfg.retention, op.now)];
      RoomSubset(cfg, s - {op.key}, op.now, op.lruNow, u);
    }
  }

  /** A touch stamps its key with the reading and leaves the other entries as they were. */
  lemma TouchedEntry(cfg: Config, t: Table, e: Event, t': Table)
    requires Step(cfg, t, e.op, t', e.replay) && Touching(e)
    ensures e.op.key in t' && t'[e.op.key].lastAccessed == e.op.now
    ensures !e.op.Check? ==> t'[e.op.key].expiresAt == e.op.now + cfg.retention
    ensures e.op.Check? ==> e.op.key in t && t'[e.op.key].expiresAt == t[e.op.key].expiresAt
    ensures forall x :: x in t' && x != e.op.key ==> x in t && t'[x] == t[x]
  {
    hide Step, CheckAndInsertStep, InsertStep;
    var s := StepThrough(cfg, t, e.op, t', e.replay);
    if !e.op.Check? { InsertedEntry(cfg, s, e.op, t'); }
  }

  lemma UntouchedEntries(cfg: Config, t: Table, e: Event, t': Table)
    requires Step(cfg, t, e.op, t', e.replay) && !Touching(e)
    ensures forall x :: x in t' ==> x in t && t'[x] == t[x]
  {
    if !e.op.Clear? {
      hide Step;
      var s := StepThrough(cfg, t, e.op, t', e.replay);
    }
  }

  /** An entry expires `retention` after the last insertion of its key. */
  lemma {:induction false} ExpiryFromInsertion(cfg: Config, states: seq<Table>, events: seq<Event>, n: nat, k: Key)
    returns (p: nat)
    requires Run(cfg, states, events) && n <= |events| && k in states[n]
    ensures p < n && Inserts(events[p], k) && states[n][k].expiresAt == events[p].op.now + cfg.retention
    ensures forall q :: p < q < n ==> !Inserts(events[q], k)
    decreases n
  {
    hide Step;
    var m := n - 1;
    if Touching(events[m]) {
      TouchedEntry(cfg, states[m], events[m], states[n]);
    } else {
      UntouchedEntries(cfg, states[m], events[m], states[n]);
    }
    if Inserts(events[m], k) {
      p := m;
    } else {
      p := ExpiryFromInsertion(cfg, states, events, m, k);
    }
  }

  /** With strictly increasing readings, a key within `retention` of its last insertion `p` is
      reported at `j` as long as fewer than `maxEntries` distinct other keys were inserted or
      hit since its last touch `i` and nothing was cleared since. */
  lemma LruGuarantee(cfg: Config, states: seq<Table>, events: seq<Event>, p: nat, i: nat, j: nat, k: Key)
    requires Run(cfg, states, events) && 1 <= cfg.maxEntries && StrictlyOrdered(events)
    requires j < |events| && (events[j].op.Check? || events[j].op.CheckAndInsert?) && events[j].op.key == k
    requires p < j && Inserts(events[p], k) && (forall q :: p < q < j ==> !Inserts(events[q], k))
    requires LastTouch(events, i, j, k)
    requires events[j].op.now < events[p].op.now + cfg.retention
    requires |Others(events, i, j, k)| < cfg.maxEntries
    ensures events[j].replay
  {
    hide Step, Others, Guarded;
    TouchedEntry(cfg, states[i], events[i], states[i + 1]);
    var p' := ExpiryFromInsertion(cfg, states, events, i + 1, k);
    assert p <= i && p' == p;
    GuardedRun(cfg, states, events, i, j, j, k);
    GuardedMember(states[j], k, states[i + 1][k], Others(events, i, j, k));
    LiveReported(cfg, states[j], events[j], states[j + 1], k);
  }

  lemma GuardedMember(t: Table, k: Key, entry: Entry, others: set<Key>)
    requires Guarded(t, k, entry, others)
    ensures k in t && t[k] == entry
  {}
}
