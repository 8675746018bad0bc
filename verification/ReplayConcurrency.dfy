/** Threads that race on one nonce. A run lists the locked operations of all threads in lock
    order; their clock readings, taken before the lock, may come in any order. */
module ReplayConcurrency {
  import opened ReplayCache
  import opened ReplayRuns
  import opened ReplayLru

  /** All readings lie in a span shorter than the retention. */
  ghost predicate ShortSpan(cfg: Config, events: seq<Event>) {
    forall i, j :: 0 <= i < |events| && 0 <= j < |events| && !events[i].op.Clear? && !events[j].op.Clear? ==>
      events[i].op.now < events[j].op.now + cfg.retention
  }

  /** No entry that has not expired is dropped, by eviction or by a clear. */
  ghost predicate KeepsLive(states: seq<Table>, events: seq<Event>)
    requires |states| == |events| + 1
  {
    forall n :: 0 <= n < |events| ==> !events[n].op.Clear? && Keeps(states[n], events[n].op.now, states[n + 1])
  }

  ghost predicate Keeps(t: Table, now: Instant, t': Table) {
    forall k :: Live(t, k, now) ==> k in t'
  }

  /** A run within one retention in which no live entry is dropped. */
  ghost predicate Crowd(cfg: Config, states: seq<Table>, events: seq<Event>) {
    Run(cfg, states, events) && ShortSpan(cfg, events) && KeepsLive(states, events)
  }

  lemma NothingExpires(cfg: Config, states: seq<Table>, events: seq<Event>, n: nat)
    requires Run(cfg, states, events) && ShortSpan(cfg, events) && n < |events| && !events[n].op.Clear?
    ensures !SomeExpired(states[n], events[n].op.now)
  {
    hide Step;
    forall k | k in states[n] ensures !Expired(states[n][k], events[n].op.now) {
      var p := ExpiryFromInsertion(cfg, states, events, n, k);
    }
  }

  lemma {:induction false} Persists(cfg: Config, states: seq<Table>, events: seq<Event>, m: nat, n: nat, k: Key)
    requires Crowd(cfg, states, events) && m <= n <= |events| && k in states[m]
    ensures k in states[n]
    decreases n
  {
    hide Step;
    if m < n {
      Persists(cfg, states, events, m, n - 1, k);
      NothingExpires(cfg, states, events, n - 1);
      assert Live(states[n - 1], k, events[n - 1].op.now);
    }
  }

  /** Only a key in the table is reported. */
  lemma ReportedPresent(cfg: Config, t: Table, e: Event, t': Table)
    requires Step(cfg, t, e.op, t', e.replay) && e.replay
    ensures (e.op.Check? || e.op.CheckAndInsert?) && e.op.key in t
  {
    if !e.op.Clear? {
      hide Step;
      var s := StepThrough(cfg, t, e.op, t', e.replay);
    }
  }

  /** Whatever the lock order, a `check` or `check_and_insert` reports its key exactly if the
      key was inserted by an operation that had the lock before. */
  lemma AnswerExact(cfg: Config, states: seq<Table>, events: seq<Event>, j: nat, k: Key)
    requires Crowd(cfg, states, events) && j < |events|
    requires (events[j].op.Check? || events[j].op.CheckAndInsert?) && events[j].op.key == k
    ensures events[j].replay <==> exists p :: 0 <= p < j && Inserts(events[p], k)
  {
    hide Step;
    if p :| 0 <= p < j && Inserts(events[p], k) {
      TouchedEntry(cfg, states[p], events[p], states[p + 1]);
      Persists(cfg, states, events, p + 1, j, k);
      NothingExpires(cfg, states, events, j);
      LiveReported(cfg, states[j], events[j], states[j + 1], k);
    }
    if events[j].replay {
      ReportedPresent(cfg, states[j], events[j], states[j + 1]);
      var p := ExpiryFromInsertion(cfg, states, events, j, k);
    }
  }

  /** Exactly one `check_and_insert` of a key succeeds, and it is the first to get the lock. */
  lemma OneWinner(cfg: Config, states: seq<Table>, events: seq<Event>, k: Key, some: nat) returns (w: nat)
    requires Crowd(cfg, states, events)
    requires some < |events| && events[some].op.CheckAndInsert? && events[some].op.key == k
    requires forall i :: 0 <= i < |events| && events[i].op.Insert? ==> events[i].op.key != k
    ensures w <= some && events[w].op.CheckAndInsert? && events[w].op.key == k && !events[w].replay
    ensures forall i :: 0 <= i < |events| && events[i].op.CheckAndInsert? && events[i].op.key == k && i != w ==>
              w < i && events[i].replay
  {
    hide Crowd;
    w := First(events, k, some);
    AnswerExact(cfg, states, events, w, k);
    forall i | w < i < |events| && events[i].op.CheckAndInsert? && events[i].op.key == k ensures events[i].replay {
      assert Inserts(events[w], k);
      AnswerExact(cfg, states, events, i, k);
    }
  }

  lemma {:induction false} First(events: seq<Event>, k: Key, some: nat) returns (w: nat)
    requires some < |events| && events[some].op.CheckAndInsert? && events[some].op.key == k
    ensures w <= some && events[w].op.CheckAndInsert? && events[w].op.key == k
    ensures forall i :: 0 <= i < w ==> !(events[i].op.CheckAndInsert? && events[i].op.key == k)
    decreases some
  {
    if i :| 0 <= i < some && events[i].op.CheckAndInsert? && events[i].op.key == k {
      w := First(events, k, i);
    } else {
      w := some;
    }
  }

  // -------------------------------------------------------------- check, then insert

  /** Two handshakes that each `check` a nonce and `insert` it later if the check passed, as the
      handshake driver does. The one that checks first passes; the other passes too exactly
      if it checks before the first one's insertion. */
  lemma TwoHandshakes(cfg: Config, states: seq<Table>, events: seq<Event>, k: Key,
                      check1: nat, insert1: nat, check2: nat)
    requires Crowd(cfg, states, events) && check1 < insert1 < |events| && check1 < check2 < |events|
    requires events[check1].op.Check? && events[check1].op.key == k
    requires events[check2].op.Check? && events[check2].op.key == k
    requires Inserts(events[insert1], k)
    requires forall i :: 0 <= i < |events| && i != insert1 && Inserts(events[i], k) ==>
               check2 < i && !events[check2].replay
    ensures !events[check1].replay
    ensures !events[check2].replay <==> check2 < insert1
  {
    hide Crowd;
    AnswerExact(cfg, states, events, check1, k);
    AnswerExact(cfg, states, events, check2, k);
    if insert1 < check2 { assert Inserts(events[insert1], k); }
  }

  /** Such a run: both checks, then both insertions, at one reading. */
  lemma BothPass(k: Key)
    ensures var events := [Event(Check(k, 0), false), Event(Check(k, 0), false),
                           Event(Insert(k, 0, 0), false), Event(Insert(k, 0, 0), false)];
            var t := map[k := Entry(10, 0)];
            Crowd(Config(10, 4), [map[], map[], map[], t, t], events)
  {
    hide Step;
    var cfg, none, t := Config(10, 4), map[], map[k := Entry(10, 0)];
    MissedStep(cfg, k, 0);
    FirstInserted(cfg, k, 0);
    InsertedAgain(cfg, t, k, 0);
    assert Keeps(none, 0, none) && Keeps(none, 0, t) && Keeps(t, 0, t);
  }

  lemma MissedStep(cfg: Config, k: Key, now: Instant)
    ensures Step(cfg, map[], Check(k, now), map[], false)
  {
    var none: Table := map[];
    assert LazilyEvicted(cfg, none, now, none) && none - {k} == none;
    assert CheckStep(none, k, now, none, false);
  }

  lemma InsertedAgain(cfg: Config, t: Table, k: Key, now: Instant)
    requires k in t && t[k] == Entry(now + cfg.retention, now) && |t| <= cfg.maxEntries / 2
    ensures Step(cfg, t, Insert(k, now, now), t, false)
  {
    assert LazilyEvicted(cfg, t, now, t) && RoomFor(cfg, t, k, now, now, t);
    assert t[k := Entry(now + cfg.retention, now)] == t;
    assert InsertStep(cfg, t, k, now, now, t);
  }

  // ---------------------------------------------------------------- room for all keys

  /** The keys that operations of the run may insert. */
  ghost function InsertableKeys(events: seq<Event>): set<Key> {
    set i | 0 <= i < |events| && (events[i].op.Insert? || events[i].op.CheckAndInsert?) :: events[i].op.key
  }

  /** A table of keys from a small enough set has room for one more of them. */
  lemma RoomToSpare(cfg: Config, t: Table, k: Key, keys: set<Key>, now: Instant, lruNow: Instant, u: Table)
    requires MadeRoom(cfg, t, now, lruNow, u) && k !in t
    requires t.Keys <= keys && k in keys && |keys| <= cfg.maxEntries
    ensures u == t
  {
    assert |t.Keys + {k}| == |t| + 1;
    CardinalityMonotone(t.Keys + {k}, keys);
  }

  /** Without expiry and with room for all keys, an operation only adds to the table. */
  lemma NothingLost(cfg: Config, t: Table, e: Event, t': Table, keys: set<Key>)
    requires Step(cfg, t, e.op, t', e.replay) && !e.op.Clear? && !SomeExpired(t, e.op.now)
    requires t.Keys <= keys && |keys| <= cfg.maxEntries
    requires e.op.Insert? || e.op.CheckAndInsert? ==> e.op.key in keys
    ensures t.Keys <= t'.Keys
  {
    hide Step, MadeRoom;
    var s := StepThrough(cfg, t, e.op, t', e.replay);
    assert s == t;
    match e.op
    case Check(k, now) => assert k !in t ==> t - {k} == t;
    case CheckAndInsert(k, now, lruNow) =>
      if !e.replay {
        assert t - {k} == t;
        var u :| MadeRoom(cfg, t - {k}, now, lruNow, u) && t' == u[k := Entry(now + cfg.retention, now)];
        RoomToSpare(cfg, t, k, keys, now, lruNow, u);
      }
    case Insert(k, now, lruNow) =>
      var u :| RoomFor(cfg, t, k, now, lruNow, u) && t' == u[k := Entry(now + cfg.retention, now)];
      if k !in t { RoomToSpare(cfg, t, k, keys, now, lruNow, u); }
    case EvictExpired(now) =>
  }

  lemma {:induction false} KeysBounded(cfg: Config, states: seq<Table>, events: seq<Event>, n: nat)
    requires Run(cfg, states, events) && n <= |events|
    ensures states[n].Keys <= InsertableKeys(events)
  {
    hide Step;
    forall k | k in states[n] ensures k in InsertableKeys(events) {
      var p := ExpiryFromInsertion(cfg, states, events, n, k);
    }
  }

  /** No live entry is dropped when there is a slot for every key and nothing is cleared. */
  lemma RoomForAll(cfg: Config, states: seq<Table>, events: seq<Event>)
    requires Run(cfg, states, events) && ShortSpan(cfg, events)
    requires forall i :: 0 <= i < |events| ==> !events[i].op.Clear?
    requires |InsertableKeys(events)| <= cfg.maxEntries
    ensures Crowd(cfg, states, events)
  {
    hide Step;
    forall n | 0 <= n < |events| ensures Keeps(states[n], events[n].op.now, states[n + 1]) {
      NothingExpires(cfg, states, events, n);
      KeysBounded(cfg, states, events, n);
      NothingLost(cfg, states[n], events[n], states[n + 1], InsertableKeys(events));
    }
  }
}
