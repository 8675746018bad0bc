/** Whole runs of the replay cache. A run is any sequence of locked operations, in lock order. */
module ReplayRuns {
  import opened ReplayCache

  datatype Event = Event(op: Op, replay: bool)

  ghost predicate Run(cfg: Config, states: seq<Table>, events: seq<Event>) {
    && |states| == |events| + 1
    && states[0] == map[]
    && forall i :: 0 <= i < |events| ==> Step(cfg, states[i], events[i].op, states[i + 1], events[i].replay)
  }

  /** `s` is `t` without some expired entries. */
  ghost predicate Trimmed(t: Table, now: Instant, s: Table) {
    && (forall k :: k in s ==> k in t && s[k] == t[k])
    && (forall k :: k in t && k !in s ==> Expired(t[k], now))
  }

  lemma LazyTrims(cfg: Config, t: Table, now: Instant, s: Table)
    requires LazilyEvicted(cfg, t, now, s)
    ensures Trimmed(t, now, s)
  {}

  /** The table between the sweep that opens an operation and the operation proper. */
  lemma StepThrough(cfg: Config, t: Table, op: Op, t': Table, replay: bool) returns (s: Table)
    requires Step(cfg, t, op, t', replay) && !op.Clear?
    ensures Trimmed(t, op.now, s)
    ensures op.Check? ==> CheckStep(s, op.key, op.now, t', replay)
    ensures op.CheckAndInsert? ==> CheckAndInsertStep(cfg, s, op.key, op.now, op.lruNow, t', replay)
    ensures op.Insert? ==> InsertStep(cfg, s, op.key, op.now, op.lruNow, t') && !replay
    ensures op.EvictExpired? ==> t' == s && !replay
  {
    hide CheckStep, CheckAndInsertStep, InsertStep, LazilyEvicted;
    match op
    case Check(k, now) =>
      s :| LazilyEvicted(cfg, t, now, s) && CheckStep(s, k, now, t', replay);
      LazyTrims(cfg, t, now, s);
    case CheckAndInsert(k, now, lruNow) =>
      s :| LazilyEvicted(cfg, t, now, s) && CheckAndInsertStep(cfg, s, k, now, lruNow, t', replay);
      LazyTrims(cfg, t, now, s);
    case Insert(k, now, lruNow) =>
      s :| LazilyEvicted(cfg, t, now, s) && InsertStep(cfg, s, k, now, lruNow, t');
      LazyTrims(cfg, t, now, s);
    case EvictExpired(now) => s := t';
  }

  // ------------------------------------------------------------- the insertion log

  datatype Insertion = Insertion(key: Key, at: Instant)
  type Log = seq<Insertion>

  /** Inserted less than `retention` ago, since the last clear. */
  ghost predicate LogLive(cfg: Config, log: Log, k: Key, now: Instant) {
    exists i :: 0 <= i < |log| && log[i].key == k && now < log[i].at + cfg.retention
  }

  ghost function LiveKeys(cfg: Config, log: Log, now: Instant): set<Key> {
    set i | 0 <= i < |log| && now < log[i].at + cfg.retention :: log[i].key
  }

  ghost predicate LogAnswer(cfg: Config, log: Log, op: Op) {
    (op.Check? || op.CheckAndInsert?) && LogLive(cfg, log, op.key, op.now)
  }

  /** The log records every insertion and forgets only on clear. */
  ghost function LogStep(cfg: Config, log: Log, op: Op): Log {
    if op.Clear? then []
    else if op.Insert? || (op.CheckAndInsert? && !LogAnswer(cfg, log, op)) then log + [Insertion(op.key, op.now)]
    else log
  }

  ghost function LogOf(cfg: Config, ops: seq<Op>): Log {
    if ops == [] then [] else LogStep(cfg, LogOf(cfg, ops[..|ops| - 1]), ops[|ops| - 1])
  }

  // ------------------------------------------------------------------ refinement

  /** Table and log at a time no earlier than any reading so far: every entry records an
      insertion, and every insertion still live is in the table. */
  ghost predicate Agree(cfg: Config, t: Table, log: Log, clock: Instant) {
    && (forall k :: k in t ==> Recorded(cfg, log, k, t[k].expiresAt))
    && (forall i :: 0 <= i < |log| ==> log[i].at <= clock)
    && (forall i :: 0 <= i < |log| && clock < log[i].at + cfg.retention ==>
          log[i].key in t && log[i].at + cfg.retention <= t[log[i].key].expiresAt)
  }

  ghost predicate Recorded(cfg: Config, log: Log, k: Key, expiresAt: Instant) {
    exists i :: 0 <= i < |log| && log[i].key == k && expiresAt == log[i].at + cfg.retention
  }

  lemma AgreeLive(cfg: Config, t: Table, log: Log, clock: Instant, k: Key)
    requires Agree(cfg, t, log, clock)
    ensures Live(t, k, clock) <==> LogLive(cfg, log, k, clock)
  {}

  /** Time passing and dropping expired entries keep the agreement. */
  lemma AgreeTrimmed(cfg: Config, t: Table, log: Log, clock: Instant, now: Instant, s: Table)
    requires Agree(cfg, t, log, clock) && clock <= now && Trimmed(t, now, s)
    ensures Agree(cfg, s, log, now)
  {}

  lemma RecordedLater(cfg: Config, log: Log, k: Key, e: Instant, more: Insertion)
    requires Recorded(cfg, log, k, e)
    ensures Recorded(cfg, log + [more], k, e)
  {
    var i :| 0 <= i < |log| && log[i].key == k && e == log[i].at + cfg.retention;
    assert (log + [more])[i] == log[i];
  }

  lemma AgreeInserted(cfg: Config, t: Table, log: Log, now: Instant, k: Key)
    requires Agree(cfg, t, log, now)
    ensures Agree(cfg, t[k := Entry(now + cfg.retention, now)], log + [Insertion(k, now)], now)
  {
    var t' := t[k := Entry(now + cfg.retention, now)];
    var log' := log + [Insertion(k, now)];
    forall j | j in t' ensures Recorded(cfg, log', j, t'[j].expiresAt) {
      if j == k { assert log'[|log|] == Insertion(k, now); }
      else { RecordedLater(cfg, log, j, t[j].expiresAt, Insertion(k, now)); }
    }
  }

  /** Room is made only by dropping expired entries, as long as the log itself would not hold
      more than `maxEntries` live keys after the insertion. */
  lemma RoomTrims(cfg: Config, t: Table, log: Log, now: Instant, lruNow: Instant, k: Key, u: Table)
    requires Agree(cfg, t, log, now) && k !in t && MadeRoom(cfg, t, now, lruNow, u)
    requires |LiveKeys(cfg, log + [Insertion(k, now)], now)| <= cfg.maxEntries
    ensures Trimmed(t, now, u)
  {
    if |t| >= cfg.maxEntries && !SomeExpired(t, now) && t.Keys != {} {
      var log' := log + [Insertion(k, now)];
      var live := LiveKeys(cfg, log', now);
      forall j | j in t ensures j in live {
        AgreeLive(cfg, t, log, now, j);
        var i :| 0 <= i < |log| && log[i].key == j && now < log[i].at + cfg.retention;
        assert log'[i] == log[i];
      }
      assert k in live by {
        assert log'[|log|] == Insertion(k, now);
        var j :| j in t;
        assert now < t[j].expiresAt;
      }
      assert |t.Keys + {k}| == |t| + 1;
      CardinalityMonotone(t.Keys + {k}, live);
    }
  }

  ghost predicate Inserting(op: Op) { op.Insert? || op.CheckAndInsert? }

  lemma RefineCheck(cfg: Config, s: Table, log: Log, k: Key, now: Instant, t': Table, replay: bool)
    requires Agree(cfg, s, log, now) && CheckStep(s, k, now, t', replay)
    ensures replay == LogLive(cfg, log, k, now) && Agree(cfg, t', log, now)
  {
    AgreeLive(cfg, s, log, now, k);
  }

  lemma RefineCheckAndInsert(cfg: Config, s: Table, log: Log, k: Key, now: Instant, lruNow: Instant,
                             t': Table, replay: bool)
    requires Agree(cfg, s, log, now) && CheckAndInsertStep(cfg, s, k, now, lruNow, t', replay)
    requires !LogLive(cfg, log, k, now) ==> |LiveKeys(cfg, log + [Insertion(k, now)], now)| <= cfg.maxEntries
    ensures replay == LogLive(cfg, log, k, now)
    ensures Agree(cfg, t', if replay then log else log + [Insertion(k, now)], now)
  {
    AgreeLive(cfg, s, log, now, k);
    if !replay {
      AgreeTrimmed(cfg, s, log, now, now, s - {k});
      hide Agree, LogLive, LiveKeys;
      var u :| MadeRoom(cfg, s - {k}, now, lruNow, u) && t' == u[k := Entry(now + cfg.retention, now)];
      RoomTrims(cfg, s - {k}, log, now, lruNow, k, u);
      AgreeTrimmed(cfg, s - {k}, log, now, now, u);
      AgreeInserted(cfg, u, log, now, k);
    }
  }

  lemma RefineInsert(cfg: Config, s: Table, log: Log, k: Key, now: Instant, lruNow: Instant, t': Table)
    requires Agree(cfg, s, log, now) && InsertStep(cfg, s, k, now, lruNow, t')
    requires |LiveKeys(cfg, log + [Insertion(k, now)], now)| <= cfg.maxEntries
    ensures Agree(cfg, t', log + [Insertion(k, now)], now)
  {
    hide Agree, LiveKeys, MadeRoom;
    var u :| RoomFor(cfg, s, k, now, lruNow, u) && t' == u[k := Entry(now + cfg.retention, now)];
    if k !in s { RoomTrims(cfg, s, log, now, lruNow, k, u); }
    AgreeTrimmed(cfg, s, log, now, now, u);
    AgreeInserted(cfg, u, log, now, k);
  }

  /** One operation answers as the log does and keeps table and log in agreement. */
  lemma RefineStep(cfg: Config, t: Table, log: Log, clock: Instant, op: Op, t': Table, replay: bool)
    requires Agree(cfg, t, log, clock) && Step(cfg, t, op, t', replay)
    requires !op.Clear? ==> clock <= op.now
    requires Inserting(op) ==> |LiveKeys(cfg, LogStep(cfg, log, op), op.now)| <= cfg.maxEntries
    ensures replay == LogAnswer(cfg, log, op)
    ensures Agree(cfg, t', LogStep(cfg, log, op), if op.Clear? then clock else op.now)
  {
    if !op.Clear? {
      hide Agree, LogLive, LiveKeys, Step, CheckStep, CheckAndInsertStep, InsertStep, Trimmed;
      var s := StepThrough(cfg, t, op, t', replay);
      AgreeTrimmed(cfg, t, log, clock, op.now, s);
      match op
      case Check(k, now) => RefineCheck(cfg, s, log, k, now, t', replay);
      case CheckAndInsert(k, now, lruNow) => RefineCheckAndInsert(cfg, s, log, k, now, lruNow, t', replay);
      case Insert(k, now, lruNow) => RefineInsert(cfg, s, log, k, now, lruNow, t');
      case EvictExpired(now) =>
    }
  }

  function Ops(events: seq<Event>): (ops: seq<Op>)
    ensures |ops| == |events|
  {
    seq(|events|, i requires 0 <= i < |events| => events[i].op)
  }

  /** Clock readings never decrease in lock order. */
  ghost predicate Ordered(ops: seq<Op>) {
    forall i, j :: 0 <= i < j < |ops| && !ops[i].Clear? && !ops[j].Clear? ==> ops[i].now <= ops[j].now
  }

  /** No insertion leaves the log with more than `maxEntries` live keys. */
  ghost predicate WithinCapacity(cfg: Config, ops: seq<Op>) {
    forall i :: 0 <= i < |ops| && Inserting(ops[i]) ==>
      |LiveKeys(cfg, LogOf(cfg, ops[..i + 1]), ops[i].now)| <= cfg.maxEntries
  }

  ghost function Clock(ops: seq<Op>): Instant {
    if ops == [] then 0
    else var last := ops[|ops| - 1]; if last.Clear? then Clock(ops[..|ops| - 1]) else last.now
  }

  lemma {:induction false} ClockBelow(ops: seq<Op>, now: Instant)
    requires forall i :: 0 <= i < |ops| && !ops[i].Clear? ==> ops[i].now <= now
    ensures Clock(ops) <= now
  {
    if ops != [] { ClockBelow(ops[..|ops| - 1], now); }
  }

  lemma {:induction false} RunAgrees(cfg: Config, states: seq<Table>, events: seq<Event>, n: nat)
    requires Run(cfg, states, events) && n <= |events|
    requires Ordered(Ops(events)) && WithinCapacity(cfg, Ops(events))
    ensures Agree(cfg, states[n], LogOf(cfg, Ops(events)[..n]), Clock(Ops(events)[..n]))
    ensures forall i :: 0 <= i < n ==> events[i].replay == LogAnswer(cfg, LogOf(cfg, Ops(events)[..i]), events[i].op)
  {
    var ops := Ops(events);
    if n > 0 {
      hide Agree, LiveKeys, LogAnswer, LogStep, Step;
      var m := n - 1;
      RunAgrees(cfg, states, events, m);
      assert ops[..n][..m] == ops[..m] && ops[..n][m] == ops[m] == events[m].op;
      assert LogOf(cfg, ops[..n]) == LogStep(cfg, LogOf(cfg, ops[..m]), ops[m]);
      if !ops[m].Clear? { ClockBelow(ops[..m], ops[m].now); }
      RefineStep(cfg, states[m], LogOf(cfg, ops[..m]), Clock(ops[..m]), ops[m], states[n], events[m].replay);
    } else {
      assert LogOf(cfg, ops[..0]) == [];
    }
  }

  /** Lazy and LRU eviction are invisible: with readings nondecreasing in lock order, in every
      run where the plain insertion log never holds more than `maxEntries` live keys, `check`
      and `check_and_insert` answer exactly as the log does. */
  lemma CacheRefinesLog(cfg: Config, states: seq<Table>, events: seq<Event>)
    requires Run(cfg, states, events)
    requires Ordered(Ops(events)) && WithinCapacity(cfg, Ops(events))
    ensures forall i :: 0 <= i < |events| && (events[i].op.Check? || events[i].op.CheckAndInsert?) ==>
              (events[i].replay <==>
               LogLive(cfg, LogOf(cfg, Ops(events)[..i]), events[i].op.key, events[i].op.now))
  {
    RunAgrees(cfg, states, events, |events|);
  }
}
