/** The driver with its replay cache: every handshake checks the other end's nonce first and
    inserts it once the hello is verified. The checks and insertions of all handshakes of one
    agent, in lock order, are a run of the cache. */
module HandshakeReplay {
  import opened Bytes
  import opened Transcript
  import opened HandshakeMessages
  import opened HandshakeRun
  import opened HandshakeDriver
  import opened ReplayCache
  import opened ReplayRuns
  import opened Wrappers

  /** One handshake's part in the run: where it checked, and where it inserted if it got there. */
  datatype Attempt = Attempt(check: nat, insert: nat)

  /** The handshake checked `key`, was told `seen`, and inserted the key if its hello was `verified`. */
  ghost predicate Took(events: seq<Event>, at: Attempt, key: Key, seen: bool, verified: bool) {
    && at.check < |events| && events[at.check].op.Check? && events[at.check].op.key == key
    && events[at.check].replay == seen
    && (verified ==> at.check < at.insert < |events| &&
                     events[at.insert].op.Insert? && events[at.insert].op.key == key)
  }

  /** `drive_server_handshake` up to its reply, against the cache; `r` is what came of it. */
  ghost predicate ServerAttempt(c: Crypto, a: Agent, binding: Digest, o: Offer, octets: bytes, now: u64,
                                events: seq<Event>, at: Attempt, r: DriverResult<ServerHalf>)
  {
    var got := ReceiveClientHello(octets);
    if got.Err? then r == Err(Failed(got.error))
    else
      var seen := at.check < |events| && events[at.check].replay;
      && r == ServerReceives(c, a, binding, o, octets, now, (id, nonce) => seen)
      && Took(events, at, MakeKey(got.value.agentId, got.value.nonce), seen, r.Ok?)
  }

  /** `drive_client_handshake` from the ServerHello octets on, against the cache. */
  ghost predicate ClientAttempt(c: Crypto, a: Agent, binding: Digest, ch: ClientHello, octets: bytes, now: u64,
                                events: seq<Event>, at: Attempt, r: DriverResult<ClientDone>)
  {
    var got := ReceiveServerHello(octets);
    if got.Err? then r == Err(Failed(got.error))
    else
      var seen := at.check < |events| && events[at.check].replay;
      && r == ClientReceives(c, a, binding, ch, octets, now, (id, nonce) => seen)
      && Took(events, at, MakeKey(got.value.agentId, got.value.nonce), seen, r.Ok?)
  }

  // ---------------------------------------------------------------------- the log

  /** An insertion stays in the log until the next clear. */
  lemma {:induction false} InsertionLogged(cfg: Config, ops: seq<Op>, p: nat, j: nat)
    requires p < j <= |ops| && ops[p].Insert? && forall q :: p < q < j ==> !ops[q].Clear?
    ensures Insertion(ops[p].key, ops[p].now) in LogOf(cfg, ops[..j])
    decreases j
  {
    hide LogAnswer;
    var log := LogOf(cfg, ops[..j - 1]);
    assert ops[..j][..j - 1] == ops[..j - 1] && ops[..j][j - 1] == ops[j - 1];
    if j == p + 1 {
      assert LogOf(cfg, ops[..j]) == log + [Insertion(ops[p].key, ops[p].now)];
    } else {
      InsertionLogged(cfg, ops, p, j - 1);
    }
  }

  /** A run of the cache with nondecreasing readings and never more live keys than slots. */
  ghost predicate CacheRun(cfg: Config, states: seq<Table>, events: seq<Event>) {
    Run(cfg, states, events) && Ordered(Ops(events)) && WithinCapacity(cfg, Ops(events))
  }

  /** The first handshake inserted its nonce before the second one's check, less than one
      retention earlier, with no clear in between. */
  ghost predicate Within(cfg: Config, events: seq<Event>, first: Attempt, second: Attempt) {
    && first.insert < second.check < |events| && !events[first.insert].op.Clear? && !events[second.check].op.Clear?
    && events[second.check].op.now < events[first.insert].op.now + cfg.retention
    && forall q :: first.insert < q < second.check ==> !events[q].op.Clear?
  }

  lemma SecondIsSeen(cfg: Config, states: seq<Table>, events: seq<Event>, first: Attempt, second: Attempt,
                     key: Key, seen1: bool, seen2: bool, verified: bool)
    requires CacheRun(cfg, states, events) && Within(cfg, events, first, second)
    requires Took(events, first, key, seen1, true) && Took(events, second, key, seen2, verified)
    ensures seen2
  {
    hide Run, Ordered, WithinCapacity, LogOf;
    var ops := Ops(events);
    CacheRefinesLog(cfg, states, events);
    InsertionLogged(cfg, ops, first.insert, second.check);
    var log := LogOf(cfg, ops[..second.check]);
    var i :| 0 <= i < |log| && log[i] == Insertion(key, events[first.insert].op.now);
    assert LogLive(cfg, log, key, events[second.check].op.now);
  }

  // ---------------------------------------------------------------------- handshakes

  /** A hello that was answered once is refused within the retention, whatever binding, octets
      and clock the second attempt comes with: only agent id and nonce count. */
  lemma AnsweredOnce(cfg: Config, states: seq<Table>, events: seq<Event>, c: Crypto, a: Agent, o1: Offer, o2: Offer,
                     binding1: Digest, octets1: bytes, now1: u64, first: Attempt, r1: DriverResult<ServerHalf>,
                     binding2: Digest, octets2: bytes, now2: u64, second: Attempt, r2: DriverResult<ServerHalf>)
    requires CacheRun(cfg, states, events) && Within(cfg, events, first, second)
    requires ServerAttempt(c, a, binding1, o1, octets1, now1, events, first, r1) && r1.Ok?
    requires ServerAttempt(c, a, binding2, o2, octets2, now2, events, second, r2)
    requires var ch1, ch2 := ReceiveClientHello(octets1), ReceiveClientHello(octets2);
             ch1.Ok? && ch2.Ok? && ch1.value.agentId == ch2.value.agentId && ch1.value.nonce == ch2.value.nonce
    ensures r2 == Err(NonceReused)
  {
    hide CacheRun, Within, ReceiveClientHello, TranscriptOf, VerifyClientHello, Reply;
    var ch := ReceiveClientHello(octets1).value;
    SecondIsSeen(cfg, states, events, first, second, MakeKey(ch.agentId, ch.nonce),
                 events[first.check].replay, events[second.check].replay, r2.Ok?);
  }

  /** The same for a ServerHello. */
  lemma TakenOnce(cfg: Config, states: seq<Table>, events: seq<Event>, c: Crypto, a: Agent,
                  binding1: Digest, ch1: ClientHello, octets1: bytes, now1: u64, first: Attempt,
                  r1: DriverResult<ClientDone>,
                  binding2: Digest, ch2: ClientHello, octets2: bytes, now2: u64, second: Attempt,
                  r2: DriverResult<ClientDone>)
    requires CacheRun(cfg, states, events) && Within(cfg, events, first, second)
    requires ClientAttempt(c, a, binding1, ch1, octets1, now1, events, first, r1) && r1.Ok?
    requires ClientAttempt(c, a, binding2, ch2, octets2, now2, events, second, r2)
    requires var sh1, sh2 := ReceiveServerHello(octets1), ReceiveServerHello(octets2);
             sh1.Ok? && sh2.Ok? && sh1.value.agentId == sh2.value.agentId && sh1.value.nonce == sh2.value.nonce
    ensures r2 == Err(NonceReused)
  {
    hide CacheRun, Within, ReceiveServerHello, TranscriptOf, VerifyServerHello;
    var sh := ReceiveServerHello(octets1).value;
    SecondIsSeen(cfg, states, events, first, second, MakeKey(sh.agentId, sh.nonce),
                 events[first.check].replay, events[second.check].replay, r2.Ok?);
  }

  /** Conversely a hello is refused as reused only if its key is live in the log: some earlier
      handshake inserted it, less than one retention ago and since the last clear. */
  lemma RefusedExact(cfg: Config, states: seq<Table>, events: seq<Event>, c: Crypto, a: Agent, o: Offer,
                     binding: Digest, octets: bytes, now: u64, at: Attempt, r: DriverResult<ServerHalf>)
    requires CacheRun(cfg, states, events) && ServerAttempt(c, a, binding, o, octets, now, events, at, r)
    requires ReceiveClientHello(octets).Ok?
    ensures r == Err(NonceReused) <==>
            LogLive(cfg, LogOf(cfg, Ops(events)[..at.check]), events[at.check].op.key, events[at.check].op.now)
  {
    hide Run, Ordered, WithinCapacity, LogOf, ReceiveClientHello, TranscriptOf, VerifyClientHello, Reply, LogLive;
    CacheRefinesLog(cfg, states, events);
  }
}
