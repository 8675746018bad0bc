/** The client and server handshake machines. `Machine` is their common form, on ladder
    rungs; the two classes carry the states and flags of the source and step as it does. */
module HandshakeState {
  import opened Ladder
  import opened Wrappers

  type Instant = nat
  /** Peer messages a machine guards against repeats. */
  datatype Message = ServerHelloMessage | ClientHelloMessage | ClientFinishedMessage

  const TOP: nat := 6
  const CLOSING: nat := 7
  const CLOSED: nat := 8

  /** Entering a `waiting` rung starts the handshake timer; entering `reset` forgets the peer
      messages seen. */
  datatype Profile = Profile(waiting: set<nat>, reset: nat)

  datatype Machine = Machine(rung: nat, deadline: Option<Instant>, handshakeTimeout: nat, closeTimeout: nat,
                             received: set<Message>)

  datatype Call = TransitionTo(rung: nat, now: Instant) | Receive(message: Message)

  /** A machine after a call, and whether the call succeeded. */
  datatype Outcome = Outcome(machine: Machine, ok: bool)

  function Step(p: Profile, m: Machine, call: Call): Outcome {
    match call
    case TransitionTo(t, now) =>
      if !CanMove(TOP, m.rung, t) then Outcome(m, false)
      else
        var deadline :=
          if t in p.waiting then Some(now + m.handshakeTimeout)
          else if t == CLOSING then Some(now + m.closeTimeout)
          else if t == CLOSED then None
          else m.deadline;
        Outcome(m.(rung := t, deadline := deadline, received := if t == p.reset then {} else m.received), true)
    case Receive(x) =>
      if x in m.received then Outcome(m, false) else Outcome(m.(received := m.received + {x}), true)
  }

  function After(p: Profile, m: Machine, calls: seq<Call>): Machine {
    if calls == [] then m else Step(p, After(p, m, calls[..|calls| - 1]), calls[|calls| - 1]).machine
  }

  /** The rungs visited, the first one included. */
  function Path(p: Profile, m: Machine, calls: seq<Call>): seq<nat> {
    if calls == [] then [m.rung]
    else
      var n := |calls| - 1;
      Path(p, m, calls[..n])
      + if calls[n].TransitionTo? && Step(p, After(p, m, calls[..n]), calls[n]).ok then [calls[n].rung] else []
  }

  function Initial(handshakeTimeout: nat, closeTimeout: nat): Machine {
    Machine(0, None, handshakeTimeout, closeTimeout, {})
  }

  // --------------------------------------------------------------------- run properties

  lemma {:induction false} PathClimbs(p: Profile, m: Machine, calls: seq<Call>)
    requires m.rung == 0
    ensures Climb(TOP, Path(p, m, calls)) && Path(p, m, calls)[|Path(p, m, calls)| - 1] == After(p, m, calls).rung
  {
    if calls != [] {
      var n := |calls| - 1;
      PathClimbs(p, m, calls[..n]);
      var before, now := Path(p, m, calls[..n]), Path(p, m, calls);
      assert forall i :: 0 <= i < |before| ==> now[i] == before[i];
    }
  }

  /** In every run: at most eight moves, each forward; Messaging only through all six states
      before it, in order, even if the run has closed since. */
  lemma RunsClimb(p: Profile, m: Machine, calls: seq<Call>)
    requires m.rung == 0
    ensures var path := Path(p, m, calls);
            && |path| - 1 <= 8
            && (forall i, j :: 0 <= i < j < |path| ==> path[i] < path[j])
            && (TOP in path ==> |path| >= 7 && path[..7] == [0, 1, 2, 3, 4, 5, 6])
  {
    PathClimbs(p, m, calls);
    var path := Path(p, m, calls);
    ClimbShape(TOP, path);
    if TOP in path { ReachedInOrder(TOP, path, TOP); }
  }

  predicate DeadlineMatches(m: Machine) { m.deadline.None? <==> m.rung == 0 || m.rung == CLOSED }

  /** In every run the deadline is absent exactly in the initial state and in Closed. */
  lemma {:induction false} DeadlineInvariant(p: Profile, calls: seq<Call>, h: nat, c: nat)
    requires 1 in p.waiting && p.waiting <= {1, 2, 3, 4, 5, 6}
    ensures DeadlineMatches(After(p, Initial(h, c), calls)) && After(p, Initial(h, c), calls).rung <= CLOSED
  {
    if calls != [] { DeadlineInvariant(p, calls[..|calls| - 1], h, c); }
  }

  /** How often a message is accepted in a sequence of calls. */
  function Accepted(p: Profile, m: Machine, calls: seq<Call>, x: Message): nat {
    if calls == [] then 0
    else
      var n := |calls| - 1;
      Accepted(p, m, calls[..n], x)
      + if calls[n] == Receive(x) && Step(p, After(p, m, calls[..n]), calls[n]).ok then 1 else 0
  }

  /** From the reset rung on a message is accepted at most once. */
  lemma {:induction false} AcceptedOnce(p: Profile, m: Machine, calls: seq<Call>, x: Message)
    requires p.reset <= m.rung
    ensures p.reset <= After(p, m, calls).rung && m.rung <= After(p, m, calls).rung
    ensures Accepted(p, m, calls, x) == (if x in After(p, m, calls).received && x !in m.received then 1 else 0)
    ensures x in m.received ==> x in After(p, m, calls).received
  {
    if calls != [] { AcceptedOnce(p, m, calls[..|calls| - 1], x); }
  }

  lemma {:induction false} OneMoreCall(p: Profile, m: Machine, calls: seq<Call>, call: Call, x: Message)
    ensures After(p, m, calls + [call]) == Step(p, After(p, m, calls), call).machine
    ensures Accepted(p, m, calls + [call], x) == Accepted(p, m, calls, x)
            + if call == Receive(x) && Step(p, After(p, m, calls), call).ok then 1 else 0
  {
    hide Step;
    assert (calls + [call])[..|calls|] == calls;
  }

  /** A machine climbs to any working rung without receiving anything. */
  lemma {:induction false} ClimbTo(p: Profile, m: Machine, calls: seq<Call>, x: Message, rung: nat)
    returns (more: seq<Call>)
    requires After(p, m, calls).rung <= rung <= TOP
    ensures After(p, m, more).rung == rung
    ensures Accepted(p, m, more, x) == Accepted(p, m, calls, x)
    decreases rung
  {
    hide After, Accepted;
    more := calls;
    if After(p, m, calls).rung < rung {
      var below := ClimbTo(p, m, calls, x, rung - 1);
      OneMoreCall(p, m, below, TransitionTo(rung, 0), x);
      more := below + [TransitionTo(rung, 0)];
    }
  }

  /** A message taken before the reset rung and again on it. */
  lemma {:induction false} AcceptedTwice(p: Profile, m: Machine, x: Message) returns (calls: seq<Call>)
    requires m.rung < p.reset <= TOP && x !in m.received
    ensures Accepted(p, m, calls, x) == 2
  {
    assert After(p, m, []) == m && Accepted(p, m, [], x) == 0;
    hide After, Accepted;
    OneMoreCall(p, m, [], Receive(x), x);
    var below := ClimbTo(p, m, [] + [Receive(x)], x, p.reset - 1);
    OneMoreCall(p, m, below, TransitionTo(p.reset, 0), x);
    OneMoreCall(p, m, below + [TransitionTo(p.reset, 0)], Receive(x), x);
    calls := below + [TransitionTo(p.reset, 0)] + [Receive(x)];
  }

  lemma {:induction false} AcceptedOnceAfterwards(p: Profile, m: Machine, calls: seq<Call>, x: Message)
    requires m.rung < p.reset && x in m.received
    ensures var now := After(p, m, calls);
            && (now.rung < p.reset ==> x in now.received && Accepted(p, m, calls, x) == 0)
            && Accepted(p, m, calls, x) <= if x in now.received then 1 else 0
  {
    if calls != [] { AcceptedOnceAfterwards(p, m, calls[..|calls| - 1], x); }
  }

  /** The duplicate guard does its work from `m` on, in every run, exactly if the reset rung is
      not ahead or the message has been taken already. */
  lemma {:induction false} GuardExact(p: Profile, m: Machine, x: Message)
    requires p.reset <= TOP
    ensures (forall calls :: Accepted(p, m, calls, x) <= 1) <==> p.reset <= m.rung || x in m.received
  {
    if p.reset <= m.rung {
      forall calls ensures Accepted(p, m, calls, x) <= 1 { AcceptedOnce(p, m, calls, x); }
    } else if x in m.received {
      forall calls ensures Accepted(p, m, calls, x) <= 1 { AcceptedOnceAfterwards(p, m, calls, x); }
    } else {
      var calls := AcceptedTwice(p, m, x);
    }
  }

  /** So a new client can take a ServerHello before ChSent and again in it. */
  lemma ClientAcceptsTwice(h: nat, c: nat)
    ensures exists calls :: Accepted(CLIENT, Initial(h, c), calls, ServerHelloMessage) == 2
  {
    var calls := AcceptedTwice(CLIENT, Initial(h, c), ServerHelloMessage);
  }

  /** `check_timeout` fails. */
  predicate TimedOut(m: Machine, now: Instant) { m.deadline.Some? && now > m.deadline.value }

  /** Past its last waiting rung a machine keeps its deadline until it closes: up to and
      including Messaging, the timer started on entering ChSent (client) or ShSent (server)
      still runs. */
  lemma {:induction false} DeadlinePersists(p: Profile, m: Machine, calls: seq<Call>)
    requires forall w :: w in p.waiting ==> w <= m.rung
    ensures m.rung <= After(p, m, calls).rung
    ensures After(p, m, calls).rung <= TOP ==> After(p, m, calls).deadline == m.deadline
  {
    if calls != [] { DeadlinePersists(p, m, calls[..|calls| - 1]); }
  }

  /** So a client that entered ChSent at `t` times out in every later working state, Messaging
      included, exactly when more than its handshake timeout has passed. */
  lemma ClientTimesOutInMessaging(m: Machine, t: Instant, calls: seq<Call>, now: Instant)
    requires m.rung == 1
    ensures var sent := Step(CLIENT, m, TransitionTo(2, t)).machine;
            var later := After(CLIENT, sent, calls);
            later.rung <= TOP ==> (TimedOut(later, now) <==> now > t + m.handshakeTimeout)
  {
    DeadlinePersists(CLIENT, Step(CLIENT, m, TransitionTo(2, t)).machine, calls);
  }

  /** In Closing the close timer decides, from the moment Closing was entered. */
  lemma {:induction false} ClosingTimesOut(p: Profile, m: Machine, t: Instant, calls: seq<Call>, now: Instant)
    requires p.waiting <= {1, 2, 3, 4, 5, 6} && CanMove(TOP, m.rung, CLOSING)
    ensures var later := After(p, Step(p, m, TransitionTo(CLOSING, t)).machine, calls);
            later.rung == CLOSING ==> (TimedOut(later, now) <==> now > t + m.closeTimeout)
  {
    ClosingKept(p, Step(p, m, TransitionTo(CLOSING, t)).machine, calls);
  }

  lemma {:induction false} ClosingKept(p: Profile, m: Machine, calls: seq<Call>)
    requires m.rung == CLOSING
    ensures var later := After(p, m, calls);
            later.rung == CLOSED || (later.rung == CLOSING && later.deadline == m.deadline)
  {
    if calls != [] { ClosingKept(p, m, calls[..|calls| - 1]); }
  }

  /** A new machine that `calls` bring to `rung` went through `first` on the way. */
  predicate PassedThrough(p: Profile, h: nat, c: nat, calls: seq<Call>, rung: nat, first: nat) {
    After(p, Initial(h, c), calls).rung == rung ==> first in Path(p, Initial(h, c), calls)
  }

  /** Standing on a rung is evidence of having passed another exactly if that is at or below it and
      the machine has not begun to close. */
  lemma {:induction false} PassedExact(p: Profile, h: nat, c: nat, rung: nat, first: nat)
    requires 2 <= first <= TOP && rung <= CLOSED
    ensures (forall calls :: PassedThrough(p, h, c, calls, rung, first)) <==> first <= rung <= TOP
  {
    if rung == CLOSING {
      EarlyClose(p, h, c, first);
    } else if rung == CLOSED {
      EarlyAbort(p, h, c, first);
    } else if rung < first {
      NotYet(p, h, c, rung, first);
    } else {
      forall calls ensures PassedThrough(p, h, c, calls, rung, first) {
        PathClimbs(p, Initial(h, c), calls);
        var path := Path(p, Initial(h, c), calls);
        if path[|path| - 1] == rung {
          ReachedInOrder(TOP, path, rung);
          assert path[first] == first;
        }
      }
    }
  }

  /** A machine on a lower rung has not been on a higher one. */
  lemma {:induction false} NotYet(p: Profile, h: nat, c: nat, rung: nat, first: nat)
    requires rung < first <= TOP
    ensures exists calls :: !PassedThrough(p, h, c, calls, rung, first)
  {
    var m := Initial(h, c);
    assert After(p, m, []) == m;
    var calls := ClimbTo(p, m, [], ServerHelloMessage, rung);
    PathClimbs(p, m, calls);
    var path := Path(p, m, calls);
    ClimbShape(TOP, path);
    forall i | 0 <= i < |path| ensures path[i] <= rung {
      if i < |path| - 1 { assert path[i] < path[|path| - 1]; }
    }
    assert !PassedThrough(p, h, c, calls, rung, first);
  }

  lemma {:induction false} EarlyAbort(p: Profile, h: nat, c: nat, first: nat)
    requires 2 <= first <= TOP
    ensures !PassedThrough(p, h, c, [TransitionTo(CLOSED, 0)], CLOSED, first)
  {
    var m, one := Initial(h, c), [TransitionTo(CLOSED, 0)];
    assert one[..0] == [];
    assert Path(p, m, []) == [0] && After(p, m, []) == m;
    assert Path(p, m, one) == [0] + [CLOSED];
  }

  lemma {:induction false} EarlyClose(p: Profile, h: nat, c: nat, first: nat)
    requires 2 <= first <= TOP
    ensures !PassedThrough(p, h, c, [TransitionTo(1, 0), TransitionTo(CLOSING, 0)], CLOSING, first)
  {
    var m, one, two := Initial(h, c), [TransitionTo(1, 0)], [TransitionTo(1, 0), TransitionTo(CLOSING, 0)];
    assert two[..1] == one && one[..0] == [];
    assert Path(p, m, []) == [0] && After(p, m, []) == m;
    assert Path(p, m, one) == [0, 1] && After(p, m, one).rung == 1;
    assert Path(p, m, two) == [0, 1] + [CLOSING];
  }

  // -------------------------------------------------------------------------- client

  datatype ClientState = Idle | Connecting | ChSent | ShVerified | CfSent | Authorized | Messaging | Closing | Closed

  function ClientRung(s: ClientState): nat {
    match s
    case Idle => 0 case Connecting => 1 case ChSent => 2 case ShVerified => 3 case CfSent => 4
    case Authorized => 5 case Messaging => 6 case Closing => 7 case Closed => 8
  }

  /** `ClientHandshakeState::can_transition_to` */
  predicate ClientCanTransition(s: ClientState, next: ClientState) {
    match (s, next)
    case (Idle, Connecting) => true
    case (Connecting, ChSent) => true
    case (ChSent, ShVerified) => true
    case (ShVerified, CfSent) => true
    case (CfSent, Authorized) => true
    case (Authorized, Messaging) => true
    case (Messaging, Closing) => true
    case (Closing, Closed) => true
    case (_, Closing) => s in {Connecting, ChSent, ShVerified, CfSent, Authorized}
    case (_, Closed) => s in {Idle, Connecting, ChSent, ShVerified, CfSent, Authorized, Messaging}
    case _ => false
  }

  lemma ClientLadder(s: ClientState, next: ClientState)
    ensures ClientCanTransition(s, next) <==> CanMove(TOP, ClientRung(s), ClientRung(next))
  {}

  const CLIENT: Profile := Profile({1, 2}, 2)

  /** The two states that start the handshake timer, and the one that forgets messages, by name. */
  lemma ClientTimersStart(m: Machine, next: ClientState, t: Instant)
    requires CanMove(TOP, m.rung, ClientRung(next))
    ensures var later := Step(CLIENT, m, TransitionTo(ClientRung(next), t)).machine;
            && later.rung == ClientRung(next)
            && later.deadline == (if next == Connecting || next == ChSent then Some(t + m.handshakeTimeout)
                                  else if next == Closing then Some(t + m.closeTimeout)
                                  else if next == Closed then None
                                  else m.deadline)
            && later.received == if next == ChSent then {} else m.received
  {}

  /** Any client that is not closed can be closed, and any that has started and is not closing can
      begin to. */
  lemma ClientCanAlwaysClose(s: ClientState)
    ensures ClientCanTransition(s, Closed) <==> s != Closed
    ensures ClientCanTransition(s, Closing) <==> s !in {Idle, Closing, Closed}
    ensures ClientCanTransition(Idle, Connecting) && ClientCanTransition(Connecting, ChSent)
    ensures ClientCanTransition(ChSent, ShVerified) && ClientCanTransition(ShVerified, CfSent)
    ensures ClientCanTransition(CfSent, Authorized) && ClientCanTransition(Authorized, Messaging)
  {}

  /** `ClientHandshakeState::is_identity_verified` */
  predicate ClientIdentityVerified(s: ClientState) { s in {ShVerified, CfSent, Authorized, Messaging, Closing} }

  /** Every run that is in a state went through ShVerified exactly if it holds there and the state is
      not Closing. */
  lemma ClientVerifiedExact(h: nat, c: nat, s: ClientState)
    ensures (forall calls :: PassedThrough(CLIENT, h, c, calls, ClientRung(s), ClientRung(ShVerified)))
            <==> ClientIdentityVerified(s) && s != Closing
  {
    hide PassedThrough;
    PassedExact(CLIENT, h, c, ClientRung(s), ClientRung(ShVerified));
  }

  /** `ClientHandshakeState::is_handshake_complete` */
  predicate ClientHandshakeComplete(s: ClientState) { s in {CfSent, Authorized, Messaging, Closing} }

  /** In every run that is in a state ClientFinished was sent exactly if it holds there and the state
      is not Closing. */
  lemma ClientCompleteExact(h: nat, c: nat, s: ClientState)
    ensures (forall calls :: PassedThrough(CLIENT, h, c, calls, ClientRung(s), ClientRung(CfSent)))
            <==> ClientHandshakeComplete(s) && s != Closing
  {
    hide PassedThrough;
    PassedExact(CLIENT, h, c, ClientRung(s), ClientRung(CfSent));
  }

  class ClientHandshakeMachine {
    var state: ClientState
    var deadline: Option<Instant>
    var handshakeTimeout: nat
    var closeTimeout: nat
    var serverHelloReceived: bool

    ghost function View(): Machine
      reads this
    {
      Machine(ClientRung(state), deadline, handshakeTimeout, closeTimeout,
              if serverHelloReceived then {ServerHelloMessage} else {})
    }

    constructor (handshakeTimeout: nat, closeTimeout: nat)
      ensures View() == Initial(handshakeTimeout, closeTimeout)
    {
      state, deadline := Idle, None;
      this.handshakeTimeout, this.closeTimeout := handshakeTimeout, closeTimeout;
      serverHelloReceived := false;
    }

    method TransitionTo(next: ClientState, now: Instant) returns (ok: bool)
      modifies this
      ensures Outcome(View(), ok) == Step(CLIENT, old(View()), Call.TransitionTo(ClientRung(next), now))
    {
      ClientLadder(state, next);
      if !ClientCanTransition(state, next) { return false; }
      match next {
        case Connecting => deadline := Some(now + handshakeTimeout);
        case ChSent => deadline := Some(now + handshakeTimeout);
        case Closing => deadline := Some(now + closeTimeout);
        case Closed => deadline := None;
        case _ =>
      }
      if next == ChSent { serverHelloReceived := false; }
      state := next;
      ok := true;
    }

    method OnServerHelloReceived() returns (ok: bool)
      modifies this
      ensures Outcome(View(), ok) == Step(CLIENT, old(View()), Receive(ServerHelloMessage))
    {
      if serverHelloReceived { return false; }
      serverHelloReceived := true;
      ok := true;
    }

    method Abort(now: Instant) returns (ok: bool)
      modifies this
      ensures Outcome(View(), ok) == Step(CLIENT, old(View()), Call.TransitionTo(CLOSED, now))
    {
      ok := TransitionTo(Closed, now);
    }

    method CheckTimeout(now: Instant) returns (ok: bool)
      ensures !ok <==> TimedOut(View(), now)
    {
      ok := deadline.None? || now <= deadline.value;
    }
  }

  // -------------------------------------------------------------------------- server

  datatype ServerState = Listening | TransportReady | ChVerified | ShSent | CfVerified | SAuthorized | SMessaging
                       | SClosing | SClosed

  function ServerRung(s: ServerState): nat {
    match s
    case Listening => 0 case TransportReady => 1 case ChVerified => 2 case ShSent => 3 case CfVerified => 4
    case SAuthorized => 5 case SMessaging => 6 case SClosing => 7 case SClosed => 8
  }

  /** `ServerHandshakeState::can_transition_to` */
  predicate ServerCanTransition(s: ServerState, next: ServerState) {
    match (s, next)
    case (Listening, TransportReady) => true
    case (TransportReady, ChVerified) => true
    case (ChVerified, ShSent) => true
    case (ShSent, CfVerified) => true
    case (CfVerified, SAuthorized) => true
    case (SAuthorized, SMessaging) => true
    case (SMessaging, SClosing) => true
    case (SClosing, SClosed) => true
    case (_, SClosing) => s in {TransportReady, ChVerified, ShSent, CfVerified, SAuthorized}
    case (_, SClosed) => s in {Listening, TransportReady, ChVerified, ShSent, CfVerified, SAuthorized, SMessaging}
    case _ => false
  }

  lemma ServerLadder(s: ServerState, next: ServerState)
    ensures ServerCanTransition(s, next) <==> CanMove(TOP, ServerRung(s), ServerRung(next))
  {}

  const SERVER: Profile := Profile({1, 3}, 1)

  /** The two states that start the handshake timer, and the one that forgets messages, by name. */
  lemma ServerTimersStart(m: Machine, next: ServerState, t: Instant)
    requires CanMove(TOP, m.rung, ServerRung(next))
    ensures var later := Step(SERVER, m, TransitionTo(ServerRung(next), t)).machine;
            && later.rung == ServerRung(next)
            && later.deadline == (if next == TransportReady || next == ShSent then Some(t + m.handshakeTimeout)
                                  else if next == SClosing then Some(t + m.closeTimeout)
                                  else if next == SClosed then None
                                  else m.deadline)
            && later.received == if next == TransportReady then {} else m.received
  {}

  /** A server that entered ShSent at `t` times out in every later working state exactly when more
      than its handshake timeout has passed. */
  lemma ServerTimesOutInMessaging(m: Machine, t: Instant, calls: seq<Call>, now: Instant)
    requires m.rung == ServerRung(ChVerified)
    ensures var sent := Step(SERVER, m, TransitionTo(ServerRung(ShSent), t)).machine;
            var later := After(SERVER, sent, calls);
            later.rung <= TOP ==> (TimedOut(later, now) <==> now > t + m.handshakeTimeout)
  {
    DeadlinePersists(SERVER, Step(SERVER, m, TransitionTo(ServerRung(ShSent), t)).machine, calls);
  }

  /** Any server that is not closed can be closed, and any that has started and is not closing can
      begin to. */
  lemma ServerCanAlwaysClose(s: ServerState)
    ensures ServerCanTransition(s, SClosed) <==> s != SClosed
    ensures ServerCanTransition(s, SClosing) <==> s !in {Listening, SClosing, SClosed}
    ensures ServerCanTransition(Listening, TransportReady) && ServerCanTransition(TransportReady, ChVerified)
    ensures ServerCanTransition(ChVerified, ShSent) && ServerCanTransition(ShSent, CfVerified)
    ensures ServerCanTransition(CfVerified, SAuthorized) && ServerCanTransition(SAuthorized, SMessaging)
  {}

  /** `ServerHandshakeState::is_identity_verified` */
  predicate ServerIdentityVerified(s: ServerState) {
    s in {ChVerified, ShSent, CfVerified, SAuthorized, SMessaging, SClosing}
  }

  /** Every run that is in a state went through ChVerified exactly if it holds there and the state is
      not Closing. */
  lemma ServerVerifiedExact(h: nat, c: nat, s: ServerState)
    ensures (forall calls :: PassedThrough(SERVER, h, c, calls, ServerRung(s), ServerRung(ChVerified)))
            <==> ServerIdentityVerified(s) && s != SClosing
  {
    hide PassedThrough;
    PassedExact(SERVER, h, c, ServerRung(s), ServerRung(ChVerified));
  }

  /** `ServerHandshakeState::is_handshake_complete` */
  predicate ServerHandshakeComplete(s: ServerState) { s in {CfVerified, SAuthorized, SMessaging, SClosing} }

  /** In every run that is in a state ClientFinished was verified exactly if it holds there and the
      state is not Closing. */
  lemma ServerCompleteExact(h: nat, c: nat, s: ServerState)
    ensures (forall calls :: PassedThrough(SERVER, h, c, calls, ServerRung(s), ServerRung(CfVerified)))
            <==> ServerHandshakeComplete(s) && s != SClosing
  {
    hide PassedThrough;
    PassedExact(SERVER, h, c, ServerRung(s), ServerRung(CfVerified));
  }

  class ServerHandshakeMachine {
    var state: ServerState
    var deadline: Option<Instant>
    var handshakeTimeout: nat
    var closeTimeout: nat
    var clientHelloReceived: bool
    var clientFinishedReceived: bool

    ghost function View(): Machine
      reads this
    {
      Machine(ServerRung(state), deadline, handshakeTimeout, closeTimeout,
              (if clientHelloReceived then {ClientHelloMessage} else {})
              + if clientFinishedReceived then {ClientFinishedMessage} else {})
    }

    constructor (handshakeTimeout: nat, closeTimeout: nat)
      ensures View() == Initial(handshakeTimeout, closeTimeout)
    {
      state, deadline := Listening, None;
      this.handshakeTimeout, this.closeTimeout := handshakeTimeout, closeTimeout;
      clientHelloReceived, clientFinishedReceived := false, false;
    }

    method TransitionTo(next: ServerState, now: Instant) returns (ok: bool)
      modifies this
      ensures Outcome(View(), ok) == Step(SERVER, old(View()), Call.TransitionTo(ServerRung(next), now))
    {
      ServerLadder(state, next);
      if !ServerCanTransition(state, next) { return false; }
      match next {
        case TransportReady => deadline := Some(now + handshakeTimeout);
        case ShSent => deadline := Some(now + handshakeTimeout);
        case SClosing => deadline := Some(now + closeTimeout);
        case SClosed => deadline := None;
        case _ =>
      }
      if next == TransportReady {
        clientHelloReceived := false;
        clientFinishedReceived := false;
      }
      state := next;
      ok := true;
    }

    method OnClientHelloReceived() returns (ok: bool)
      modifies this
      ensures Outcome(View(), ok) == Step(SERVER, old(View()), Receive(ClientHelloMessage))
    {
      if clientHelloReceived { return false; }
      clientHelloReceived := true;
      ok := true;
    }

    method OnClientFinishedReceived() returns (ok: bool)
      modifies this
      ensures Outcome(View(), ok) == Step(SERVER, old(View()), Receive(ClientFinishedMessage))
    {
      if clientFinishedReceived { return false; }
      clientFinishedReceived := true;
      ok := true;
    }

    method Abort(now: Instant) returns (ok: bool)
      modifies this
      ensures Outcome(View(), ok) == Step(SERVER, old(View()), Call.TransitionTo(CLOSED, now))
    {
      ok := TransitionTo(SClosed, now);
    }

    method CheckTimeout(now: Instant) returns (ok: bool)
      ensures !ok <==> TimedOut(View(), now)
    {
      ok := deadline.None? || now <= deadline.value;
    }
  }
}
