/** The session object: life-cycle state, peer identity, session id, authorization. An
    authorization context is the function it answers with. */
module Session {
  import opened Bytes
  import opened Transcript
  import opened Ladder
  import opened Wrappers

  type AgentId = Digest
  type SessionId = Digest
  type Context = string -> bool

  datatype Features = Features(protocolVersion: byte, extensions: seq<u16>)

  datatype State = Connecting | TransportEstablished | IdentityVerified | AuthorizationVerified | Authenticated
                 | MessagingEnabled | Closing | Closed

  const TOP: nat := 5

  function Rung(s: State): nat {
    match s
    case Connecting => 0 case TransportEstablished => 1 case IdentityVerified => 2 case AuthorizationVerified => 3
    case Authenticated => 4 case MessagingEnabled => 5 case Closing => 6 case Closed => 7
  }

  /** `SessionState::can_transition_to` */
  predicate CanTransition(s: State, next: State) {
    match (s, next)
    case (Connecting, TransportEstablished) => true
    case (TransportEstablished, IdentityVerified) => true
    case (IdentityVerified, AuthorizationVerified) => true
    case (AuthorizationVerified, Authenticated) => true
    case (Authenticated, MessagingEnabled) => true
    case (MessagingEnabled, Closing) => true
    case (Closing, Closed) => true
    case (_, Closing) => s in {TransportEstablished, IdentityVerified, AuthorizationVerified, Authenticated}
    case (_, Closed) =>
      s in {Connecting, TransportEstablished, IdentityVerified, AuthorizationVerified, Authenticated, MessagingEnabled}
    case _ => false
  }

  lemma SessionLadder(s: State, next: State)
    ensures CanTransition(s, next) <==> CanMove(TOP, Rung(s), Rung(next))
  {}

  datatype Fields = Fields(state: State, sessionId: Option<SessionId>, peer: Option<AgentId>,
                           features: Option<Features>, handle: Option<nat>, context: Option<Context>,
                           lastActivity: nat)

  /** The public operations that change a session. Transport handles are numbered. */
  datatype Call =
    | OnTransportEstablished(handle: nat, features: Features)
    | OnIdentityVerified(peer: AgentId, sessionId: SessionId)
    | OnAuthorizationVerified(context: Context)
    | OnAuthenticated
    | OnMessagingEnabled
    | BeginClose
    | Close
    | Touch

  function Target(call: Call): State
    requires !call.Touch?
  {
    match call
    case OnTransportEstablished(_, _) => TransportEstablished
    case OnIdentityVerified(_, _) => IdentityVerified
    case OnAuthorizationVerified(_) => AuthorizationVerified
    case OnAuthenticated => Authenticated
    case OnMessagingEnabled => MessagingEnabled
    case BeginClose => Closing
    case Close => Closed
  }

  predicate Succeeds(f: Fields, call: Call) { call.Touch? || CanTransition(f.state, Target(call)) }

  /** The session after a call made at `now`; a refused call leaves it alone. */
  function Step(f: Fields, call: Call, now: nat): Fields {
    if !Succeeds(f, call) then f
    else if call.Touch? then f.(lastActivity := now)
    else
      var g := f.(state := Target(call));
      match call
      case OnTransportEstablished(h, fs) => g.(handle := Some(h), features := Some(fs), lastActivity := now)
      case OnIdentityVerified(p, s) => g.(peer := Some(p), sessionId := Some(s), lastActivity := now)
      case OnAuthorizationVerified(c) => g.(context := Some(c), lastActivity := now)
      case Close => g
      case _ => g.(lastActivity := now)
  }

  datatype TimedCall = TimedCall(call: Call, now: nat)

  function Initial(now: nat): Fields { Fields(Connecting, None, None, None, None, None, now) }

  function After(f: Fields, calls: seq<TimedCall>): Fields {
    if calls == [] then f
    else Step(After(f, calls[..|calls| - 1]), calls[|calls| - 1].call, calls[|calls| - 1].now)
  }

  function Path(f: Fields, calls: seq<TimedCall>): seq<nat> {
    if calls == [] then [Rung(f.state)]
    else
      var n := |calls| - 1;
      var c := calls[n].call;
      Path(f, calls[..n]) + if !c.Touch? && Succeeds(After(f, calls[..n]), c) then [Rung(Target(c))] else []
  }

  predicate Consistent(f: Fields) {
    && (f.peer.Some? <==> f.sessionId.Some?)
    && (f.peer.Some? ==> Rung(f.state) >= 2)
    && (2 <= Rung(f.state) <= TOP ==> f.peer.Some?)
    && (f.context.Some? ==> f.peer.Some? && Rung(f.state) >= 3)
    && (3 <= Rung(f.state) <= TOP ==> f.context.Some?)
    && (f.features.Some? <==> f.handle.Some?)
    && (1 <= Rung(f.state) <= TOP ==> f.handle.Some?)
  }

  /** Peer id and session id come together and are there from IdentityVerified to
      MessagingEnabled; likewise the context from AuthorizationVerified and the transport
      from TransportEstablished. */
  lemma {:induction false} RunsConsistent(calls: seq<TimedCall>, now: nat)
    ensures Consistent(After(Initial(now), calls))
  {
    if calls != [] { RunsConsistent(calls[..|calls| - 1], now); }
  }

  /** Once known, the peer and the session id never change, whatever follows. */
  lemma {:induction false} IdentityFixed(f: Fields, calls: seq<TimedCall>)
    requires Consistent(f) && f.peer.Some?
    ensures Consistent(After(f, calls))
    ensures After(f, calls).peer == f.peer && After(f, calls).sessionId == f.sessionId
  {
    if calls != [] { IdentityFixed(f, calls[..|calls| - 1]); }
  }

  lemma {:induction false} PathClimbs(f: Fields, calls: seq<TimedCall>)
    requires f.state == Connecting
    ensures Climb(TOP, Path(f, calls)) && Path(f, calls)[|Path(f, calls)| - 1] == Rung(After(f, calls).state)
  {
    if calls != [] {
      var n := |calls| - 1;
      PathClimbs(f, calls[..n]);
      if !calls[n].call.Touch? { SessionLadder(After(f, calls[..n]).state, Target(calls[n].call)); }
      var before, now := Path(f, calls[..n]), Path(f, calls);
      assert forall i :: 0 <= i < |before| ==> now[i] == before[i];
    }
  }

  /** In every run at most seven moves, each forward, and messaging only after every earlier
      state in order, even if the session has closed since. */
  lemma RunsClimb(calls: seq<TimedCall>, now: nat)
    ensures var path := Path(Initial(now), calls);
            && |path| - 1 <= 7
            && (forall i, j :: 0 <= i < j < |path| ==> path[i] < path[j])
            && (TOP in path ==> |path| >= 6 && path[..6] == [0, 1, 2, 3, 4, 5])
  {
    PathClimbs(Initial(now), calls);
    var path := Path(Initial(now), calls);
    ClimbShape(TOP, path);
    if TOP in path { ReachedInOrder(TOP, path, TOP); }
  }

  /** `is_authorized` */
  predicate IsAuthorized(f: Fields, capability: string) { f.context.Some? && f.context.value(capability) }

  /** A capability is authorized only if a context granting it was installed by an earlier
      successful step, in a session whose peer was already verified. */
  lemma {:induction false} AuthorizedMeansGranted(calls: seq<TimedCall>, now: nat, capability: string) returns (i: nat)
    requires IsAuthorized(After(Initial(now), calls), capability)
    ensures i < |calls| && calls[i].call.OnAuthorizationVerified? && calls[i].call.context(capability)
    ensures Succeeds(After(Initial(now), calls[..i]), calls[i].call)
    ensures After(Initial(now), calls[..i]).peer.Some?
  {
    var n := |calls| - 1;
    var before := After(Initial(now), calls[..n]);
    if calls[n].call.OnAuthorizationVerified? && Succeeds(before, calls[n].call) {
      RunsConsistent(calls[..n], now);
      i := n;
    } else {
      i := AuthorizedMeansGranted(calls[..n], now, capability);
      assert calls[..n][..i] == calls[..i];
    }
  }

  /** Once installed, the context never changes. */
  lemma {:induction false} ContextFixed(f: Fields, calls: seq<TimedCall>)
    requires Consistent(f) && f.context.Some?
    ensures Consistent(After(f, calls)) && After(f, calls).context == f.context
  {
    if calls != [] { ContextFixed(f, calls[..|calls| - 1]); }
  }

  /** From the step that installs it, whatever follows, a capability is authorized exactly if the
      context grants it. */
  lemma GrantIsEffective(f: Fields, c: Context, now: nat, calls: seq<TimedCall>, capability: string)
    requires Consistent(f) && Succeeds(f, OnAuthorizationVerified(c))
    ensures IsAuthorized(After(Step(f, OnAuthorizationVerified(c), now), calls), capability) <==> c(capability)
  {
    ContextFixed(Step(f, OnAuthorizationVerified(c), now), calls);
  }

  /** Whose identity it is: a known peer and session id were handed over together by an earlier
      successful step. */
  lemma {:induction false} IdentityMeansVerified(calls: seq<TimedCall>, now: nat) returns (i: nat)
    requires After(Initial(now), calls).peer.Some?
    ensures i < |calls| && Succeeds(After(Initial(now), calls[..i]), calls[i].call)
    ensures var f := After(Initial(now), calls);
            f.sessionId.Some? && calls[i].call == OnIdentityVerified(f.peer.value, f.sessionId.value)
  {
    var n := |calls| - 1;
    var before := After(Initial(now), calls[..n]);
    if calls[n].call.OnIdentityVerified? && Succeeds(before, calls[n].call) {
      i := n;
    } else {
      i := IdentityMeansVerified(calls[..n], now);
      assert calls[..n][..i] == calls[..i];
    }
  }

  /** So were the transport handle and the negotiated features. */
  lemma {:induction false} TransportMeansEstablished(calls: seq<TimedCall>, now: nat) returns (i: nat)
    requires After(Initial(now), calls).handle.Some?
    ensures i < |calls| && Succeeds(After(Initial(now), calls[..i]), calls[i].call)
    ensures var f := After(Initial(now), calls);
            f.features.Some? && calls[i].call == OnTransportEstablished(f.handle.value, f.features.value)
  {
    var n := |calls| - 1;
    var before := After(Initial(now), calls[..n]);
    if calls[n].call.OnTransportEstablished? && Succeeds(before, calls[n].call) {
      i := n;
    } else {
      i := TransportMeansEstablished(calls[..n], now);
      assert calls[..n][..i] == calls[..i];
    }
  }

  /** The call that leads to a state. */
  predicate LeadsTo(call: Call, s: State) {
    match s
    case Connecting => false
    case TransportEstablished => call.OnTransportEstablished?
    case IdentityVerified => call.OnIdentityVerified?
    case AuthorizationVerified => call.OnAuthorizationVerified?
    case Authenticated => call.OnAuthenticated?
    case MessagingEnabled => call.OnMessagingEnabled?
    case Closing => call.BeginClose?
    case Closed => call.Close?
  }

  /** Every state but the first was entered by the call of its name, and only touches and refused
      calls came after. */
  lemma {:induction false} StateMeansCall(calls: seq<TimedCall>, now: nat) returns (i: nat)
    requires After(Initial(now), calls).state != Connecting
    ensures i < |calls| && Succeeds(After(Initial(now), calls[..i]), calls[i].call)
    ensures LeadsTo(calls[i].call, After(Initial(now), calls).state)
    ensures forall j :: i < j < |calls| ==>
              calls[j].call.Touch? || !Succeeds(After(Initial(now), calls[..j]), calls[j].call)
  {
    var n := |calls| - 1;
    var before := After(Initial(now), calls[..n]);
    if !calls[n].call.Touch? && Succeeds(before, calls[n].call) {
      i := n;
    } else {
      i := StateMeansCall(calls[..n], now);
      forall j | i < j < n ensures calls[j].call.Touch? || !Succeeds(After(Initial(now), calls[..j]), calls[j].call) {
        assert calls[..n][..j] == calls[..j] && calls[..n][j] == calls[j];
      }
      assert calls[..n][..i] == calls[..i];
    }
  }

  /** Time of the last successful call that was not a close, or of creation. */
  function LastActive(calls: seq<TimedCall>, now: nat): nat {
    if calls == [] then now
    else
      var n := |calls| - 1;
      if !calls[n].call.Close? && Succeeds(After(Initial(now), calls[..n]), calls[n].call) then calls[n].now
      else LastActive(calls[..n], now)
  }

  lemma {:induction false} ActivityIsLast(calls: seq<TimedCall>, now: nat)
    ensures After(Initial(now), calls).lastActivity == LastActive(calls, now)
  {
    if calls != [] { ActivityIsLast(calls[..|calls| - 1], now); }
  }

  /** The calls in order lead a new session to messaging. */
  lemma {:induction false} OrderedCallsSucceed(h: nat, fs: Features, p: AgentId, s: SessionId, c: Context, t: nat)
    ensures var f1 := Step(Initial(t), OnTransportEstablished(h, fs), t);
            var f2 := Step(f1, OnIdentityVerified(p, s), t);
            var f3 := Step(f2, OnAuthorizationVerified(c), t);
            var f4 := Step(Step(f3, OnAuthenticated, t), OnMessagingEnabled, t);
            f4 == Fields(MessagingEnabled, Some(s), Some(p), Some(fs), Some(h), Some(c), t)
  {}

  /** Any session that is not closed can be closed, and any that has started and is not closing can
      begin to. */
  lemma ClosingAlwaysPossible(s: State)
    ensures CanTransition(s, Closed) <==> s != Closed
    ensures CanTransition(s, Closing) <==> s !in {Connecting, Closing, Closed}
  {}

  /** After an early abort `is_identity_verified` holds with no peer known. */
  predicate IsIdentityVerified(s: State) { !(s.Connecting? || s.TransportEstablished?) }

  lemma VerifiedIsNoEvidence(now: nat)
    ensures var f := After(Initial(now), [TimedCall(Close, now)]);
            IsIdentityVerified(f.state) && f.peer.None?
  {
    assert [TimedCall(Close, now)][..0] == [];
    assert After(Initial(now), []) == Initial(now);
    assert After(Initial(now), [TimedCall(Close, now)]) == Step(Initial(now), Close, now);
  }

  const EARLY_CLOSE: seq<TimedCall> :=
    [TimedCall(OnTransportEstablished(0, Features(0, [])), 0), TimedCall(BeginClose, 0)]

  /** A session closed before the peer was verified is in Closing and knows nothing of it. */
  lemma {:induction false} EarlyClose()
    ensures var f := After(Initial(0), EARLY_CLOSE[..1]);
            f.state == TransportEstablished && f.peer.None?
    ensures var f := After(Initial(0), EARLY_CLOSE);
            f.state == Closing && f.peer.None? && f.sessionId.None? && f.context.None?
  {
    var established := EARLY_CLOSE[..1];
    assert established[..0] == [] && established[0] == EARLY_CLOSE[0];
    assert After(Initial(0), established).state == TransportEstablished;
  }

  predicate PeerKnownIn(s: State, calls: seq<TimedCall>, now: nat) {
    var f := After(Initial(now), calls);
    f.state == s ==> f.peer.Some?
  }

  /** A peer is known in every run that is in a state exactly if `is_identity_verified` holds there
      and the state is neither Closing nor Closed. */
  lemma {:induction false} VerifiedExact(s: State)
    ensures (forall calls, now :: PeerKnownIn(s, calls, now)) <==>
            IsIdentityVerified(s) && !(s.Closing? || s.Closed?)
  {
    if s.Connecting? {
      assert After(Initial(0), []) == Initial(0);
      assert !PeerKnownIn(s, [], 0);
    } else if s.TransportEstablished? {
      EarlyClose();
      assert !PeerKnownIn(s, EARLY_CLOSE[..1], 0);
    } else if s.Closed? {
      VerifiedIsNoEvidence(0);
      assert !PeerKnownIn(s, [TimedCall(Close, 0)], 0);
    } else if s.Closing? {
      EarlyClose();
      assert !PeerKnownIn(s, EARLY_CLOSE, 0);
    } else {
      forall calls, now ensures PeerKnownIn(s, calls, now) {
        RunsConsistent(calls, now);
      }
    }
  }

  /** `is_authenticated` */
  predicate IsAuthenticated(s: State) { s.Authenticated? || s.MessagingEnabled? || s.Closing? }

  predicate GrantedIn(s: State, calls: seq<TimedCall>, now: nat) {
    var f := After(Initial(now), calls);
    f.state == s ==> f.peer.Some? && f.sessionId.Some? && f.context.Some?
  }

  /** `is_authenticated` is evidence of a known peer, a session id and an authorization context
      exactly outside Closing. */
  lemma {:induction false} AuthenticatedExact(s: State)
    requires IsAuthenticated(s)
    ensures (forall calls, now :: GrantedIn(s, calls, now)) <==> !s.Closing?
  {
    if s.Closing? {
      EarlyClose();
      assert !GrantedIn(s, EARLY_CLOSE, 0);
    } else {
      forall calls, now ensures GrantedIn(s, calls, now) {
        RunsConsistent(calls, now);
      }
    }
  }

  predicate PassedAuthenticated(s: State, calls: seq<TimedCall>, now: nat) {
    After(Initial(now), calls).state == s ==> Rung(Authenticated) in Path(Initial(now), calls)
  }

  /** The first `n` calls of a session that goes all the way. */
  function Straight(n: nat): seq<TimedCall>
    requires n <= 5
  {
    [TimedCall(OnTransportEstablished(0, Features(0, [])), 0),
     TimedCall(OnIdentityVerified(seq(32, _ => 0), seq(32, _ => 0)), 0),
     TimedCall(OnAuthorizationVerified(_ => false), 0), TimedCall(OnAuthenticated, 0),
     TimedCall(OnMessagingEnabled, 0)][..n]
  }

  lemma {:induction false} StraightPath(n: nat)
    requires n <= 5
    ensures Rung(After(Initial(0), Straight(n)).state) == n
    ensures Path(Initial(0), Straight(n)) == seq(n + 1, i => i)
  {
    var calls := Straight(n);
    if n > 0 {
      StraightPath(n - 1);
      assert calls[..n - 1] == Straight(n - 1);
      assert Path(Initial(0), calls) == seq(n, i => i) + [n];
    } else {
      assert calls == [];
    }
  }

  /** Every run that is in a state has been authenticated exactly if `is_authenticated` holds there
      and the state is not Closing. */
  lemma {:induction false} AuthenticatedPassed(s: State)
    ensures (forall calls, now :: PassedAuthenticated(s, calls, now)) <==> IsAuthenticated(s) && !s.Closing?
  {
    if s.Closing? {
      EarlyClosePath();
      assert !PassedAuthenticated(s, EARLY_CLOSE, 0);
    } else if s.Closed? {
      ClosedPath();
      assert !PassedAuthenticated(s, [TimedCall(Close, 0)], 0);
    } else if Rung(s) < Rung(Authenticated) {
      StraightPath(Rung(s));
      assert !PassedAuthenticated(s, Straight(Rung(s)), 0);
    } else {
      forall calls, now ensures PassedAuthenticated(s, calls, now) {
        PathClimbs(Initial(now), calls);
        var path := Path(Initial(now), calls);
        if path[|path| - 1] == Rung(s) {
          ReachedInOrder(TOP, path, Rung(s));
          assert path[4] == 4;
        }
      }
    }
  }

  lemma {:induction false} EarlyClosePath()
    ensures After(Initial(0), EARLY_CLOSE).state == Closing && Path(Initial(0), EARLY_CLOSE) == [0, 1, 6]
  {
    EarlyClose();
    StraightPath(1);
    assert Straight(1) == EARLY_CLOSE[..1];
    assert Path(Initial(0), EARLY_CLOSE) == Path(Initial(0), EARLY_CLOSE[..1]) + [6];
  }

  lemma {:induction false} ClosedPath()
    ensures After(Initial(0), [TimedCall(Close, 0)]).state == Closed
    ensures Path(Initial(0), [TimedCall(Close, 0)]) == [0, 7]
  {
    var calls := [TimedCall(Close, 0)];
    assert calls[..0] == [] && Path(Initial(0), []) == [0] && After(Initial(0), []) == Initial(0);
    assert Path(Initial(0), calls) == [0] + [7];
  }

  // --------------------------------------------------------------------------- class

  class SessionObject {
    var state: State
    var sessionId: Option<SessionId>
    var peer: Option<AgentId>
    var features: Option<Features>
    var handle: Option<nat>
    var context: Option<Context>
    var lastActivity: nat

    ghost function View(): Fields
      reads this
    {
      Fields(state, sessionId, peer, features, handle, context, lastActivity)
    }

    constructor (now: nat)
      ensures View() == Initial(now)
    {
      state, sessionId, peer, features := Connecting, None, None, None;
      handle, context, lastActivity := None, None, now;
    }

    /** `transition_to` */
    method TransitionTo(next: State) returns (ok: bool)
      modifies this`state
      ensures ok == CanTransition(old(state), next)
      ensures state == if ok then next else old(state)
    {
      if !CanTransition(state, next) { return false; }
      state := next;
      ok := true;
    }

    method Touch(now: nat)
      modifies this`lastActivity
      ensures View() == Step(old(View()), Call.Touch, now)
    {
      lastActivity := now;
    }

    method OnTransportEstablished(h: nat, fs: Features, now: nat) returns (ok: bool)
      modifies this
      ensures ok == Succeeds(old(View()), Call.OnTransportEstablished(h, fs))
      ensures View() == Step(old(View()), Call.OnTransportEstablished(h, fs), now)
    {
      ok := TransitionTo(TransportEstablished);
      if !ok { return; }
      handle := Some(h);
      features := Some(fs);
      Touch(now);
    }

    method OnIdentityVerified(p: AgentId, s: SessionId, now: nat) returns (ok: bool)
      modifies this
      ensures ok == Succeeds(old(View()), Call.OnIdentityVerified(p, s))
      ensures View() == Step(old(View()), Call.OnIdentityVerified(p, s), now)
    {
      ok := TransitionTo(IdentityVerified);
      if !ok { return; }
      peer := Some(p);
      sessionId := Some(s);
      Touch(now);
    }

    method OnAuthorizationVerified(c: Context, now: nat) returns (ok: bool)
      modifies this
      ensures ok == Succeeds(old(View()), Call.OnAuthorizationVerified(c))
      ensures View() == Step(old(View()), Call.OnAuthorizationVerified(c), now)
    {
      ok := TransitionTo(AuthorizationVerified);
      if !ok { return; }
      context := Some(c);
      Touch(now);
    }

    method OnAuthenticated(now: nat) returns (ok: bool)
      modifies this
      ensures ok == Succeeds(old(View()), Call.OnAuthenticated)
      ensures View() == Step(old(View()), Call.OnAuthenticated, now)
    {
      ok := TransitionTo(Authenticated);
      if ok { Touch(now); }
    }

    method OnMessagingEnabled(now: nat) returns (ok: bool)
      modifies this
      ensures ok == Succeeds(old(View()), Call.OnMessagingEnabled)
      ensures View() == Step(old(View()), Call.OnMessagingEnabled, now)
    {
      ok := TransitionTo(MessagingEnabled);
      if ok { Touch(now); }
    }

    method BeginClose(now: nat) returns (ok: bool)
      modifies this
      ensures ok == Succeeds(old(View()), Call.BeginClose)
      ensures View() == Step(old(View()), Call.BeginClose, now)
    {
      ok := TransitionTo(Closing);
      if ok { Touch(now); }
    }

    /** Closing for good does not count as activity. */
    method Close() returns (ok: bool)
      modifies this
      ensures ok == Succeeds(old(View()), Call.Close)
      ensures forall now :: View() == Step(old(View()), Call.Close, now)
    {
      ok := TransitionTo(Closed);
    }
  }
}
