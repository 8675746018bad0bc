/** The handshake as the SDK drives it. It differs from the order of `handshake_v1` in two
    ways: ClientFinished is signed over the transcript that ends with ServerHello, and the
    client takes the session id from ServerHello without deriving it. Each end also asks its
    replay cache about the other's nonce; the cache is the function it answers with. */
module HandshakeDriver {
  import opened Bytes
  import opened CborEncode
  import opened Transcript
  import opened HandshakeMessages
  import opened HandshakeRun
  import opened Wrappers

  datatype DriverError = Failed(cause: HandshakeError) | NonceReused
  type DriverResult<T> = Result<T, DriverError>

  /** The answer of `ReplayCache::check` for an agent id and a nonce. */
  type Cache = (bytes, Digest) -> bool

  function Lift<T>(r: HandshakeResult<T>): DriverResult<T> {
    if r.Ok? then Ok(r.value) else Err(Failed(r.error))
  }

  function Hellos(ch: ClientHello, sh: ServerHello): seq<bytes> { [ClientHelloSigned(ch), ServerHelloSigned(sh)] }

  /** A client after its last message. */
  datatype ClientDone = ClientDone(peer: Digest, session: Digest, transcript: Digest, finished: ClientFinished)

  /** `drive_client_handshake` from the ServerHello octets on. */
  function ClientReceives(c: Crypto, a: Agent, binding: Digest, ch: ClientHello, octets: bytes, now: u64,
                          seen: Cache): DriverResult<ClientDone>
  {
    var sh :- Lift(ReceiveServerHello(octets));
    if seen(sh.agentId, sh.nonce) then Err(NonceReused)
    else
      var h := TranscriptOf(c.sha, binding, Hellos(ch, sh));
      var peer :- Lift(VerifyServerHello(c, sh, h, now));
      Ok(ClientDone(peer.0, peer.1, h, ClientFinished(peer.1, a.sign(SignatureInput(h)))))
  }

  /** A server after its reply. */
  datatype ServerHalf = ServerHalf(peer: Digest, ch: ClientHello, sh: ServerHello)

  /** `drive_server_handshake` up to its reply. */
  function ServerReceives(c: Crypto, a: Agent, binding: Digest, o: Offer, octets: bytes, now: u64,
                          seen: Cache): DriverResult<ServerHalf>
  {
    var ch :- Lift(ReceiveClientHello(octets));
    if seen(ch.agentId, ch.nonce) then Err(NonceReused)
    else
      var peer :- Lift(VerifyClientHello(c, ch, TranscriptOf(c.sha, binding, [ClientHelloSigned(ch)]), now));
      Ok(ServerHalf(peer, ch, Reply(c, a, binding, o, ch)))
  }

  datatype ServerDone = ServerDone(peer: Digest, session: Digest, transcript: Digest)

  /** `drive_server_handshake` from the ClientFinished octets on. */
  function ServerFinishes(c: Crypto, binding: Digest, half: ServerHalf, octets: bytes): DriverResult<ServerDone> {
    var cf :- Lift(ReceiveClientFinished(octets));
    var h := TranscriptOf(c.sha, binding, Hellos(half.ch, half.sh));
    var _ :- Lift(VerifyClientFinished(c, cf, h, half.ch.publicKey, half.sh.sessionId));
    Ok(ServerDone(half.peer, half.sh.sessionId, h))
  }

  /** A whole handshake over the wire. */
  function DriveHandshake(c: Crypto, client: Agent, server: Agent, binding: Digest, co: Offer, so: Offer,
                          serverNow: u64, clientNow: u64, serverSeen: Cache, clientSeen: Cache)
    : DriverResult<(ClientDone, ServerDone)>
  {
    var ch := OpenHandshake(c, client, binding, co);
    var half :- ServerReceives(c, server, binding, so, ClientHelloWire(ch), serverNow, serverSeen);
    var clientDone :- ClientReceives(c, client, binding, ch, ServerHelloWire(half.sh), clientNow, clientSeen);
    var serverDone :- ServerFinishes(c, binding, half, ClientFinishedWire(clientDone.finished));
    Ok((clientDone, serverDone))
  }

  // ------------------------------------------------------------- when each step succeeds

  /** The driver's server answers if and only if the octets are a ClientHello with a nonce its
      cache has not seen, version 1, algorithm 1, an id that hashes the key, a signature over
      the transcript that ends with it, and an identity that has not expired. */
  lemma {:induction false} ServerReceivesExact(c: Crypto, a: Agent, binding: Digest, o: Offer, octets: bytes, now: u64,
                                               seen: Cache)
    ensures var got := ReceiveClientHello(octets);
            var r := ServerReceives(c, a, binding, o, octets, now, seen);
            && (r.Ok? <==>
                && got.Ok? && !seen(got.value.agentId, got.value.nonce)
                && got.value.protocolVersion == 1 && got.value.keyAlgorithm == 1
                && Authentic(c, got.value.agentId, got.value.publicKey, got.value.signature, got.value.expiresAt,
                             TranscriptOf(c.sha, binding, [ClientHelloSigned(got.value)]), now))
            && (r.Ok? ==> r.value == ServerHalf(got.value.agentId, got.value, Reply(c, a, binding, o, got.value)))
            && (r == Err(NonceReused) <==> got.Ok? && seen(got.value.agentId, got.value.nonce))
  {
    hide ReceiveClientHello, TranscriptOf, Encode, Reply, SignatureInput;
  }

  /** The driver's client goes on if and only if the octets are a ServerHello of which the same
      holds, over the transcript of both hellos. */
  lemma {:induction false} ClientReceivesExact(c: Crypto, a: Agent, binding: Digest, ch: ClientHello, octets: bytes,
                                               now: u64, seen: Cache)
    ensures var got := ReceiveServerHello(octets);
            var r := ClientReceives(c, a, binding, ch, octets, now, seen);
            && (r.Ok? <==>
                && got.Ok? && !seen(got.value.agentId, got.value.nonce)
                && got.value.protocolVersion == 1 && got.value.keyAlgorithm == 1
                && Authentic(c, got.value.agentId, got.value.publicKey, got.value.signature, got.value.expiresAt,
                             TranscriptOf(c.sha, binding, Hellos(ch, got.value)), now))
            && (r.Ok? ==>
                && r.value.peer == got.value.agentId && r.value.session == got.value.sessionId
                && r.value.transcript == TranscriptOf(c.sha, binding, Hellos(ch, got.value))
                && r.value.finished == DriverFinish(c, a, binding, ch, got.value))
            && (r == Err(NonceReused) <==> got.Ok? && seen(got.value.agentId, got.value.nonce))
  {
    hide ReceiveServerHello, TranscriptOf, Encode, SignatureInput;
  }

  /** The driver's server completes if and only if the octets are a ClientFinished with its session
      id and a signature by the peer's key over the transcript of both hellos. */
  lemma {:induction false} ServerFinishesExact(c: Crypto, binding: Digest, half: ServerHalf, octets: bytes)
    ensures var got := ReceiveClientFinished(octets);
            var h := TranscriptOf(c.sha, binding, Hellos(half.ch, half.sh));
            var r := ServerFinishes(c, binding, half, octets);
            && (r.Ok? <==>
                && got.Ok? && got.value.sessionId == half.sh.sessionId && c.validKey(half.ch.publicKey)
                && |got.value.signature| == 3309
                && c.verify(half.ch.publicKey, SignatureInput(h), got.value.signature))
            && (r.Ok? ==> r.value == ServerDone(half.peer, half.sh.sessionId, h))
  {
    hide ReceiveClientFinished, TranscriptOf, Encode, SignatureInput;
  }

  // ------------------------------------------------------------------- honest ends

  /** Two honest ends: signing is correct, identities are current, what they offer can be sent. */
  ghost predicate HonestEnds(c: Crypto, client: Agent, server: Agent, co: Offer, so: Offer,
                             serverNow: u64, clientNow: u64)
  {
    && Correct(c, client) && Correct(c, server)
    && serverNow < co.expiresAt && clientNow < so.expiresAt
    && GoodValues(co.capabilities) && GoodValues(co.extensions)
    && GoodValues(so.capabilities) && GoodValues(so.extensions)
  }

  lemma {:induction false} ServerAnswers(c: Crypto, client: Agent, server: Agent, binding: Digest, co: Offer, so: Offer,
                                         now: u64, seen: Cache)
    requires Correct(c, client) && now < co.expiresAt && GoodValues(co.capabilities) && GoodValues(co.extensions)
    requires |ClientHelloWire(OpenHandshake(c, client, binding, co))| < TWO_64
    ensures var ch := OpenHandshake(c, client, binding, co);
            var r := ServerReceives(c, server, binding, so, ClientHelloWire(ch), now, seen);
            if seen(c.sha(client.publicKey), co.nonce) then r == Err(NonceReused)
            else r == Ok(ServerHalf(c.sha(client.publicKey), CanonClientHello(ch),
                                    Reply(c, server, binding, so, CanonClientHello(ch))))
  {
    hide GoodValues, ReceiveClientHello, TranscriptOf, Encode, CanonAll, SignatureInput, Reply;
    var ch := OpenHandshake(c, client, binding, co);
    assert ClientHelloWire(ch) + [] == ClientHelloWire(ch);
    ClientHelloSurvives(ch, []);
  }

  /** The client accepts whatever session id the server signed. */
  lemma {:induction false} ClientTakesSessionId(c: Crypto, a: Agent, server: Agent, binding: Digest, so: Offer,
                                                ch: ClientHello, gotCh: ClientHello, s: Digest, now: u64, seen: Cache)
    requires Correct(c, server) && now < so.expiresAt && GoodValues(so.capabilities) && GoodValues(so.extensions)
    requires ClientHelloSigned(gotCh) == ClientHelloSigned(ch)
    requires |ServerHelloWire(ReplyWith(c, server, binding, so, gotCh, s))| < TWO_64
    ensures var sh := ReplyWith(c, server, binding, so, gotCh, s);
            var h := TranscriptOf(c.sha, binding, Hellos(ch, sh));
            var r := ClientReceives(c, a, binding, ch, ServerHelloWire(sh), now, seen);
            if seen(c.sha(server.publicKey), so.nonce) then r == Err(NonceReused)
            else r == Ok(ClientDone(c.sha(server.publicKey), s, h, ClientFinished(s, a.sign(SignatureInput(h)))))
  {
    hide GoodValues, ReceiveServerHello, TranscriptOf, Encode, CanonAll, SignatureInput;
    var sh := ReplyWith(c, server, binding, so, gotCh, s);
    assert ServerHelloWire(sh) + [] == ServerHelloWire(sh);
    ServerHelloSurvives(sh, []);
  }

  /** Honest ends with one binding complete exactly if neither cache has seen the other's
      nonce; they then agree on transcript and session id and know each other. */
  lemma {:induction false} DrivenHandshake(c: Crypto, client: Agent, server: Agent, binding: Digest,
                                           co: Offer, so: Offer, serverNow: u64, clientNow: u64,
                                           serverSeen: Cache, clientSeen: Cache)
    requires HonestEnds(c, client, server, co, so, serverNow, clientNow)
    requires Sendable(c, client, server, binding, co, so)
    ensures var r := DriveHandshake(c, client, server, binding, co, so, serverNow, clientNow, serverSeen, clientSeen);
            if serverSeen(c.sha(client.publicKey), co.nonce) || clientSeen(c.sha(server.publicKey), so.nonce)
            then r == Err(NonceReused)
            else
              && r.Ok?
              && r.value.0.transcript == r.value.1.transcript
              && r.value.0.session == r.value.1.session
              && r.value.0.peer == c.sha(server.publicKey)
              && r.value.1.peer == c.sha(client.publicKey)
              && var ch := OpenHandshake(c, client, binding, co);
                 && r.value.0.session == DeriveSessionId(c, c.sha(c.sha(binding) + ClientHelloSigned(ch)),
                                                         co.nonce, so.nonce, c.sha(server.publicKey))
                 && r.value.0.transcript ==
                    TranscriptOf(c.sha, binding, Hellos(ch, Reply(c, server, binding, so, CanonClientHello(ch))))
  {
    hide GoodValues, ReceiveClientFinished, TranscriptOf, Encode, CanonAll, SignatureInput, ClientReceives,
         ServerReceives;
    var ch := OpenHandshake(c, client, binding, co);
    var gotCh := CanonClientHello(ch);
    ServerAnswers(c, client, server, binding, co, so, serverNow, serverSeen);
    if !serverSeen(c.sha(client.publicKey), co.nonce) {
      SignedAgain(ch);
      TranscriptSpelled(c.sha, binding, ClientHelloSigned(ch), [], []);
      var id := c.sha(server.publicKey);
      var s := DeriveSessionId(c, TranscriptOf(c.sha, binding, [ClientHelloSigned(gotCh)]), gotCh.nonce, so.nonce, id);
      ClientTakesSessionId(c, client, server, binding, so, ch, gotCh, s, clientNow, clientSeen);
      var sh := ReplyWith(c, server, binding, so, gotCh, s);
      var cf := DriverFinish(c, client, binding, ch, sh);
      assert ClientFinishedWire(cf) + [] == ClientFinishedWire(cf);
      ClientFinishedSurvives(cf, []);
    }
  }

  lemma SignedAgain(ch: ClientHello)
    ensures ClientHelloSigned(CanonClientHello(ch)) == ClientHelloSigned(ch)
  {
    hide Canon, Encode, CanonAll;
    CanonArrayAgain(ch.capabilities);
    CanonArrayAgain(ch.extensions);
    SameFieldsSameOctets(ClientHelloUnsignedFields(CanonClientHello(ch)), ClientHelloUnsignedFields(ch));
  }

  /** The client's last message, in the driver's order. */
  function DriverFinish(c: Crypto, a: Agent, binding: Digest, ch: ClientHello, sh: ServerHello): ClientFinished {
    ClientFinished(sh.sessionId, a.sign(SignatureInput(TranscriptOf(c.sha, binding, Hellos(ch, sh)))))
  }

  /** The messages of a run fit a 64-bit address space. */
  predicate Sendable(c: Crypto, client: Agent, server: Agent, binding: Digest, co: Offer, so: Offer) {
    var ch := OpenHandshake(c, client, binding, co);
    var sh := Reply(c, server, binding, so, CanonClientHello(ch));
    |ClientHelloWire(ch)| < TWO_64 && |ServerHelloWire(sh)| < TWO_64 &&
    |ClientFinishedWire(DriverFinish(c, client, binding, ch, sh))| < TWO_64
  }

  // -------------------------------------------------------- what is signed at which step

  /** In the driver's order the server's reply and the client's last message are signed over the
      same octets. */
  lemma OneInputTwice(c: Crypto, client: Agent, server: Agent, binding: Digest, so: Offer,
                      ch: ClientHello, gotCh: ClientHello, s: Digest)
    requires ClientHelloSigned(gotCh) == ClientHelloSigned(ch)
    ensures var sh := ReplyWith(c, server, binding, so, gotCh, s);
            var input := SignatureInput(TranscriptOf(c.sha, binding, Hellos(ch, sh)));
            && sh.signature == server.sign(input)
            && DriverFinish(c, client, binding, ch, sh).signature == client.sign(input)
  {
    hide TranscriptOf, Encode, SignatureInput;
    var sh := ReplyWith(c, server, binding, so, gotCh, s);
    assert ServerHelloSigned(sh) == ServerHelloSigned(sh.(signature := []));
  }

  /** In the order of `handshake_v1` they are not, unless the two runs collide. */
  lemma TwoInputs(c: Crypto, binding: Digest, ch: ClientHello, sh: ServerHello, cf: ClientFinished)
    requires SignatureInput(TranscriptOf(c.sha, binding, Hellos(ch, sh)))
          == SignatureInput(TranscriptOf(c.sha, binding, SignedThree(ch, sh, cf)))
    ensures RunsCollide(c.sha, binding, Hellos(ch, sh), binding, SignedThree(ch, sh, cf))
  {
    hide TranscriptOf, SignatureInput, RunsCollide, Canon;
    StepsNeverCoincide(c.sha, binding, Hellos(ch, sh), binding, SignedThree(ch, sh, cf));
  }
}
