/** Verification of the three messages, and whole handshakes over the wire. The cryptography
    is abstract: a hash, a key derivation, a MAC and a signature check. */
module HandshakeRun {
  import opened Bytes
  import opened CborValue
  import opened CborEncode
  import opened Transcript
  import opened HandshakeMessages
  import opened Wrappers

  const PROTOCOL_VERSION: u64 := 1
  const KEY_ALG_ML_DSA_65: u64 := 1
  const ML_DSA_65_SIGNATURE_LEN: nat := 3309
  const AGENT_ID_SIZE: nat := 32

  /** "aafp-session-id-v1" */
  const SESSION_ID_INFO: bytes :=
    [97, 97, 102, 112, 45, 115, 101, 115, 115, 105, 111, 110, 45, 105, 100, 45, 118, 49]

  /** "aafp-v1-dos-mac-key" */
  const DOS_MAC_KEY_INFO: bytes :=
    [97, 97, 102, 112, 45, 118, 49, 45, 100, 111, 115, 45, 109, 97, 99, 45, 107, 101, 121]

  /** `hkdf` and `hmac` yield 32 octets; `validKey` says which octets are a public key. */
  datatype Crypto = Crypto(
    sha: bytes -> Digest,
    hkdf: (bytes, bytes, bytes) -> Digest,
    hmac: (bytes, bytes) -> Digest,
    validKey: bytes -> bool,
    verify: (bytes, bytes, bytes) -> bool)

  /** An agent: its public key and what it signs with. */
  datatype Agent = Agent(publicKey: bytes, sign: bytes -> bytes)

  /** Signing is correct: signatures have their length and verify. */
  ghost predicate Correct(c: Crypto, a: Agent) {
    c.validKey(a.publicKey) &&
    forall m :: |a.sign(m)| == ML_DSA_65_SIGNATURE_LEN && c.verify(a.publicKey, m, a.sign(m))
  }

  function DeriveSessionId(c: Crypto, h: Digest, clientNonce: Digest, serverNonce: Digest,
                           serverAgentId: bytes): Digest {
    c.hkdf(clientNonce + serverNonce, h + serverAgentId, SESSION_ID_INFO)
  }

  /** A session id fixes the ClientHello transcript, both nonces and the server's identity,
      unless two different inputs of the key derivation collide. */
  lemma SessionIdBinds(c: Crypto, h: Digest, cn: Digest, sn: Digest, id: bytes,
                       h': Digest, cn': Digest, sn': Digest, id': bytes)
    requires DeriveSessionId(c, h, cn, sn, id) == DeriveSessionId(c, h', cn', sn', id')
    ensures (h == h' && cn == cn' && sn == sn' && id == id') ||
            ((cn + sn, h + id) != (cn' + sn', h' + id') &&
             c.hkdf(cn + sn, h + id, SESSION_ID_INFO) == c.hkdf(cn' + sn', h' + id', SESSION_ID_INFO))
  {
    if cn + sn == cn' + sn' && h + id == h' + id' {
      assert cn == (cn + sn)[..32] && cn' == (cn' + sn')[..32] && sn == (cn + sn)[32..] && sn' == (cn' + sn')[32..];
      assert h == (h + id)[..32] && h' == (h' + id')[..32] && id == (h + id)[32..] && id' == (h' + id')[32..];
    }
  }

  /** The labels spell their names. */
  lemma LabelsSpelled()
    ensures SESSION_ID_INFO == Ascii("aafp-session-id-v1") && DOS_MAC_KEY_INFO == Ascii("aafp-v1-dos-mac-key")
  {}

  // -------------------------------------------------------------------- verification

  function VerifyAgentIdBinding(c: Crypto, agentId: bytes, publicKey: bytes): HandshakeResult<Digest> {
    if |agentId| != AGENT_ID_SIZE then Err(InvalidField("agent_id"))
    else if c.sha(publicKey) != agentId then Err(InvalidAgentId)
    else Ok(agentId)
  }

  /** Key and signature octets have the right shape and the signature covers the transcript. */
  function VerifySignature(c: Crypto, publicKey: bytes, signature: bytes, h: Digest,
                           keyField: string): HandshakeResult<()> {
    if !c.validKey(publicKey) then Err(InvalidField(keyField))
    else if |signature| != ML_DSA_65_SIGNATURE_LEN then Err(InvalidField("signature"))
    else if !c.verify(publicKey, SignatureInput(h), signature) then Err(SignatureVerificationFailed)
    else Ok(())
  }

  /** The identity claimed is the hash of the key, the key signed this transcript, and the
      identity is current. */
  ghost predicate Authentic(c: Crypto, agentId: bytes, publicKey: bytes, signature: bytes, expiresAt: u64,
                            h: Digest, now: u64)
  {
    && agentId == c.sha(publicKey)
    && c.validKey(publicKey) && |signature| == ML_DSA_65_SIGNATURE_LEN
    && c.verify(publicKey, SignatureInput(h), signature)
    && now < expiresAt
  }

  function VerifyClientHello(c: Crypto, ch: ClientHello, h: Digest, now: u64): (r: HandshakeResult<Digest>)
    ensures r.Ok? <==> ch.protocolVersion == PROTOCOL_VERSION && ch.keyAlgorithm == KEY_ALG_ML_DSA_65 &&
                       Authentic(c, ch.agentId, ch.publicKey, ch.signature, ch.expiresAt, h, now)
    ensures r.Ok? ==> r.value == ch.agentId
  {
    if ch.protocolVersion != PROTOCOL_VERSION then Err(VersionMismatch(ch.protocolVersion))
    else if ch.keyAlgorithm != KEY_ALG_ML_DSA_65 then Err(UnsupportedAlgorithm(ch.keyAlgorithm))
    else
      var id :- VerifyAgentIdBinding(c, ch.agentId, ch.publicKey);
      var _ :- VerifySignature(c, ch.publicKey, ch.signature, h, "public_key");
      if ch.expiresAt <= now then Err(IdentityExpired(ch.expiresAt, now)) else Ok(id)
  }

  function VerifyServerHello(c: Crypto, sh: ServerHello, h: Digest, now: u64): (r: HandshakeResult<(Digest, Digest)>)
    ensures r.Ok? <==> sh.protocolVersion == PROTOCOL_VERSION && sh.keyAlgorithm == KEY_ALG_ML_DSA_65 &&
                       Authentic(c, sh.agentId, sh.publicKey, sh.signature, sh.expiresAt, h, now)
    ensures r.Ok? ==> r.value == (sh.agentId, sh.sessionId)
  {
    if sh.protocolVersion != PROTOCOL_VERSION then Err(VersionMismatch(sh.protocolVersion))
    else if sh.keyAlgorithm != KEY_ALG_ML_DSA_65 then Err(UnsupportedAlgorithm(sh.keyAlgorithm))
    else
      var id :- VerifyAgentIdBinding(c, sh.agentId, sh.publicKey);
      var _ :- VerifySignature(c, sh.publicKey, sh.signature, h, "public_key");
      if sh.expiresAt <= now then Err(IdentityExpired(sh.expiresAt, now)) else Ok((id, sh.sessionId))
  }

  function VerifyClientFinished(c: Crypto, cf: ClientFinished, h: Digest, clientKey: bytes,
                                expected: Digest): (r: HandshakeResult<()>)
    ensures r.Ok? <==> cf.sessionId == expected && c.validKey(clientKey) &&
                       |cf.signature| == ML_DSA_65_SIGNATURE_LEN &&
                       c.verify(clientKey, SignatureInput(h), cf.signature)
  {
    if cf.sessionId != expected then Err(SessionIdMismatch)
    else VerifySignature(c, clientKey, cf.signature, h, "client_public_key")
  }

  /** Why a hello's id, key and signature are refused: the first of the checks that fails. */
  function RefusedBecause(c: Crypto, agentId: bytes, publicKey: bytes, signature: bytes, expiresAt: u64, version: u64,
                          algorithm: u64, h: Digest, now: u64): Option<HandshakeError>
  {
    if version != 1 then Some(VersionMismatch(version))
    else if algorithm != 1 then Some(UnsupportedAlgorithm(algorithm))
    else if |agentId| != 32 then Some(InvalidField("agent_id"))
    else if agentId != c.sha(publicKey) then Some(InvalidAgentId)
    else if !c.validKey(publicKey) then Some(InvalidField("public_key"))
    else if |signature| != 3309 then Some(InvalidField("signature"))
    else if !c.verify(publicKey, Ascii("aafp-v1-handshake") + h, signature) then Some(SignatureVerificationFailed)
    else if expiresAt <= now then Some(IdentityExpired(expiresAt, now))
    else None
  }

  /** Both hello checks fail for the first reason that applies and for no other. */
  lemma HelloChecks(c: Crypto, ch: ClientHello, sh: ServerHello, h: Digest, now: u64)
    ensures var why := RefusedBecause(c, ch.agentId, ch.publicKey, ch.signature, ch.expiresAt, ch.protocolVersion,
                                      ch.keyAlgorithm, h, now);
            VerifyClientHello(c, ch, h, now) == if why.Some? then Err(why.value) else Ok(ch.agentId)
    ensures var why := RefusedBecause(c, sh.agentId, sh.publicKey, sh.signature, sh.expiresAt, sh.protocolVersion,
                                      sh.keyAlgorithm, h, now);
            VerifyServerHello(c, sh, h, now) == if why.Some? then Err(why.value) else Ok((sh.agentId, sh.sessionId))
  {
    SignatureInputSpelled(h);
  }

  /** So does the check of ClientFinished. */
  lemma FinishedCheck(c: Crypto, cf: ClientFinished, h: Digest, clientKey: bytes, expected: Digest)
    ensures VerifyClientFinished(c, cf, h, clientKey, expected) ==
            if cf.sessionId != expected then Err(SessionIdMismatch)
            else if !c.validKey(clientKey) then Err(InvalidField("client_public_key"))
            else if |cf.signature| != 3309 then Err(InvalidField("signature"))
            else if !c.verify(clientKey, Ascii("aafp-v1-handshake") + h, cf.signature)
            then Err(SignatureVerificationFailed)
            else Ok(())
  {
    SignatureInputSpelled(h);
  }

  // -------------------------------------------------------------------- receiver MAC

  function ReceiverMac(c: Crypto, receiverId: bytes, chOctets: bytes): Digest {
    c.hmac(c.hkdf([], receiverId, DOS_MAC_KEY_INFO), chOctets)
  }

  /** A MAC fixes its receiver and the octets it covers, unless the key derivation of two different
      receivers or the MAC of two different inputs collides. */
  lemma ReceiverMacBinds(c: Crypto, id: bytes, x: bytes, id': bytes, x': bytes)
    requires ReceiverMac(c, id, x) == ReceiverMac(c, id', x')
    ensures var info := Ascii("aafp-v1-dos-mac-key");
            var key, key' := c.hkdf([], id, info), c.hkdf([], id', info);
            || (id == id' && x == x')
            || (id != id' && key == key')
            || ((key, x) != (key', x') && c.hmac(key, x) == c.hmac(key', x'))
  {
    LabelsSpelled();
  }

  /** Bitwise or and exclusive or. */
  function BitOr(a: nat, b: nat): nat {
    if a == 0 && b == 0 then 0 else 2 * BitOr(a / 2, b / 2) + if a % 2 == 1 || b % 2 == 1 then 1 else 0
  }

  function BitXor(a: nat, b: nat): nat {
    if a == 0 && b == 0 then 0 else 2 * BitXor(a / 2, b / 2) + if a % 2 != b % 2 then 1 else 0
  }

  lemma {:induction false} BitOrZero(a: nat, b: nat)
    ensures BitOr(a, b) == 0 <==> a == 0 && b == 0
  {
    if a != 0 || b != 0 { BitOrZero(a / 2, b / 2); }
  }

  lemma {:induction false} BitXorZero(a: nat, b: nat)
    ensures BitXor(a, b) == 0 <==> a == b
  {
    if a != 0 || b != 0 { BitXorZero(a / 2, b / 2); }
  }

  /** `verify_receiver_mac`: the accumulating comparison accepts exactly the right MAC. */
  method VerifyReceiverMac(c: Crypto, receiverId: bytes, chOctets: bytes, expected: bytes) returns (ok: bool)
    ensures ok <==> expected == ReceiverMac(c, receiverId, chOctets)
  {
    var computed := ReceiverMac(c, receiverId, chOctets);
    if |computed| != |expected| { return false; }
    var diff := 0;
    for i := 0 to |computed|
      invariant diff >= 0
      invariant diff == 0 <==> computed[..i] == expected[..i]
    {
      BitXorZero(computed[i], expected[i]);
      BitOrZero(diff, BitXor(computed[i], expected[i]));
      assert computed[..i + 1] == computed[..i] + [computed[i]];
      assert expected[..i + 1] == expected[..i] + [expected[i]];
      diff := BitOr(diff, BitXor(computed[i], expected[i]));
    }
    assert computed[..|computed|] == computed && expected[..|computed|] == expected;
    ok := diff == 0;
  }

  // ---------------------------------------------------------------------- whole runs

  /** What an agent brings to a hello. */
  datatype Offer = Offer(nonce: Digest, capabilities: seq<Value>, extensions: seq<Value>, expiresAt: u64,
                         receiverMac: Option<bytes>)

  /** The client's first message, signed over the transcript that ends with it. */
  function OpenHandshake(c: Crypto, a: Agent, binding: Digest, o: Offer): ClientHello {
    var ch := ClientHello(PROTOCOL_VERSION, c.sha(a.publicKey), a.publicKey, o.nonce, o.capabilities, o.extensions,
                          [], o.expiresAt, o.receiverMac, KEY_ALG_ML_DSA_65);
    ch.(signature := a.sign(SignatureInput(TranscriptOf(c.sha, binding, [ClientHelloSigned(ch)]))))
  }

  /** The server's reply to the hello it received. */
  function Reply(c: Crypto, a: Agent, binding: Digest, o: Offer, ch: ClientHello): ServerHello {
    var h := TranscriptOf(c.sha, binding, [ClientHelloSigned(ch)]);
    ReplyWith(c, a, binding, o, ch, DeriveSessionId(c, h, ch.nonce, o.nonce, c.sha(a.publicKey)))
  }

  /** What a hello carries: version 1, algorithm 1, the key and its hash, and the offer. */
  lemma HellosCarryOffers(c: Crypto, a: Agent, binding: Digest, o: Offer, ch: ClientHello, s: Digest)
    ensures var own := OpenHandshake(c, a, binding, o);
            own == ClientHello(1, c.sha(a.publicKey), a.publicKey, o.nonce, o.capabilities, o.extensions,
                               own.signature, o.expiresAt, o.receiverMac, 1)
    ensures var own := ReplyWith(c, a, binding, o, ch, s);
            own == ServerHello(1, c.sha(a.publicKey), a.publicKey, o.nonce, o.capabilities, o.extensions,
                               s, own.signature, o.expiresAt, 1)
  {}

  /** A reply with any session id, signed over the transcript that ends with it. */
  function ReplyWith(c: Crypto, a: Agent, binding: Digest, o: Offer, ch: ClientHello, sessionId: Digest): ServerHello {
    var sh := ServerHello(PROTOCOL_VERSION, c.sha(a.publicKey), a.publicKey, o.nonce, o.capabilities, o.extensions,
                          sessionId, [], o.expiresAt, KEY_ALG_ML_DSA_65);
    var signed := TranscriptOf(c.sha, binding, [ClientHelloSigned(ch), ServerHelloSigned(sh)]);
    sh.(signature := a.sign(SignatureInput(signed)))
  }

  /** The client's last message, after its own hello and the reply it received. */
  function Finish(c: Crypto, a: Agent, binding: Digest, ch: ClientHello, sh: ServerHello): ClientFinished {
    var cf := ClientFinished(sh.sessionId, []);
    cf.(signature := a.sign(SignatureInput(
          TranscriptOf(c.sha, binding, [ClientHelloSigned(ch), ServerHelloSigned(sh), ClientFinishedSigned(cf)]))))
  }

  /** Where the two ends stand when a handshake completes. */
  datatype Outcome = Outcome(
    clientPeer: Digest, clientSession: Digest, clientTranscript: Digest,
    serverPeer: Digest, serverSession: Digest, serverTranscript: Digest)

  /** A handshake over the wire: each end sees only what it decodes from the other's octets. */
  function Handshake(c: Crypto, client: Agent, server: Agent, binding: Digest, co: Offer, so: Offer,
                     serverNow: u64, clientNow: u64): HandshakeResult<Outcome>
  {
    var ch := OpenHandshake(c, client, binding, co);
    // server
    var gotCh :- ReceiveClientHello(ClientHelloWire(ch));
    var serverPeer :- VerifyClientHello(c, gotCh, TranscriptOf(c.sha, binding, [ClientHelloSigned(gotCh)]), serverNow);
    var sh := Reply(c, server, binding, so, gotCh);
    // client
    var gotSh :- ReceiveServerHello(ServerHelloWire(sh));
    var verified :- VerifyServerHello(c, gotSh,
      TranscriptOf(c.sha, binding, [ClientHelloSigned(ch), ServerHelloSigned(gotSh)]), clientNow);
    var expected := DeriveSessionId(c, TranscriptOf(c.sha, binding, [ClientHelloSigned(ch)]),
                                    ch.nonce, gotSh.nonce, gotSh.agentId);
    if gotSh.sessionId != expected then Err(SessionIdMismatch)
    else
      var cf := Finish(c, client, binding, ch, gotSh);
      // server
      var gotCf :- ReceiveClientFinished(ClientFinishedWire(cf));
      var serverFinal := TranscriptOf(c.sha, binding,
        [ClientHelloSigned(gotCh), ServerHelloSigned(sh), ClientFinishedSigned(gotCf)]);
      var _ :- VerifyClientFinished(c, gotCf, serverFinal, gotCh.publicKey, sh.sessionId);
      Ok(Outcome(verified.0, verified.1,
                 TranscriptOf(c.sha, binding,
                              [ClientHelloSigned(ch), ServerHelloSigned(gotSh), ClientFinishedSigned(cf)]),
                 serverPeer, sh.sessionId, serverFinal))
  }

  /** A handshake completes only if every check passes: each end received and verified the other's
      hello over its own transcript, the session id is the derived one, and the server verified
      ClientFinished over all three messages. */
  lemma {:induction false} HandshakeChecks(c: Crypto, client: Agent, server: Agent, binding: Digest,
                                           co: Offer, so: Offer, serverNow: u64, clientNow: u64)
    returns (gotCh: ClientHello, gotSh: ServerHello, gotCf: ClientFinished)
    requires Handshake(c, client, server, binding, co, so, serverNow, clientNow).Ok?
    ensures var ch, sh := OpenHandshake(c, client, binding, co), Reply(c, server, binding, so, gotCh);
            && ReceiveClientHello(ClientHelloWire(ch)) == Ok(gotCh)
            && ReceiveServerHello(ServerHelloWire(sh)) == Ok(gotSh)
            && ReceiveClientFinished(ClientFinishedWire(Finish(c, client, binding, ch, gotSh))) == Ok(gotCf)
            && gotSh.sessionId == DeriveSessionId(c, TranscriptOf(c.sha, binding, [ClientHelloSigned(ch)]),
                                                  ch.nonce, gotSh.nonce, gotSh.agentId)
    ensures var r := Handshake(c, client, server, binding, co, so, serverNow, clientNow).value;
            var ch, sh := OpenHandshake(c, client, binding, co), Reply(c, server, binding, so, gotCh);
            && VerifyClientHello(c, gotCh, TranscriptOf(c.sha, binding, [ClientHelloSigned(gotCh)]), serverNow)
               == Ok(r.serverPeer)
            && VerifyServerHello(c, gotSh,
                                 TranscriptOf(c.sha, binding, [ClientHelloSigned(ch), ServerHelloSigned(gotSh)]),
                                 clientNow) == Ok((r.clientPeer, r.clientSession))
            && r.serverSession == sh.sessionId
            && r.serverTranscript == TranscriptOf(c.sha, binding, SignedThree(gotCh, sh, gotCf))
            && VerifyClientFinished(c, gotCf, r.serverTranscript, gotCh.publicKey, sh.sessionId).Ok?
  {
    hide ReceiveClientHello, ReceiveServerHello, ReceiveClientFinished, TranscriptOf, Encode, SignatureInput,
         VerifyClientHello, VerifyServerHello, VerifyClientFinished, Reply, Finish, OpenHandshake;
    var ch := OpenHandshake(c, client, binding, co);
    gotCh := ReceiveClientHello(ClientHelloWire(ch)).value;
    gotSh := ReceiveServerHello(ServerHelloWire(Reply(c, server, binding, so, gotCh))).value;
    gotCf := ReceiveClientFinished(ClientFinishedWire(Finish(c, client, binding, ch, gotSh))).value;
  }

  /** The messages of a run fit a 64-bit address space. */
  predicate Addressable(c: Crypto, client: Agent, server: Agent, binding: Digest, co: Offer, so: Offer) {
    var ch := OpenHandshake(c, client, binding, co);
    var sh := Reply(c, server, binding, so, CanonClientHello(ch));
    |ClientHelloWire(ch)| < TWO_64 && |ServerHelloWire(sh)| < TWO_64 &&
    |ClientFinishedWire(Finish(c, client, binding, ch, CanonServerHello(sh)))| < TWO_64
  }

  /** Honest ends with one channel binding complete and agree, whatever their nonces,
      capabilities and extensions. */
  lemma {:induction false} HonestHandshake(c: Crypto, client: Agent, server: Agent, binding: Digest,
                                           co: Offer, so: Offer, serverNow: u64, clientNow: u64)
    requires Correct(c, client) && Correct(c, server)
    requires serverNow < co.expiresAt && clientNow < so.expiresAt
    requires GoodValues(co.capabilities) && GoodValues(co.extensions)
    requires GoodValues(so.capabilities) && GoodValues(so.extensions)
    requires Addressable(c, client, server, binding, co, so)
    ensures var r := Handshake(c, client, server, binding, co, so, serverNow, clientNow);
            && r.Ok?
            && r.value.clientTranscript == r.value.serverTranscript
            && r.value.clientSession == r.value.serverSession
            && r.value.clientPeer == c.sha(server.publicKey)
            && r.value.serverPeer == c.sha(client.publicKey)
            && var ch := OpenHandshake(c, client, binding, co);
               var sh := Reply(c, server, binding, so, CanonClientHello(ch));
               && r.value.clientSession == DeriveSessionId(c, c.sha(c.sha(binding) + ClientHelloSigned(ch)),
                                                           co.nonce, so.nonce, c.sha(server.publicKey))
               && r.value.clientTranscript ==
                  TranscriptOf(c.sha, binding, SignedThree(ch, sh, ClientFinished(sh.sessionId, [])))
  {
    hide GoodValues, ReceiveClientHello, ReceiveServerHello, ReceiveClientFinished, TranscriptOf, Encode,
         CanonAll, SignatureInput;
    var ch := OpenHandshake(c, client, binding, co);
    var gotCh := CanonClientHello(ch);
    assert ClientHelloWire(ch) + [] == ClientHelloWire(ch);
    ClientHelloSurvives(ch, []);
    var sh := Reply(c, server, binding, so, gotCh);
    var gotSh := CanonServerHello(sh);
    assert ServerHelloWire(sh) + [] == ServerHelloWire(sh);
    ServerHelloSurvives(sh, []);
    var cf := Finish(c, client, binding, ch, gotSh);
    assert ClientFinishedWire(cf) + [] == ClientFinishedWire(cf);
    ClientFinishedSurvives(cf, []);
    TranscriptSpelled(c.sha, binding, ClientHelloSigned(ch), [], []);
  }

  // ---------------------------------------------------------------------- agreement

  /** Ends whose transcripts agree agree on the binding and on the content of all three
      messages, or their runs collide. Nothing is asked of the messages: they may have been
      received from anyone. */
  lemma {:induction false} TranscriptFixesContent(
      c: Crypto, b1: Digest, ch1: ClientHello, sh1: ServerHello, cf1: ClientFinished,
      b2: Digest, ch2: ClientHello, sh2: ServerHello, cf2: ClientFinished)
    requires |ClientHelloSigned(ch1)| < TWO_64 && |ServerHelloSigned(sh1)| < TWO_64
    requires |ClientFinishedSigned(cf1)| < TWO_64
    requires TranscriptOf(c.sha, b1, SignedThree(ch1, sh1, cf1)) == TranscriptOf(c.sha, b2, SignedThree(ch2, sh2, cf2))
    ensures RunsCollide(c.sha, b1, SignedThree(ch1, sh1, cf1), b2, SignedThree(ch2, sh2, cf2)) ||
            (b1 == b2 && ClientHelloContent(ch1) == ClientHelloContent(ch2) &&
             ServerHelloContent(sh1) == ServerHelloContent(sh2) && cf1.sessionId == cf2.sessionId)
  {
    hide TranscriptOf, CanonAll, Canon, RunsCollide;
    var ms, ns := SignedThree(ch1, sh1, cf1), SignedThree(ch2, sh2, cf2);
    TranscriptBinding(c.sha, b1, ms, b2, ns);
    if !RunsCollide(c.sha, b1, ms, b2, ns) {
      assert ms[0] == ns[0] && ms[1] == ns[1] && ms[2] == ns[2];
      ClientHelloSignedDetermines(ch1, ch2);
      ServerHelloSignedDetermines(sh1, sh2);
      ClientFinishedSignedDetermines(cf1, cf2);
    }
  }

  /** What a complete handshake folds. */
  function SignedThree(ch: ClientHello, sh: ServerHello, cf: ClientFinished): seq<bytes> {
    [ClientHelloSigned(ch), ServerHelloSigned(sh), ClientFinishedSigned(cf)]
  }

  /** A transcript an agent put its signature to. */
  datatype Signed = Signed(binding: Digest, messages: seq<bytes>)

  /** The signature was not forged: under this key it verifies as a handshake signature only for
      transcripts in the owner's log. What else the key signs is left open. */
  ghost predicate Unforged(c: Crypto, publicKey: bytes, log: seq<Signed>, signature: bytes) {
    forall h: Digest :: c.verify(publicKey, SignatureInput(h), signature) ==>
      exists i :: 0 <= i < |log| && h == TranscriptOf(c.sha, log[i].binding, log[i].messages)
  }

  /** If an unforged signature verifies over some transcript, its owner signed a run with exactly
      that binding and those messages, or the two runs collide. */
  lemma VerifiedMeansSigned(c: Crypto, publicKey: bytes, signature: bytes, binding: Digest, messages: seq<bytes>,
                            log: seq<Signed>)
    returns (i: nat)
    requires c.verify(publicKey, SignatureInput(TranscriptOf(c.sha, binding, messages)), signature)
    requires Unforged(c, publicKey, log, signature) && NoneEmpty(messages)
    requires forall j :: 0 <= j < |log| ==> NoneEmpty(log[j].messages)
    ensures i < |log|
    ensures log[i] == Signed(binding, messages) ||
            RunsCollide(c.sha, binding, messages, log[i].binding, log[i].messages)
  {
    hide TranscriptOf, SignatureInput, RunsCollide, NoneEmpty;
    var h := TranscriptOf(c.sha, binding, messages);
    i :| i < |log| && h == TranscriptOf(c.sha, log[i].binding, log[i].messages);
    TranscriptBinding(c.sha, binding, messages, log[i].binding, log[i].messages);
  }

  /** So an accepted ClientFinished was signed by the client for exactly this run. */
  lemma AcceptedMeansSigned(c: Crypto, cf: ClientFinished, binding: Digest, messages: seq<bytes>, clientKey: bytes,
                            expected: Digest, log: seq<Signed>)
    returns (i: nat)
    requires VerifyClientFinished(c, cf, TranscriptOf(c.sha, binding, messages), clientKey, expected).Ok?
    requires Unforged(c, clientKey, log, cf.signature) && NoneEmpty(messages)
    requires forall j :: 0 <= j < |log| ==> NoneEmpty(log[j].messages)
    ensures i < |log|
    ensures log[i] == Signed(binding, messages) ||
            RunsCollide(c.sha, binding, messages, log[i].binding, log[i].messages)
  {
    hide TranscriptOf, SignatureInput, RunsCollide, NoneEmpty, Unforged;
    i := VerifiedMeansSigned(c, clientKey, cf.signature, binding, messages, log);
  }

  /** Octets cut or zero-padded to the length of a signature. */
  function Padded(m: bytes): (s: bytes)
    ensures |s| == ML_DSA_65_SIGNATURE_LEN
  {
    if |m| >= ML_DSA_65_SIGNATURE_LEN then m[..ML_DSA_65_SIGNATURE_LEN]
    else m + seq(ML_DSA_65_SIGNATURE_LEN - |m|, _ => 0)
  }

  lemma PaddedInput(g: Digest, h: Digest)
    requires Padded(SignatureInput(g)) == Padded(SignatureInput(h))
    ensures g == h
  {
    var x, y := SignatureInput(g), SignatureInput(h);
    assert x == Padded(x)[..|x|] && y == Padded(y)[..|x|];
    SignatureInputInjective(g, h);
  }

  /** Correct signing and signatures that are not forged go together: a scheme in which an agent
      signs correctly and, whatever it logs, no signature it made for its log is forged. */
  lemma SchemeExists(sha: bytes -> Digest, hkdf: (bytes, bytes, bytes) -> Digest, hmac: (bytes, bytes) -> Digest,
                     publicKey: bytes)
    returns (c: Crypto, a: Agent)
    ensures c.sha == sha && a.publicKey == publicKey && Correct(c, a)
    ensures forall log: seq<Signed>, i :: 0 <= i < |log| ==>
              Unforged(c, publicKey, log,
                       a.sign(SignatureInput(TranscriptOf(sha, log[i].binding, log[i].messages))))
  {
    hide TranscriptOf, SignatureInput, Padded;
    c := Crypto(sha, hkdf, hmac, k => true, (k, m, s) => s == Padded(m));
    a := Agent(publicKey, Padded);
    forall log: seq<Signed>, i | 0 <= i < |log|
      ensures Unforged(c, publicKey, log, a.sign(SignatureInput(TranscriptOf(sha, log[i].binding, log[i].messages))))
    {
      var g := TranscriptOf(sha, log[i].binding, log[i].messages);
      forall h: Digest | c.verify(publicKey, SignatureInput(h), a.sign(SignatureInput(g))) ensures h == g {
        PaddedInput(g, h);
      }
    }
  }
}
