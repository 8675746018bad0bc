/** What an accepted message says about its sender. An agent's log lists everything its key
    signed in handshakes, in either role; nothing is asked of the octets received. */
module HandshakeAgreement {
  import opened Bytes
  import opened CborEncode
  import opened Transcript
  import opened HandshakeMessages
  import opened HandshakeRun
  import opened HandshakeDriver
  import opened Wrappers

  /** Whether ClientFinished is folded before it is signed: so in `handshake_v1`, not so in the
      SDK's driver. */
  datatype Order = FinishFolded | FinishNotFolded

  /** A signature an agent made: to open a handshake, to reply to a hello, to finish. */
  datatype Signing =
    | Opening(binding: Digest, ch: ClientHello)
    | Replying(binding: Digest, ch: ClientHello, sh: ServerHello)
    | Finishing(binding: Digest, ch: ClientHello, sh: ServerHello)

  function Folded(o: Order, e: Signing): seq<bytes> {
    match e
    case Opening(_, ch) => [ClientHelloSigned(ch)]
    case Replying(_, ch, sh) => Hellos(ch, sh)
    case Finishing(_, ch, sh) =>
      if o.FinishFolded? then SignedThree(ch, sh, ClientFinished(sh.sessionId, [])) else Hellos(ch, sh)
  }

  function TranscriptAt(c: Crypto, o: Order, e: Signing): Digest { TranscriptOf(c.sha, e.binding, Folded(o, e)) }

  /** The key in the signer's own hello. */
  function OwnKey(e: Signing): bytes { if e.Replying? then e.sh.publicKey else e.ch.publicKey }

  predicate AllOwn(log: seq<Signing>, key: bytes) {
    forall i :: 0 <= i < |log| ==> OwnKey(log[i]) == key
  }

  function LogOf(o: Order, log: seq<Signing>): (s: seq<Signed>)
    ensures |s| == |log| && forall i :: 0 <= i < |log| ==> s[i] == Signed(log[i].binding, Folded(o, log[i]))
  {
    seq(|log|, i requires 0 <= i < |log| => Signed(log[i].binding, Folded(o, log[i])))
  }

  /** The four signing steps of the two orders sign the transcripts that such entries stand for,
      and a hello carries its signer's key. */
  lemma SignedAsLogged(c: Crypto, a: Agent, binding: Digest, offer: Offer, ch: ClientHello, sh: ServerHello,
                       s: Digest, o: Order)
    ensures var own := OpenHandshake(c, a, binding, offer);
            own.signature == a.sign(SignatureInput(TranscriptAt(c, o, Opening(binding, own)))) &&
            OwnKey(Opening(binding, own)) == a.publicKey
    ensures var own := ReplyWith(c, a, binding, offer, ch, s);
            own.signature == a.sign(SignatureInput(TranscriptAt(c, o, Replying(binding, ch, own)))) &&
            OwnKey(Replying(binding, ch, own)) == a.publicKey
    ensures Finish(c, a, binding, ch, sh).signature
         == a.sign(SignatureInput(TranscriptAt(c, FinishFolded, Finishing(binding, ch, sh))))
    ensures DriverFinish(c, a, binding, ch, sh).signature
         == a.sign(SignatureInput(TranscriptAt(c, FinishNotFolded, Finishing(binding, ch, sh))))
  {
    hide TranscriptOf, Encode, SignatureInput;
    var own, reply := OpenHandshake(c, a, binding, offer), ReplyWith(c, a, binding, offer, ch, s);
    assert ClientHelloSigned(own) == ClientHelloSigned(own.(signature := []));
    assert ServerHelloSigned(reply) == ServerHelloSigned(reply.(signature := []));
  }

  // ---------------------------------------------------------------- what octets fix

  predicate Addressable(e: Signing) {
    |ClientHelloSigned(e.ch)| < TWO_64 && (!e.Opening? ==> |ServerHelloSigned(e.sh)| < TWO_64)
  }

  /** The same binding and the same content of the hellos. */
  ghost predicate SameRun(e: Signing, f: Signing) {
    && e.binding == f.binding && (e.Opening? <==> f.Opening?)
    && ClientHelloContent(e.ch) == ClientHelloContent(f.ch)
    && (!e.Opening? && !f.Opening? ==> ServerHelloContent(e.sh) == ServerHelloContent(f.sh))
  }

  lemma FoldedNonempty(o: Order, e: Signing)
    ensures NoneEmpty(Folded(o, e))
  {
    hide Emit, Canon;
  }

  /** What was folded fixes the run, and, where ClientFinished is folded, the step. */
  lemma {:induction false} FoldedFixes(o: Order, e: Signing, f: Signing)
    requires e.binding == f.binding && Folded(o, e) == Folded(o, f) && Addressable(e)
    ensures SameRun(e, f)
    ensures o.FinishFolded? ==> (e.Replying? <==> f.Replying?)
  {
    hide Canon, CanonAll, Encode;
    var x, y := Folded(o, e), Folded(o, f);
    assert |x| == |y| && x[0] == y[0];
    ClientHelloSignedDetermines(e.ch, f.ch);
    if !e.Opening? {
      assert x[1] == y[1];
      ServerHelloSignedDetermines(e.sh, f.sh);
    }
  }

  /** A verified, unforged signature was made in the same run, or the runs collide. */
  lemma {:induction false} Attributed(c: Crypto, o: Order, key: bytes, signature: bytes, e: Signing, log: seq<Signing>)
    returns (i: nat)
    requires c.verify(key, SignatureInput(TranscriptAt(c, o, e)), signature)
    requires Unforged(c, key, LogOf(o, log), signature) && Addressable(e)
    ensures i < |log|
    ensures RunsCollide(c.sha, e.binding, Folded(o, e), log[i].binding, Folded(o, log[i])) ||
            (SameRun(e, log[i]) && (o.FinishFolded? ==> (e.Replying? <==> log[i].Replying?)))
  {
    hide TranscriptOf, SignatureInput, RunsCollide, Unforged, Folded, SameRun, NoneEmpty, Addressable;
    FoldedNonempty(o, e);
    forall j | 0 <= j < |log| ensures NoneEmpty(LogOf(o, log)[j].messages) { FoldedNonempty(o, log[j]); }
    i := VerifiedMeansSigned(c, key, signature, e.binding, Folded(o, e), LogOf(o, log));
    if LogOf(o, log)[i] == Signed(e.binding, Folded(o, e)) { FoldedFixes(o, e, log[i]); }
  }

  // --------------------------------------------------------------- accepted messages

  /** `log[i]` is a signing of the same kind in the same run, or the two runs collide. */
  ghost predicate SignedAs(c: Crypto, o: Order, e: Signing, log: seq<Signing>, i: nat) {
    i < |log| &&
    (RunsCollide(c.sha, e.binding, Folded(o, e), log[i].binding, Folded(o, log[i])) ||
     (SameRun(e, log[i]) && (e.Replying? <==> log[i].Replying?)))
  }

  /** An accepted ClientHello was signed to open this handshake. */
  lemma OpeningAttributed(c: Crypto, o: Order, binding: Digest, ch: ClientHello, now: u64, log: seq<Signing>)
    returns (i: nat)
    requires VerifyClientHello(c, ch, TranscriptOf(c.sha, binding, [ClientHelloSigned(ch)]), now).Ok?
    requires Unforged(c, ch.publicKey, LogOf(o, log), ch.signature) && |ClientHelloSigned(ch)| < TWO_64
    ensures SignedAs(c, o, Opening(binding, ch), log, i)
  {
    hide TranscriptOf, SignatureInput, RunsCollide, Unforged, Encode;
    i := Attributed(c, o, ch.publicKey, ch.signature, Opening(binding, ch), log);
  }

  /** Steps can be told apart: by what is folded, or because the two ends have different keys. */
  ghost predicate StepsApart(o: Order, ch: ClientHello, sh: ServerHello, log: seq<Signing>, key: bytes) {
    o.FinishFolded? || (ch.publicKey != sh.publicKey && AllOwn(log, key))
  }

  /** A reply and a finish of one run carry the keys of its two ends. */
  lemma KindFixed(e: Signing, f: Signing)
    requires SameRun(e, f) && !e.Opening? && e.ch.publicKey != e.sh.publicKey && OwnKey(f) == OwnKey(e)
    ensures e.Replying? <==> f.Replying?
  {
    assert ClientHelloContent(e.ch).publicKey == ClientHelloContent(f.ch).publicKey;
    assert ServerHelloContent(e.sh).publicKey == ServerHelloContent(f.sh).publicKey;
  }

  /** An accepted ServerHello was signed as a reply in this run. */
  lemma ReplyAttributed(c: Crypto, o: Order, binding: Digest, ch: ClientHello, sh: ServerHello, now: u64,
                        log: seq<Signing>)
    returns (i: nat)
    requires VerifyServerHello(c, sh, TranscriptOf(c.sha, binding, Hellos(ch, sh)), now).Ok?
    requires Unforged(c, sh.publicKey, LogOf(o, log), sh.signature) && Addressable(Replying(binding, ch, sh))
    requires StepsApart(o, ch, sh, log, sh.publicKey)
    ensures SignedAs(c, o, Replying(binding, ch, sh), log, i)
  {
    hide TranscriptOf, SignatureInput, RunsCollide, Unforged, Encode, SameRun, Addressable;
    var e := Replying(binding, ch, sh);
    i := Attributed(c, o, sh.publicKey, sh.signature, e, log);
    if SameRun(e, log[i]) && !o.FinishFolded? { KindFixed(e, log[i]); }
  }

  /** An accepted ClientFinished was signed as one, in this run. */
  lemma FinishAttributed(c: Crypto, o: Order, binding: Digest, ch: ClientHello, sh: ServerHello, cf: ClientFinished,
                         log: seq<Signing>)
    returns (i: nat)
    requires VerifyClientFinished(c, cf, TranscriptAt(c, o, Finishing(binding, ch, sh)), ch.publicKey, sh.sessionId).Ok?
    requires Unforged(c, ch.publicKey, LogOf(o, log), cf.signature) && Addressable(Finishing(binding, ch, sh))
    requires StepsApart(o, ch, sh, log, ch.publicKey)
    ensures SignedAs(c, o, Finishing(binding, ch, sh), log, i)
  {
    hide TranscriptOf, SignatureInput, RunsCollide, Unforged, Encode, SameRun, Addressable, Folded;
    var e := Finishing(binding, ch, sh);
    i := Attributed(c, o, ch.publicKey, cf.signature, e, log);
    if SameRun(e, log[i]) && !o.FinishFolded? { KindFixed(e, log[i]); }
  }

  // ------------------------------------------------------------------- the driver

  /** When the driver's server answers, the key of the hello signed it to open a handshake with this
      binding and content, or runs collide. */
  lemma {:induction false} AnswerMeansOpened(c: Crypto, o: Order, a: Agent, binding: Digest, offer: Offer,
                                             octets: bytes, now: u64, seen: Cache, log: seq<Signing>)
    returns (i: nat)
    requires ServerReceives(c, a, binding, offer, octets, now, seen).Ok?
    requires var ch := ReceiveClientHello(octets).value;
             Unforged(c, ch.publicKey, LogOf(o, log), ch.signature) && |ClientHelloSigned(ch)| < TWO_64
    ensures SignedAs(c, o, Opening(binding, ReceiveClientHello(octets).value), log, i)
  {
    hide TranscriptOf, SignatureInput, Unforged, Encode, ReceiveClientHello, SignedAs, Reply;
    i := OpeningAttributed(c, o, binding, ReceiveClientHello(octets).value, now, log);
  }

  /** When the driver's server completes with a peer whose key is not its own, the peer's key
      signed a ClientFinished for the server's binding and the content of both hellos, the
      session id among it, or runs collide. */
  lemma {:induction false} ServerAgreement(c: Crypto, binding: Digest, half: ServerHalf, octets: bytes,
                                           log: seq<Signing>)
    returns (i: nat)
    requires ServerFinishes(c, binding, half, octets).Ok?
    requires Unforged(c, half.ch.publicKey, LogOf(FinishNotFolded, log), ReceiveClientFinished(octets).value.signature)
    requires half.ch.publicKey != half.sh.publicKey && AllOwn(log, half.ch.publicKey)
    requires Addressable(Finishing(binding, half.ch, half.sh))
    ensures SignedAs(c, FinishNotFolded, Finishing(binding, half.ch, half.sh), log, i)
  {
    hide TranscriptOf, SignatureInput, Unforged, Encode, ReceiveClientFinished, SignedAs, Addressable, AllOwn;
    i := FinishAttributed(c, FinishNotFolded, binding, half.ch, half.sh, ReceiveClientFinished(octets).value, log);
  }

  /** When the driver's client accepts a ServerHello whose key is not its own, that key signed a
      reply to the client's hello with this binding and the content of both, or runs collide. */
  lemma {:induction false} ClientAgreement(c: Crypto, a: Agent, binding: Digest, ch: ClientHello, octets: bytes,
                                           now: u64, seen: Cache, log: seq<Signing>)
    returns (i: nat)
    requires ClientReceives(c, a, binding, ch, octets, now, seen).Ok?
    requires var sh := ReceiveServerHello(octets).value;
             && Unforged(c, sh.publicKey, LogOf(FinishNotFolded, log), sh.signature)
             && ch.publicKey != sh.publicKey && AllOwn(log, sh.publicKey)
             && Addressable(Replying(binding, ch, sh))
    ensures SignedAs(c, FinishNotFolded, Replying(binding, ch, ReceiveServerHello(octets).value), log, i)
  {
    hide TranscriptOf, SignatureInput, Unforged, Encode, ReceiveServerHello, SignedAs, Addressable, AllOwn;
    i := ReplyAttributed(c, FinishNotFolded, binding, ch, ReceiveServerHello(octets).value, now, log);
  }

  /** The condition on keys is exact. Towards a peer that has finished nothing, the signature of
      the server's own reply completes the handshake if and only if the peer presented the
      server's own key. */
  lemma {:induction false} OwnReplyExact(c: Crypto, server: Agent, binding: Digest, offer: Offer, half: ServerHalf,
                                         log: seq<Signing>)
    requires Correct(c, server) && half.sh == Reply(c, server, binding, offer, half.ch)
    requires AllOwn(log, half.ch.publicKey)
    requires Unforged(c, half.ch.publicKey, LogOf(FinishNotFolded, log), half.sh.signature)
    requires forall i :: 0 <= i < |log| ==>
               && !log[i].Finishing?
               && !RunsCollide(c.sha, binding, Hellos(half.ch, half.sh),
                               log[i].binding, Folded(FinishNotFolded, log[i]))
    requires Addressable(Finishing(binding, half.ch, half.sh))
    requires |ClientFinishedWire(ClientFinished(half.sh.sessionId, half.sh.signature))| < TWO_64
    ensures var cf := ClientFinished(half.sh.sessionId, half.sh.signature);
            ServerFinishes(c, binding, half, ClientFinishedWire(cf)).Ok? <==> half.ch.publicKey == server.publicKey
  {
    hide TranscriptOf, SignatureInput, Unforged, Encode, ReceiveClientFinished, RunsCollide, Addressable, AllOwn;
    var cf := ClientFinished(half.sh.sessionId, half.sh.signature);
    assert ClientFinishedWire(cf) + [] == ClientFinishedWire(cf);
    ClientFinishedSurvives(cf, []);
    OneInputTwice(c, server, server, binding, offer, half.ch, half.ch, half.sh.sessionId);
    if half.ch.publicKey != server.publicKey && ServerFinishes(c, binding, half, ClientFinishedWire(cf)).Ok? {
      var i := ServerAgreement(c, binding, half, ClientFinishedWire(cf), log);
    }
  }
}
