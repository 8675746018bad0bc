/** The three handshake messages, their CBOR forms with and without signatures, and why the
    octets a sender signed are the octets its receiver rebuilds. */
module HandshakeMessages {
  import opened Bytes
  import opened CborValue
  import opened EntrySort
  import opened CborEncode
  import CborDecode
  import opened CborRoundTrip
  import opened CborCanonical
  import opened Transcript
  import opened Wrappers

  datatype HandshakeError =
    | InvalidField(field: string)
    | MissingField(field: string)
    | Cbor(cause: CborDecode.CborError)
    | SignatureVerificationFailed
    | SessionIdMismatch
    | VersionMismatch(got: u64)
    | InvalidAgentId
    | IdentityExpired(expiresAt: u64, now: u64)
    | UnsupportedAlgorithm(algorithm: u64)

  type HandshakeResult<T> = Result<T, HandshakeError>

  datatype ClientHello = ClientHello(
    protocolVersion: u64, agentId: bytes, publicKey: bytes, nonce: Digest,
    capabilities: seq<Value>, extensions: seq<Value>, signature: bytes,
    expiresAt: u64, receiverMac: Option<bytes>, keyAlgorithm: u64)

  datatype ServerHello = ServerHello(
    protocolVersion: u64, agentId: bytes, publicKey: bytes, nonce: Digest,
    capabilities: seq<Value>, extensions: seq<Value>, sessionId: Digest,
    signature: bytes, expiresAt: u64, keyAlgorithm: u64)

  datatype ClientFinished = ClientFinished(sessionId: Digest, signature: bytes)

  // ------------------------------------------------------------------ field lookup

  /** `int_map_get`: the first entry with the key. */
  function Lookup(es: seq<Entry<i64>>, key: i64): Option<Value> {
    if es == [] then None else if es[0].key == key then Some(es[0].value) else Lookup(es[1..], key)
  }

  function IntMapGet(v: Value, key: i64): Option<Value> {
    if v.IntMap? then Lookup(v.ints, key) else None
  }

  function ExpectU64(v: Option<Value>, field: string): HandshakeResult<u64> {
    if v.None? then Err(MissingField(field))
    else if v.value.Unsigned? then Ok(v.value.n)
    else Err(InvalidField(field))
  }

  function ExpectBytes(v: Option<Value>, field: string): HandshakeResult<bytes> {
    if v.None? then Err(MissingField(field))
    else if v.value.ByteString? then Ok(v.value.octets)
    else Err(InvalidField(field))
  }

  function ExpectBytes32(v: Option<Value>, field: string): HandshakeResult<Digest> {
    var b :- ExpectBytes(v, field);
    if |b| == 32 then Ok(b) else Err(InvalidField(field))
  }

  function ExpectArray(v: Option<Value>, field: string): HandshakeResult<seq<Value>> {
    if v.None? then Err(MissingField(field))
    else if v.value.Array? then Ok(v.value.items)
    else Err(InvalidField(field))
  }

  /** Optional octets: absent is fine, null is not. */
  function OptionalBytes(v: Option<Value>, field: string): HandshakeResult<Option<bytes>> {
    if v.None? then Ok(None)
    else if v.value.ByteString? then Ok(Some(v.value.octets))
    else Err(InvalidField(field))
  }

  // ---------------------------------------------------------------------- messages

  function ClientHelloUnsignedFields(m: ClientHello): seq<Entry<i64>> {
    [ Entry(1, Unsigned(m.protocolVersion)), Entry(2, ByteString(m.agentId)), Entry(3, ByteString(m.publicKey)),
      Entry(4, ByteString(m.nonce)), Entry(5, Array(m.capabilities)), Entry(6, Array(m.extensions)),
      Entry(8, Unsigned(m.expiresAt)), Entry(10, Unsigned(m.keyAlgorithm)) ]
  }

  function ClientHelloFields(m: ClientHello): seq<Entry<i64>> {
    [ Entry(1, Unsigned(m.protocolVersion)), Entry(2, ByteString(m.agentId)), Entry(3, ByteString(m.publicKey)),
      Entry(4, ByteString(m.nonce)), Entry(5, Array(m.capabilities)), Entry(6, Array(m.extensions)),
      Entry(7, ByteString(m.signature)), Entry(8, Unsigned(m.expiresAt)), Entry(10, Unsigned(m.keyAlgorithm)) ]
    + if m.receiverMac.Some? then [Entry(9, ByteString(m.receiverMac.value))] else []
  }

  function ClientHelloFromCbor(v: Value): HandshakeResult<ClientHello> {
    var protocolVersion :- ExpectU64(IntMapGet(v, 1), "protocol_version");
    var agentId :- ExpectBytes(IntMapGet(v, 2), "agent_id");
    var publicKey :- ExpectBytes(IntMapGet(v, 3), "public_key");
    var nonce :- ExpectBytes32(IntMapGet(v, 4), "nonce");
    var capabilities :- ExpectArray(IntMapGet(v, 5), "capabilities");
    var extensions :- ExpectArray(IntMapGet(v, 6), "extensions");
    var signature :- ExpectBytes(IntMapGet(v, 7), "signature");
    var expiresAt :- ExpectU64(IntMapGet(v, 8), "expires_at");
    var receiverMac :- OptionalBytes(IntMapGet(v, 9), "receiver_mac");
    var keyAlgorithm :- ExpectU64(IntMapGet(v, 10), "key_algorithm");
    Ok(ClientHello(protocolVersion, agentId, publicKey, nonce, capabilities, extensions,
                   signature, expiresAt, receiverMac, keyAlgorithm))
  }

  function ServerHelloUnsignedFields(m: ServerHello): seq<Entry<i64>> {
    [ Entry(1, Unsigned(m.protocolVersion)), Entry(2, ByteString(m.agentId)), Entry(3, ByteString(m.publicKey)),
      Entry(4, ByteString(m.nonce)), Entry(5, Array(m.capabilities)), Entry(6, Array(m.extensions)),
      Entry(7, ByteString(m.sessionId)), Entry(9, Unsigned(m.expiresAt)), Entry(10, Unsigned(m.keyAlgorithm)) ]
  }

  function ServerHelloFields(m: ServerHello): seq<Entry<i64>> {
    [ Entry(1, Unsigned(m.protocolVersion)), Entry(2, ByteString(m.agentId)), Entry(3, ByteString(m.publicKey)),
      Entry(4, ByteString(m.nonce)), Entry(5, Array(m.capabilities)), Entry(6, Array(m.extensions)),
      Entry(7, ByteString(m.sessionId)), Entry(8, ByteString(m.signature)),
      Entry(9, Unsigned(m.expiresAt)), Entry(10, Unsigned(m.keyAlgorithm)) ]
  }

  function ServerHelloFromCbor(v: Value): HandshakeResult<ServerHello> {
    var protocolVersion :- ExpectU64(IntMapGet(v, 1), "protocol_version");
    var agentId :- ExpectBytes(IntMapGet(v, 2), "agent_id");
    var publicKey :- ExpectBytes(IntMapGet(v, 3), "public_key");
    var nonce :- ExpectBytes32(IntMapGet(v, 4), "nonce");
    var capabilities :- ExpectArray(IntMapGet(v, 5), "capabilities");
    var extensions :- ExpectArray(IntMapGet(v, 6), "extensions");
    var sessionId :- ExpectBytes32(IntMapGet(v, 7), "session_id");
    var signature :- ExpectBytes(IntMapGet(v, 8), "signature");
    var expiresAt :- ExpectU64(IntMapGet(v, 9), "expires_at");
    var keyAlgorithm :- ExpectU64(IntMapGet(v, 10), "key_algorithm");
    Ok(ServerHello(protocolVersion, agentId, publicKey, nonce, capabilities, extensions,
                   sessionId, signature, expiresAt, keyAlgorithm))
  }

  function ClientFinishedUnsignedFields(m: ClientFinished): seq<Entry<i64>> {
    [ Entry(1, ByteString(m.sessionId)) ]
  }

  function ClientFinishedFields(m: ClientFinished): seq<Entry<i64>> {
    [ Entry(1, ByteString(m.sessionId)), Entry(2, ByteString(m.signature)) ]
  }

  function ClientFinishedFromCbor(v: Value): HandshakeResult<ClientFinished> {
    var sessionId :- ExpectBytes32(IntMapGet(v, 1), "session_id");
    var signature :- ExpectBytes(IntMapGet(v, 2), "signature");
    Ok(ClientFinished(sessionId, signature))
  }

  /** The octets folded into the transcript and signed. */
  function ClientHelloSigned(m: ClientHello): bytes { Encode(IntMap(ClientHelloUnsignedFields(m))) }
  function ServerHelloSigned(m: ServerHello): bytes { Encode(IntMap(ServerHelloUnsignedFields(m))) }
  function ClientFinishedSigned(m: ClientFinished): bytes { Encode(IntMap(ClientFinishedUnsignedFields(m))) }

  /** The octets sent. */
  function ClientHelloWire(m: ClientHello): bytes { Encode(IntMap(ClientHelloFields(m))) }
  function ServerHelloWire(m: ServerHello): bytes { Encode(IntMap(ServerHelloFields(m))) }
  function ClientFinishedWire(m: ClientFinished): bytes { Encode(IntMap(ClientFinishedFields(m))) }

  /** What a receiver makes of octets: decode the first value, then pick its fields. */
  function ReceiveValue(data: bytes): HandshakeResult<Value> {
    var r := CborDecode.Decoded(data);
    if r.Ok? then Ok(r.value.value) else Err(Cbor(r.error))
  }

  function ReceiveClientHello(data: bytes): HandshakeResult<ClientHello> {
    var v :- ReceiveValue(data);
    ClientHelloFromCbor(v)
  }

  function ReceiveServerHello(data: bytes): HandshakeResult<ServerHello> {
    var v :- ReceiveValue(data);
    ServerHelloFromCbor(v)
  }

  function ReceiveClientFinished(data: bytes): HandshakeResult<ClientFinished> {
    var v :- ReceiveValue(data);
    ClientFinishedFromCbor(v)
  }

  // -------------------------------------------------- lookup through the canonical form

  lemma {:induction false} LookupMember(es: seq<Entry<i64>>, e: Entry<i64>)
    requires DistinctKeys(es) && e in es
    ensures Lookup(es, e.key) == Some(e.value)
  {
    if es[0] != e {
      var i :| 1 <= i < |es| && es[i] == e;
      assert es[0].key != es[i].key;
      LookupMember(es[1..], e);
    }
  }

  lemma {:induction false} LookupAbsent(es: seq<Entry<i64>>, key: i64)
    requires forall e :: e in es ==> e.key != key
    ensures Lookup(es, key) == None
  {
    if es != [] {
      assert es[0] in es;
      LookupAbsent(es[1..], key);
    }
  }

  /** Looking up finds the first entry with the key, also where a key is repeated. */
  lemma {:induction false} LookupFirst(es: seq<Entry<i64>>, key: i64, i: nat)
    requires i < |es| && es[i].key == key && forall j :: 0 <= j < i ==> es[j].key != key
    ensures Lookup(es, key) == Some(es[i].value)
  {
    if i > 0 {
      assert forall j :: 0 <= j < i - 1 ==> es[1..][j] == es[j + 1];
      LookupFirst(es[1..], key, i - 1);
    }
  }

  /** A field of a decoded map is the canonical form of the field that was sent. */
  lemma {:induction false} FieldSurvives(es: seq<Entry<i64>>, i: nat)
    requires DistinctKeys(es) && i < |es|
    ensures IntMapGet(Canon(IntMap(es)), es[i].key) == Some(Canon(es[i].value))
  {
    hide Sort, CanonEntries, Lookup;
    var cs := CanonEntries(es);
    assert DistinctKeys(cs);
    SortDistinct(cs, IntKeyLess);
    SameMembers(cs, Sort(cs, IntKeyLess));
    LookupMember(Sort(cs, IntKeyLess), cs[i]);
  }

  lemma {:induction false} FieldAbsent(es: seq<Entry<i64>>, key: i64)
    requires forall i :: 0 <= i < |es| ==> es[i].key != key
    ensures IntMapGet(Canon(IntMap(es)), key) == None
  {
    hide Sort, CanonEntries, Lookup;
    var cs := CanonEntries(es);
    SameMembers(cs, Sort(cs, IntKeyLess));
    forall e | e in Sort(cs, IntKeyLess) ensures e.key != key {
      assert e in cs;
    }
    LookupAbsent(Sort(cs, IntKeyLess), key);
  }

  lemma {:induction false} LookupConcat(a: seq<Entry<i64>>, b: seq<Entry<i64>>, key: i64)
    ensures Lookup(a + b, key) == if Lookup(a, key).Some? then Lookup(a, key) else Lookup(b, key)
  {
    if a == [] {
      assert a + b == b;
    } else {
      assert (a + b)[1..] == a[1..] + b;
      LookupConcat(a[1..], b, key);
    }
  }

  /** Leaving a field out affects lookups of that field only. */
  lemma {:induction false} LookupOmit(a: seq<Entry<i64>>, e: Entry<i64>, b: seq<Entry<i64>>, key: i64)
    ensures e.key != key ==> Lookup(a + [e] + b, key) == Lookup(a + b, key)
  {
    LookupConcat(a + [e], b, key);
    LookupConcat(a, [e], key);
    LookupConcat(a, b, key);
  }

  /** A ClientHello's signature covers every field but the signature and the MAC. */
  lemma {:induction false} ClientHelloUnsignedDrops(m: ClientHello, key: i64)
    ensures Lookup(ClientHelloUnsignedFields(m), key) ==
            if key == 7 || key == 9 then None else Lookup(ClientHelloFields(m), key)
  {
    hide Lookup;
    var all, some := ClientHelloFields(m), ClientHelloUnsignedFields(m);
    if key == 7 || key == 9 {
      LookupAbsent(some, key);
    } else {
      assert some == all[..6] + all[7..9];
      assert all[..9] == all[..6] + [all[6]] + all[7..9];
      LookupOmit(all[..6], all[6], all[7..9], key);
      if m.receiverMac.Some? {
        assert all == all[..9] + [all[9]] + [] && all[..9] == all[..9] + [];
        LookupOmit(all[..9], all[9], [], key);
      } else {
        assert all == all[..9];
      }
    }
  }

  /** A ServerHello's signature covers every field but the signature. */
  lemma {:induction false} ServerHelloUnsignedDrops(m: ServerHello, key: i64)
    ensures Lookup(ServerHelloUnsignedFields(m), key) == if key == 8 then None else Lookup(ServerHelloFields(m), key)
  {
    hide Lookup;
    var all, some := ServerHelloFields(m), ServerHelloUnsignedFields(m);
    if key == 8 {
      LookupAbsent(some, key);
    } else {
      assert some == all[..7] + all[8..] && all == all[..7] + [all[7]] + all[8..];
      LookupOmit(all[..7], all[7], all[8..], key);
    }
  }

  // -------------------------------------------------------------- what may be sent

  const MAX_FIELD_HEIGHT: nat := 98

  predicate GoodValues(vs: seq<Value>) {
    forall i :: 0 <= i < |vs| ==> WellFormed(vs[i]) && Height(vs[i]) <= MAX_FIELD_HEIGHT
  }

  predicate LeafOrGoodArray(v: Value) {
    v.Unsigned? || v.ByteString? || (v.Array? && GoodValues(v.items))
  }

  lemma {:induction false} GoodField(v: Value)
    requires v.Unsigned? || v.ByteString? || v.Array?
    ensures WellFormed(v) && Height(v) <= MAX_FIELD_HEIGHT + 1 <==> LeafOrGoodArray(v)
  {
    if v.Array? { HeightAllBound(v.items, MAX_FIELD_HEIGHT); }
  }

  /** A map of plain fields and arrays is decodable exactly when its arrays hold good values. */
  lemma {:induction false} GoodMessage(es: seq<Entry<i64>>)
    requires DistinctKeys(es)
    requires forall i :: 0 <= i < |es| ==> es[i].value.Unsigned? || es[i].value.ByteString? || es[i].value.Array?
    ensures WellFormed(IntMap(es)) && Height(IntMap(es)) <= CborDecode.MAX_DECODE_DEPTH <==>
            forall i :: 0 <= i < |es| ==> LeafOrGoodArray(es[i].value)
  {
    hide DistinctKeys, LeafOrGoodArray;
    HeightEntriesBound(es, MAX_FIELD_HEIGHT + 1);
    forall i | 0 <= i < |es|
      ensures WellFormed(es[i].value) && Height(es[i].value) <= MAX_FIELD_HEIGHT + 1 <==> LeafOrGoodArray(es[i].value)
    {
      GoodField(es[i].value);
    }
  }

  predicate GoodClientHello(m: ClientHello) { GoodValues(m.capabilities) && GoodValues(m.extensions) }
  predicate GoodServerHello(m: ServerHello) { GoodValues(m.capabilities) && GoodValues(m.extensions) }

  /** A hello with its nested values in canonical form. */
  function CanonClientHello(m: ClientHello): ClientHello {
    m.(capabilities := CanonAll(m.capabilities), extensions := CanonAll(m.extensions))
  }

  function CanonServerHello(m: ServerHello): ServerHello {
    m.(capabilities := CanonAll(m.capabilities), extensions := CanonAll(m.extensions))
  }

  // ------------------------------------------------------- messages survive the wire

  lemma {:induction false} ReceiveMap(es: seq<Entry<i64>>, suffix: bytes)
    requires DistinctKeys(es) && |Encode(IntMap(es)) + suffix| < TWO_64
    requires forall i :: 0 <= i < |es| ==> es[i].value.Unsigned? || es[i].value.ByteString? || es[i].value.Array?
    ensures var r := ReceiveValue(Encode(IntMap(es)) + suffix);
            if forall i :: 0 <= i < |es| ==> LeafOrGoodArray(es[i].value) then r == Ok(Canon(IntMap(es))) else r.Err?
  {
    hide Emit, Canon, CborDecode.ValueAt, WellFormed, Height, DistinctKeys, LeafOrGoodArray;
    RoundTrip(IntMap(es), suffix);
    GoodMessage(es);
  }

  lemma {:induction false} ClientHelloDecodes(m: ClientHello)
    ensures ClientHelloFromCbor(Canon(IntMap(ClientHelloFields(m)))) == Ok(CanonClientHello(m))
  {
    hide Canon, IntMapGet, CanonAll;
    var es := ClientHelloFields(m);
    assert DistinctKeys(es);
    FieldSurvives(es, 0); FieldSurvives(es, 1); FieldSurvives(es, 2);
    FieldSurvives(es, 3); FieldSurvives(es, 4); FieldSurvives(es, 5);
    FieldSurvives(es, 6); FieldSurvives(es, 7); FieldSurvives(es, 8);
    if m.receiverMac.Some? { FieldSurvives(es, 9); } else { FieldAbsent(es, 9); }
    CanonFields(m.capabilities, m.extensions);
    LeafCanon(es);
  }

  lemma CanonFields(a: seq<Value>, b: seq<Value>)
    ensures Canon(Array(a)) == Array(CanonAll(a)) && Canon(Array(b)) == Array(CanonAll(b))
  {}

  lemma LeafCanon(es: seq<Entry<i64>>)
    ensures forall i :: 0 <= i < |es| && (es[i].value.Unsigned? || es[i].value.ByteString?) ==>
              Canon(es[i].value) == es[i].value
  {}

  /** Rebuilding the unsigned form from canonical nested values gives the octets that were
      signed with the original ones. */
  lemma {:induction false} SameFieldsSameOctets(es: seq<Entry<i64>>, fs: seq<Entry<i64>>)
    requires |es| == |fs|
    requires forall i :: 0 <= i < |es| ==> es[i].key == fs[i].key && Canon(es[i].value) == Canon(fs[i].value)
    ensures Encode(IntMap(es)) == Encode(IntMap(fs))
  {
    hide Sort, Emit, CanonEntries;
    assert CanonEntries(es) == CanonEntries(fs);
  }

  lemma {:induction false} CanonArrayAgain(a: seq<Value>)
    ensures Canon(Array(CanonAll(a))) == Canon(Array(a))
  {
    CanonIdempotent(Array(a));
  }

  /** A ClientHello arrives exactly when its capabilities and extensions are well formed and
      at most 98 levels deep; it arrives with them in canonical form, and the octets its
      receiver folds and verifies are the octets its sender folded and signed. */
  lemma {:induction false} ClientHelloSurvives(m: ClientHello, suffix: bytes)
    requires |ClientHelloWire(m) + suffix| < TWO_64
    ensures GoodClientHello(m) ==> ReceiveClientHello(ClientHelloWire(m) + suffix) == Ok(CanonClientHello(m))
    ensures !GoodClientHello(m) ==> ReceiveClientHello(ClientHelloWire(m) + suffix).Err?
    ensures ClientHelloSigned(CanonClientHello(m)) == ClientHelloSigned(m)
  {
    hide Canon, Encode, ReceiveValue, ClientHelloFromCbor, CanonAll, GoodValues;
    var es := ClientHelloFields(m);
    assert DistinctKeys(es);
    ReceiveMap(es, suffix);
    ClientHelloDecodes(m);
    assert (forall i :: 0 <= i < |es| ==> LeafOrGoodArray(es[i].value)) <==> GoodClientHello(m) by {
      assert es[4].value == Array(m.capabilities) && es[5].value == Array(m.extensions);
    }
    CanonArrayAgain(m.capabilities);
    CanonArrayAgain(m.extensions);
    SameFieldsSameOctets(ClientHelloUnsignedFields(CanonClientHello(m)), ClientHelloUnsignedFields(m));
  }

  lemma {:induction false} ServerHelloDecodes(m: ServerHello)
    ensures ServerHelloFromCbor(Canon(IntMap(ServerHelloFields(m)))) == Ok(CanonServerHello(m))
  {
    hide Canon, IntMapGet, CanonAll;
    var es := ServerHelloFields(m);
    assert DistinctKeys(es);
    FieldSurvives(es, 0); FieldSurvives(es, 1); FieldSurvives(es, 2); FieldSurvives(es, 3); FieldSurvives(es, 4);
    FieldSurvives(es, 5); FieldSurvives(es, 6); FieldSurvives(es, 7); FieldSurvives(es, 8); FieldSurvives(es, 9);
    CanonFields(m.capabilities, m.extensions);
    LeafCanon(es);
  }

  lemma {:induction false} ServerHelloSurvives(m: ServerHello, suffix: bytes)
    requires |ServerHelloWire(m) + suffix| < TWO_64
    ensures GoodServerHello(m) ==> ReceiveServerHello(ServerHelloWire(m) + suffix) == Ok(CanonServerHello(m))
    ensures !GoodServerHello(m) ==> ReceiveServerHello(ServerHelloWire(m) + suffix).Err?
    ensures ServerHelloSigned(CanonServerHello(m)) == ServerHelloSigned(m)
  {
    hide Canon, Encode, ReceiveValue, ServerHelloFromCbor, CanonAll, GoodValues;
    var es := ServerHelloFields(m);
    assert DistinctKeys(es);
    ReceiveMap(es, suffix);
    ServerHelloDecodes(m);
    assert (forall i :: 0 <= i < |es| ==> LeafOrGoodArray(es[i].value)) <==> GoodServerHello(m) by {
      assert es[4].value == Array(m.capabilities) && es[5].value == Array(m.extensions);
    }
    CanonArrayAgain(m.capabilities);
    CanonArrayAgain(m.extensions);
    SameFieldsSameOctets(ServerHelloUnsignedFields(CanonServerHello(m)), ServerHelloUnsignedFields(m));
  }

  lemma {:induction false} ClientFinishedSurvives(m: ClientFinished, suffix: bytes)
    requires |ClientFinishedWire(m) + suffix| < TWO_64
    ensures ReceiveClientFinished(ClientFinishedWire(m) + suffix) == Ok(m)
  {
    hide Canon, Encode, ReceiveValue, IntMapGet;
    var es := ClientFinishedFields(m);
    assert DistinctKeys(es);
    ReceiveMap(es, suffix);
    FieldSurvives(es, 0); FieldSurvives(es, 1);
    LeafCanon(es);
  }

  // -------------------------------------------------- signed octets fix the content

  /** What a hello's signature covers: in nested maps, up to how the entries of different keys
      are interleaved. */
  function ClientHelloContent(m: ClientHello): ClientHello {
    CanonClientHello(m).(signature := [], receiverMac := None)
  }

  function ServerHelloContent(m: ServerHello): ServerHello {
    CanonServerHello(m).(signature := [])
  }

  lemma {:induction false} SameOctetsSameMap(es: seq<Entry<i64>>, fs: seq<Entry<i64>>)
    requires |Encode(IntMap(es))| < TWO_64 && Encode(IntMap(es)) == Encode(IntMap(fs))
    ensures Canon(IntMap(es)) == Canon(IntMap(fs))
  {
    hide Encode, Canon, Same;
    EncodingInjective(IntMap(es), IntMap(fs));
    SameIffCanon(IntMap(es), IntMap(fs));
  }

  /** Two ClientHellos that sign the same octets agree on everything but signature and MAC,
      whatever their capabilities and extensions: a received one may hold maps with repeated
      keys. */
  lemma {:induction false} ClientHelloSignedDetermines(m: ClientHello, n: ClientHello)
    requires |ClientHelloSigned(m)| < TWO_64 && ClientHelloSigned(m) == ClientHelloSigned(n)
    ensures ClientHelloContent(m) == ClientHelloContent(n)
  {
    hide Canon, Encode, IntMapGet, CanonAll;
    var es, fs := ClientHelloUnsignedFields(m), ClientHelloUnsignedFields(n);
    assert DistinctKeys(es) && DistinctKeys(fs);
    SameOctetsSameMap(es, fs);
    SameFieldsFrom(es, fs);
    CanonFields(m.capabilities, m.extensions);
    CanonFields(n.capabilities, n.extensions);
    LeafCanon(es);
    LeafCanon(fs);
    assert Canon(es[0].value) == Canon(fs[0].value) && Canon(es[1].value) == Canon(fs[1].value);
    assert Canon(es[2].value) == Canon(fs[2].value) && Canon(es[3].value) == Canon(fs[3].value);
    assert Canon(es[4].value) == Canon(fs[4].value) && Canon(es[5].value) == Canon(fs[5].value);
    assert Canon(es[6].value) == Canon(fs[6].value) && Canon(es[7].value) == Canon(fs[7].value);
  }

  lemma {:induction false} SameFieldsFrom(es: seq<Entry<i64>>, fs: seq<Entry<i64>>)
    requires DistinctKeys(es) && DistinctKeys(fs) && |es| == |fs|
    requires forall i :: 0 <= i < |es| ==> es[i].key == fs[i].key
    requires Canon(IntMap(es)) == Canon(IntMap(fs))
    ensures forall i :: 0 <= i < |es| ==> Canon(es[i].value) == Canon(fs[i].value)
  {
    hide Canon, IntMapGet, DistinctKeys;
    forall i | 0 <= i < |es| ensures Canon(es[i].value) == Canon(fs[i].value) {
      FieldSurvives(es, i);
      FieldSurvives(fs, i);
    }
  }

  lemma {:induction false} ServerHelloSignedDetermines(m: ServerHello, n: ServerHello)
    requires |ServerHelloSigned(m)| < TWO_64 && ServerHelloSigned(m) == ServerHelloSigned(n)
    ensures ServerHelloContent(m) == ServerHelloContent(n)
  {
    hide Canon, Encode, IntMapGet, CanonAll;
    var es, fs := ServerHelloUnsignedFields(m), ServerHelloUnsignedFields(n);
    assert DistinctKeys(es) && DistinctKeys(fs);
    SameOctetsSameMap(es, fs);
    SameFieldsFrom(es, fs);
    CanonFields(m.capabilities, m.extensions);
    CanonFields(n.capabilities, n.extensions);
    LeafCanon(es);
    LeafCanon(fs);
    assert Canon(es[0].value) == Canon(fs[0].value) && Canon(es[1].value) == Canon(fs[1].value);
    assert Canon(es[2].value) == Canon(fs[2].value) && Canon(es[3].value) == Canon(fs[3].value);
    assert Canon(es[4].value) == Canon(fs[4].value) && Canon(es[5].value) == Canon(fs[5].value);
    assert Canon(es[6].value) == Canon(fs[6].value) && Canon(es[7].value) == Canon(fs[7].value);
    assert Canon(es[8].value) == Canon(fs[8].value);
  }

  lemma {:induction false} ClientFinishedSignedDetermines(m: ClientFinished, n: ClientFinished)
    requires |ClientFinishedSigned(m)| < TWO_64 && ClientFinishedSigned(m) == ClientFinishedSigned(n)
    ensures m.sessionId == n.sessionId
  {
    hide Canon, Encode, IntMapGet;
    var es, fs := ClientFinishedUnsignedFields(m), ClientFinishedUnsignedFields(n);
    assert DistinctKeys(es) && DistinctKeys(fs);
    SameOctetsSameMap(es, fs);
    SameFieldsFrom(es, fs);
    LeafCanon(es);
    LeafCanon(fs);
    assert Canon(es[0].value) == Canon(fs[0].value);
  }
}
