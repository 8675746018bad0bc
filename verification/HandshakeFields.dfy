/** The CBOR forms of the handshake messages in numbers: which key holds which field, on the
    wire, under the signature and when read, and what is refused. */
module HandshakeFields {
  import opened Bytes
  import opened CborValue
  import opened CborEncode
  import opened HandshakeMessages
  import opened Wrappers

  // ------------------------------------------------------------------ which key is what

  function ClientHelloField(m: ClientHello, key: i64): Option<Value> {
    if key == 1 then Some(Unsigned(m.protocolVersion))
    else if key == 2 then Some(ByteString(m.agentId))
    else if key == 3 then Some(ByteString(m.publicKey))
    else if key == 4 then Some(ByteString(m.nonce))
    else if key == 5 then Some(Array(m.capabilities))
    else if key == 6 then Some(Array(m.extensions))
    else if key == 7 then Some(ByteString(m.signature))
    else if key == 8 then Some(Unsigned(m.expiresAt))
    else if key == 9 then if m.receiverMac.Some? then Some(ByteString(m.receiverMac.value)) else None
    else if key == 10 then Some(Unsigned(m.keyAlgorithm))
    else None
  }

  function ServerHelloField(m: ServerHello, key: i64): Option<Value> {
    if key == 1 then Some(Unsigned(m.protocolVersion))
    else if key == 2 then Some(ByteString(m.agentId))
    else if key == 3 then Some(ByteString(m.publicKey))
    else if key == 4 then Some(ByteString(m.nonce))
    else if key == 5 then Some(Array(m.capabilities))
    else if key == 6 then Some(Array(m.extensions))
    else if key == 7 then Some(ByteString(m.sessionId))
    else if key == 8 then Some(ByteString(m.signature))
    else if key == 9 then Some(Unsigned(m.expiresAt))
    else if key == 10 then Some(Unsigned(m.keyAlgorithm))
    else None
  }

  function ClientFinishedField(m: ClientFinished, key: i64): Option<Value> {
    if key == 1 then Some(ByteString(m.sessionId))
    else if key == 2 then Some(ByteString(m.signature))
    else None
  }

  /** Looking a key up in entries that carry these fields. */
  lemma {:induction false} LookupIs(es: seq<Entry<i64>>, key: i64, v: Option<Value>)
    requires DistinctKeys(es)
    requires v.Some? ==> Entry(key, v.value) in es
    requires v.None? ==> forall i :: 0 <= i < |es| ==> es[i].key != key
    ensures Lookup(es, key) == v
  {
    if v.Some? {
      LookupMember(es, Entry(key, v.value));
    } else {
      forall e | e in es ensures e.key != key { var i :| 0 <= i < |es| && es[i] == e; }
      LookupAbsent(es, key);
    }
  }

  lemma {:induction false} ClientHelloNumbered(m: ClientHello, key: i64)
    ensures Lookup(ClientHelloFields(m), key) == ClientHelloField(m, key)
    ensures Lookup(ClientHelloUnsignedFields(m), key) == if key == 7 || key == 9 then None else ClientHelloField(m, key)
  {
    hide Lookup;
    var es := ClientHelloFields(m);
    ClientHelloUnsignedDrops(m, key);
    assert 1 <= key <= 8 ==> es[key - 1] in es;
    assert es[8] in es && (m.receiverMac.Some? ==> es[9] in es);
    LookupIs(es, key, ClientHelloField(m, key));
  }

  lemma {:induction false} ServerHelloNumbered(m: ServerHello, key: i64)
    ensures Lookup(ServerHelloFields(m), key) == ServerHelloField(m, key)
    ensures Lookup(ServerHelloUnsignedFields(m), key) == if key == 8 then None else ServerHelloField(m, key)
  {
    hide Lookup;
    var es := ServerHelloFields(m);
    ServerHelloUnsignedDrops(m, key);
    assert 1 <= key <= 10 ==> es[key - 1] in es;
    LookupIs(es, key, ServerHelloField(m, key));
  }

  lemma {:induction false} ClientFinishedNumbered(m: ClientFinished, key: i64)
    ensures Lookup(ClientFinishedFields(m), key) == ClientFinishedField(m, key)
    ensures Lookup(ClientFinishedUnsignedFields(m), key) == if key == 2 then None else ClientFinishedField(m, key)
  {
    hide Lookup;
    var es, some := ClientFinishedFields(m), ClientFinishedUnsignedFields(m);
    assert 1 <= key <= 2 ==> es[key - 1] in es;
    assert some[0] in some;
    LookupIs(es, key, ClientFinishedField(m, key));
    LookupIs(some, key, if key == 2 then None else ClientFinishedField(m, key));
  }

  // ------------------------------------------------------------------------ on the wire

  function CanonField(v: Option<Value>): Option<Value> { if v.None? then None else Some(Canon(v.value)) }

  /** A decoded map holds the canonical form of each field that was sent. */
  lemma {:induction false} CanonLookup(es: seq<Entry<i64>>, key: i64)
    requires DistinctKeys(es)
    ensures IntMapGet(Canon(IntMap(es)), key) == CanonField(Lookup(es, key))
  {
    hide Canon, IntMapGet, Lookup;
    if i :| 0 <= i < |es| && es[i].key == key {
      FieldSurvives(es, i);
      LookupMember(es, es[i]);
    } else {
      FieldAbsent(es, key);
      LookupIs(es, key, None);
    }
  }

  /** What stands under each key of a ClientHello on the wire. */
  lemma {:induction false} ClientHelloOnWire(m: ClientHello, suffix: bytes, key: i64)
    requires GoodClientHello(m) && |ClientHelloWire(m) + suffix| < TWO_64
    ensures var r := ReceiveValue(ClientHelloWire(m) + suffix);
            r.Ok? && IntMapGet(r.value, key) == CanonField(ClientHelloField(m, key))
  {
    hide Canon, Encode, ReceiveValue, IntMapGet, Lookup, GoodValues;
    var es := ClientHelloFields(m);
    assert DistinctKeys(es);
    ReceiveMap(es, suffix);
    assert es[4].value == Array(m.capabilities) && es[5].value == Array(m.extensions);
    CanonLookup(es, key);
    ClientHelloNumbered(m, key);
  }

  /** The same for a ServerHello. */
  lemma {:induction false} ServerHelloOnWire(m: ServerHello, suffix: bytes, key: i64)
    requires GoodServerHello(m) && |ServerHelloWire(m) + suffix| < TWO_64
    ensures var r := ReceiveValue(ServerHelloWire(m) + suffix);
            r.Ok? && IntMapGet(r.value, key) == CanonField(ServerHelloField(m, key))
  {
    hide Canon, Encode, ReceiveValue, IntMapGet, Lookup, GoodValues;
    var es := ServerHelloFields(m);
    assert DistinctKeys(es);
    ReceiveMap(es, suffix);
    assert es[4].value == Array(m.capabilities) && es[5].value == Array(m.extensions);
    CanonLookup(es, key);
    ServerHelloNumbered(m, key);
  }

  /** The same for a ClientFinished. */
  lemma {:induction false} ClientFinishedOnWire(m: ClientFinished, suffix: bytes, key: i64)
    requires |ClientFinishedWire(m) + suffix| < TWO_64
    ensures var r := ReceiveValue(ClientFinishedWire(m) + suffix);
            r.Ok? && IntMapGet(r.value, key) == CanonField(ClientFinishedField(m, key))
  {
    hide Canon, Encode, ReceiveValue, IntMapGet, Lookup;
    var es := ClientFinishedFields(m);
    assert DistinctKeys(es);
    ReceiveMap(es, suffix);
    CanonLookup(es, key);
    ClientFinishedNumbered(m, key);
  }

  // ------------------------------------------------------------------------ when read

  datatype Kind = Number | Octets | ThirtyTwoOctets | Values | OptionalOctets
  datatype FieldSpec = FieldSpec(key: i64, name: string, kind: Kind)

  const CLIENT_HELLO: seq<FieldSpec> :=
    [FieldSpec(1, "protocol_version", Number), FieldSpec(2, "agent_id", Octets), FieldSpec(3, "public_key", Octets),
     FieldSpec(4, "nonce", ThirtyTwoOctets), FieldSpec(5, "capabilities", Values), FieldSpec(6, "extensions", Values),
     FieldSpec(7, "signature", Octets), FieldSpec(8, "expires_at", Number),
     FieldSpec(9, "receiver_mac", OptionalOctets), FieldSpec(10, "key_algorithm", Number)]

  const SERVER_HELLO: seq<FieldSpec> :=
    [FieldSpec(1, "protocol_version", Number), FieldSpec(2, "agent_id", Octets), FieldSpec(3, "public_key", Octets),
     FieldSpec(4, "nonce", ThirtyTwoOctets), FieldSpec(5, "capabilities", Values), FieldSpec(6, "extensions", Values),
     FieldSpec(7, "session_id", ThirtyTwoOctets), FieldSpec(8, "signature", Octets),
     FieldSpec(9, "expires_at", Number), FieldSpec(10, "key_algorithm", Number)]

  const CLIENT_FINISHED: seq<FieldSpec> :=
    [FieldSpec(1, "session_id", ThirtyTwoOctets), FieldSpec(2, "signature", Octets)]

  predicate OfKind(v: Value, kind: Kind) {
    match kind
    case Number => v.Unsigned?
    case Octets => v.ByteString?
    case ThirtyTwoOctets => v.ByteString? && |v.octets| == 32
    case Values => v.Array?
    case OptionalOctets => v.ByteString?
  }

  /** What is wrong with a field, if anything: it is missing, or not of its kind. */
  function Problem(v: Value, f: FieldSpec): Option<HandshakeError> {
    var x := IntMapGet(v, f.key);
    if x.None? then if f.kind.OptionalOctets? then None else Some(MissingField(f.name))
    else if OfKind(x.value, f.kind) then None
    else Some(InvalidField(f.name))
  }

  /** What is wrong with the first field, from the `k`th on, that has something wrong with it. */
  function FirstProblem(v: Value, fs: seq<FieldSpec>, k: nat): Option<HandshakeError>
    decreases |fs| - k
  {
    if k >= |fs| then None
    else if Problem(v, fs[k]).Some? then Problem(v, fs[k])
    else FirstProblem(v, fs, k + 1)
  }

  lemma FirstStep(v: Value, fs: seq<FieldSpec>, k: nat)
    ensures k >= |fs| ==> FirstProblem(v, fs, k) == None
    ensures k < |fs| && Problem(v, fs[k]).Some? ==> FirstProblem(v, fs, k) == Problem(v, fs[k])
    ensures k < |fs| && Problem(v, fs[k]).None? ==> FirstProblem(v, fs, k) == FirstProblem(v, fs, k + 1)
  {
    hide Problem;
  }

  lemma NumberRead(v: Value, key: i64, name: string)
    ensures var r := ExpectU64(IntMapGet(v, key), name);
            var problem := Problem(v, FieldSpec(key, name, Number));
            if r.Err? then problem == Some(r.error)
            else problem == None && IntMapGet(v, key) == Some(Unsigned(r.value))
  {
    hide IntMapGet;
  }

  lemma OctetsRead(v: Value, key: i64, name: string)
    ensures var r := ExpectBytes(IntMapGet(v, key), name);
            var problem := Problem(v, FieldSpec(key, name, Octets));
            if r.Err? then problem == Some(r.error)
            else problem == None && IntMapGet(v, key) == Some(ByteString(r.value))
  {
    hide IntMapGet;
  }

  lemma DigestRead(v: Value, key: i64, name: string)
    ensures var r := ExpectBytes32(IntMapGet(v, key), name);
            var problem := Problem(v, FieldSpec(key, name, ThirtyTwoOctets));
            if r.Err? then problem == Some(r.error)
            else problem == None && IntMapGet(v, key) == Some(ByteString(r.value))
  {
    hide IntMapGet;
  }

  lemma ValuesRead(v: Value, key: i64, name: string)
    ensures var r := ExpectArray(IntMapGet(v, key), name);
            var problem := Problem(v, FieldSpec(key, name, Values));
            if r.Err? then problem == Some(r.error)
            else problem == None && IntMapGet(v, key) == Some(Array(r.value))
  {
    hide IntMapGet;
  }

  lemma OptionalRead(v: Value, key: i64, name: string)
    ensures var r := OptionalBytes(IntMapGet(v, key), name);
            var problem := Problem(v, FieldSpec(key, name, OptionalOctets));
            if r.Err? then problem == Some(r.error)
            else problem == None &&
                 IntMapGet(v, key) == if r.value.Some? then Some(ByteString(r.value.value)) else None
  {
    hide IntMapGet;
  }

  /** Reading a message out of a value: the first problem is reported; without one, every field
      comes from its key. */
  lemma {:induction false} ClientHelloRead(v: Value)
    ensures var r := ClientHelloFromCbor(v);
            var problem := FirstProblem(v, CLIENT_HELLO, 0);
            if r.Err? then problem == Some(r.error)
            else problem == None &&
                 forall key :: 1 <= key <= 10 ==> ClientHelloField(r.value, key) == IntMapGet(v, key)
  {
    hide IntMapGet, FirstProblem, Problem, ExpectU64, ExpectBytes, ExpectBytes32, ExpectArray, OptionalBytes;
    NumberRead(v, 1, "protocol_version");
    OctetsRead(v, 2, "agent_id");
    OctetsRead(v, 3, "public_key");
    DigestRead(v, 4, "nonce");
    ValuesRead(v, 5, "capabilities");
    ValuesRead(v, 6, "extensions");
    OctetsRead(v, 7, "signature");
    NumberRead(v, 8, "expires_at");
    OptionalRead(v, 9, "receiver_mac");
    NumberRead(v, 10, "key_algorithm");
    FirstStep(v, CLIENT_HELLO, 0);
    FirstStep(v, CLIENT_HELLO, 1);
    FirstStep(v, CLIENT_HELLO, 2);
    FirstStep(v, CLIENT_HELLO, 3);
    FirstStep(v, CLIENT_HELLO, 4);
    FirstStep(v, CLIENT_HELLO, 5);
    FirstStep(v, CLIENT_HELLO, 6);
    FirstStep(v, CLIENT_HELLO, 7);
    FirstStep(v, CLIENT_HELLO, 8);
    FirstStep(v, CLIENT_HELLO, 9);
    FirstStep(v, CLIENT_HELLO, 10);
  }

  lemma {:induction false} ServerHelloRead(v: Value)
    ensures var r := ServerHelloFromCbor(v);
            var problem := FirstProblem(v, SERVER_HELLO, 0);
            if r.Err? then problem == Some(r.error)
            else problem == None &&
                 forall key :: 1 <= key <= 10 ==> ServerHelloField(r.value, key) == IntMapGet(v, key)
  {
    hide IntMapGet, FirstProblem, Problem, ExpectU64, ExpectBytes, ExpectBytes32, ExpectArray, OptionalBytes;
    NumberRead(v, 1, "protocol_version");
    OctetsRead(v, 2, "agent_id");
    OctetsRead(v, 3, "public_key");
    DigestRead(v, 4, "nonce");
    ValuesRead(v, 5, "capabilities");
    ValuesRead(v, 6, "extensions");
    DigestRead(v, 7, "session_id");
    OctetsRead(v, 8, "signature");
    NumberRead(v, 9, "expires_at");
    NumberRead(v, 10, "key_algorithm");
    FirstStep(v, SERVER_HELLO, 0);
    FirstStep(v, SERVER_HELLO, 1);
    FirstStep(v, SERVER_HELLO, 2);
    FirstStep(v, SERVER_HELLO, 3);
    FirstStep(v, SERVER_HELLO, 4);
    FirstStep(v, SERVER_HELLO, 5);
    FirstStep(v, SERVER_HELLO, 6);
    FirstStep(v, SERVER_HELLO, 7);
    FirstStep(v, SERVER_HELLO, 8);
    FirstStep(v, SERVER_HELLO, 9);
    FirstStep(v, SERVER_HELLO, 10);
  }

  lemma {:induction false} ClientFinishedRead(v: Value)
    ensures var r := ClientFinishedFromCbor(v);
            var problem := FirstProblem(v, CLIENT_FINISHED, 0);
            if r.Err? then problem == Some(r.error)
            else problem == None &&
                 forall key :: 1 <= key <= 2 ==> ClientFinishedField(r.value, key) == IntMapGet(v, key)
  {
    hide IntMapGet, FirstProblem, Problem, ExpectU64, ExpectBytes, ExpectBytes32, ExpectArray, OptionalBytes;
    DigestRead(v, 1, "session_id");
    OctetsRead(v, 2, "signature");
    FirstStep(v, CLIENT_FINISHED, 0);
    FirstStep(v, CLIENT_FINISHED, 1);
    FirstStep(v, CLIENT_FINISHED, 2);
  }
}
