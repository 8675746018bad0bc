/** The binary hello messages of the legacy handshake. Lengths are written into fixed-width
    fields with truncating casts, so what survives is exactly what fits. */
module LegacyHello {
  import opened Bytes
  import opened Wrappers

  const TYPE_CLIENT_HELLO: byte := 1
  const TYPE_SERVER_HELLO: byte := 2

  type Nonce8 = s: bytes | |s| == 8 witness seq(8, _ => 0)

  datatype KeyShare = KeyShare(algorithm: u16, share: bytes)

  datatype ClientHello = ClientHello(version: byte, keyShares: seq<KeyShare>, signatureAlgorithm: u16, nonce: Nonce8)

  datatype ServerHello = ServerHello(
    version: byte, selectedKex: u16, keyShare: bytes, publicKey: bytes, signature: bytes, nonce: Nonce8)

  const TWO_16: int := 0x1_0000
  const TWO_32: int := 0x1_0000_0000

  // --------------------------------------------------------------- fields at an offset

  /** The big-endian number in `width` octets at `pos`. */
  function NumberAt(data: bytes, pos: nat, width: nat): nat
    requires pos + width <= |data|
  {
    FromBigEndian(data[pos..pos + width])
  }

  lemma NumberThere(data: bytes, pos: nat, n: nat, width: nat)
    requires n < Pow256(width) && At(data, pos, BigEndian(n, width))
    ensures NumberAt(data, pos, width) == n
  {
    BigEndianRoundTrip(n, width);
  }

  lemma NumberBack(data: bytes, pos: nat, width: nat)
    requires pos + width <= |data|
    ensures At(data, pos, BigEndian(NumberAt(data, pos, width), width))
    ensures NumberAt(data, pos, width) < Pow256(width)
  {
    FromBigEndianRoundTrip(data[pos..pos + width]);
    FromBigEndianBound(data[pos..pos + width]);
  }

  function U16At(data: bytes, pos: nat): u16
    requires pos + 2 <= |data|
  {
    NumberBack(data, pos, 2);
    Pow256Values();
    NumberAt(data, pos, 2)
  }

  // ------------------------------------------------------------------- client hello

  function ShareBytes(s: KeyShare): bytes { BigEndian(s.algorithm, 2) + BigEndian(|s.share|, 2) + s.share }

  function SharesBytes(shares: seq<KeyShare>): bytes {
    if shares == [] then [] else ShareBytes(shares[0]) + SharesBytes(shares[1..])
  }

  function ClientBytes(h: ClientHello): bytes {
    [h.version, TYPE_CLIENT_HELLO] + BigEndian(|h.keyShares|, 2) + SharesBytes(h.keyShares)
    + (BigEndian(h.signatureAlgorithm, 2) + h.nonce)
  }

  predicate SharesFit(shares: seq<KeyShare>) {
    forall i :: 0 <= i < |shares| ==> |shares[i].share| < TWO_16
  }

  predicate ClientFits(h: ClientHello) { |h.keyShares| < TWO_16 && SharesFit(h.keyShares) }

  datatype SharesRead = SharesRead(shares: seq<KeyShare>, next: nat)

  /** `count` key shares from `pos` on, appended to those already read. */
  function SharesAt(data: bytes, pos: nat, count: nat, read: seq<KeyShare>): (r: Option<SharesRead>)
    requires pos <= |data|
    ensures r.Some? ==> pos <= r.value.next <= |data|
    decreases count
  {
    if count == 0 then Some(SharesRead(read, pos))
    else if pos + 4 > |data| then None
    else
      var len := U16At(data, pos + 2);
      if pos + 4 + len > |data| then None
      else SharesAt(data, pos + 4 + len, count - 1, read + [KeyShare(U16At(data, pos), data[pos + 4..pos + 4 + len])])
  }

  function ParseClient(data: bytes): Option<ClientHello> {
    if |data| < 4 || data[1] != TYPE_CLIENT_HELLO then None
    else
      var r := SharesAt(data, 4, U16At(data, 2), []);
      if r.None? || r.value.next + 10 > |data| then None
      else
        var p := r.value.next;
        Some(ClientHello(data[0], r.value.shares, U16At(data, p), data[p + 2..p + 10]))
  }

  /** `serialize_client_hello` */
  method SerializeClientHello(h: ClientHello) returns (out: bytes)
    ensures out == ClientBytes(h)
  {
    hide BigEndian;
    out := [h.version];
    out := out + [TYPE_CLIENT_HELLO];
    out := out + BigEndian(|h.keyShares|, 2);
    ghost var head := out;
    assert h.keyShares[0..] == h.keyShares;
    for i := 0 to |h.keyShares|
      invariant out + SharesBytes(h.keyShares[i..]) == head + SharesBytes(h.keyShares)
    {
      assert h.keyShares[i..][1..] == h.keyShares[i + 1..];
      assert SharesBytes(h.keyShares[i..]) == ShareBytes(h.keyShares[i]) + SharesBytes(h.keyShares[i + 1..]);
      ghost var before := out;
      out := out + BigEndian(h.keyShares[i].algorithm, 2);
      out := out + BigEndian(|h.keyShares[i].share|, 2);
      out := out + h.keyShares[i].share;
      assert out == before + ShareBytes(h.keyShares[i]);
    }
    assert h.keyShares[|h.keyShares|..] == [];
    assert out == head + SharesBytes(h.keyShares);
    ghost var body := out;
    out := out + BigEndian(h.signatureAlgorithm, 2);
    out := out + h.nonce;
    assert out == body + (BigEndian(h.signatureAlgorithm, 2) + h.nonce);
  }

  /** `deserialize_client_hello`: every read stays in the buffer. */
  method DeserializeClientHello(data: bytes) returns (r: Option<ClientHello>)
    ensures r == ParseClient(data)
  {
    if |data| < 4 { return None; }
    if data[1] != TYPE_CLIENT_HELLO { return None; }
    var count := U16At(data, 2);
    var offset := 4;
    var shares := [];
    for i := 0 to count
      invariant 4 <= offset <= |data|
      invariant SharesAt(data, 4, count, []) == SharesAt(data, offset, count - i, shares)
    {
      if offset + 4 > |data| { return None; }
      var alg, len := U16At(data, offset), U16At(data, offset + 2);
      offset := offset + 4;
      if offset + len > |data| { return None; }
      shares := shares + [KeyShare(alg, data[offset..offset + len])];
      offset := offset + len;
    }
    if offset + 10 > |data| { return None; }
    r := Some(ClientHello(data[0], shares, U16At(data, offset), data[offset + 2..offset + 10]));
  }

  lemma {:induction false} SharesAtBytes(data: bytes, pos: nat, shares: seq<KeyShare>, read: seq<KeyShare>)
    requires SharesFit(shares) && At(data, pos, SharesBytes(shares))
    ensures SharesAt(data, pos, |shares|, read) == Some(SharesRead(read + shares, pos + |SharesBytes(shares)|))
    decreases |shares|
  {
    if shares == [] {
      assert read + shares == read;
    } else {
      var s, rest := shares[0], shares[1..];
      AtConcat(data, pos, ShareBytes(s), SharesBytes(rest));
      ShareAt(data, pos, s);
      SharesAtBytes(data, pos + 4 + |s.share|, rest, read + [s]);
      assert read + [s] + rest == read + shares;
    }
  }

  lemma ShareLength(s: KeyShare)
    ensures |ShareBytes(s)| == 4 + |s.share|
  {}

  lemma {:induction false} ShareAt(data: bytes, pos: nat, s: KeyShare)
    requires |s.share| < TWO_16 && At(data, pos, ShareBytes(s))
    ensures pos + 4 + |s.share| <= |data| && U16At(data, pos) == s.algorithm && U16At(data, pos + 2) == |s.share|
    ensures data[pos + 4..pos + 4 + |s.share|] == s.share
  {
    Pow256Values();
    AtConcat(data, pos, BigEndian(s.algorithm, 2) + BigEndian(|s.share|, 2), s.share);
    AtConcat(data, pos, BigEndian(s.algorithm, 2), BigEndian(|s.share|, 2));
    NumberThere(data, pos, s.algorithm, 2);
    NumberThere(data, pos + 2, |s.share|, 2);
  }

  lemma {:induction false} SharesAtSound(data: bytes, pos: nat, count: nat, read: seq<KeyShare>)
    requires pos <= |data| && SharesAt(data, pos, count, read).Some?
    ensures var r := SharesAt(data, pos, count, read).value;
            && |r.shares| == |read| + count && r.shares[..|read|] == read
            && SharesFit(r.shares[|read|..])
            && At(data, pos, SharesBytes(r.shares[|read|..])) && r.next == pos + |SharesBytes(r.shares[|read|..])|
    decreases count
  {
    hide U16At, ShareBytes;
    var r := SharesAt(data, pos, count, read).value;
    if count == 0 {
      assert r.shares[|read|..] == [];
    } else {
      var len := U16At(data, pos + 2);
      var s := KeyShare(U16At(data, pos), data[pos + 4..pos + 4 + len]);
      SharesAtSound(data, pos + 4 + len, count - 1, read + [s]);
      var rest := r.shares[|read| + 1..];
      assert r.shares[|read|] == r.shares[..|read| + 1][|read|] == s;
      assert r.shares[|read|..] == [s] + rest;
      assert r.shares[..|read|] == r.shares[..|read| + 1][..|read|] == read;
      ShareLength(s);
      ShareBack(data, pos, s);
      AtConcat(data, pos, ShareBytes(s), SharesBytes(rest));
    }
  }

  lemma {:induction false} ShareBack(data: bytes, pos: nat, s: KeyShare)
    requires pos + 4 + |s.share| <= |data| && s.algorithm == U16At(data, pos) && |s.share| == U16At(data, pos + 2)
    requires s.share == data[pos + 4..pos + 4 + |s.share|]
    ensures At(data, pos, ShareBytes(s))
  {
    NumberBack(data, pos, 2);
    NumberBack(data, pos + 2, 2);
    AtConcat(data, pos, BigEndian(s.algorithm, 2), BigEndian(|s.share|, 2));
    AtConcat(data, pos, BigEndian(s.algorithm, 2) + BigEndian(|s.share|, 2), s.share);
  }

  /** Where the parts of a serialized client hello stand. */
  lemma {:induction false} ClientLayout(data: bytes, h: ClientHello)
    ensures At(data, 0, ClientBytes(h)) <==>
            var p := 4 + |SharesBytes(h.keyShares)|;
            && At(data, 0, [h.version, TYPE_CLIENT_HELLO]) && At(data, 2, BigEndian(|h.keyShares|, 2))
            && At(data, 4, SharesBytes(h.keyShares))
            && At(data, p, BigEndian(h.signatureAlgorithm, 2)) && At(data, p + 2, h.nonce)
  {
    hide At, BigEndian, SharesBytes;
    var top, n, mid := [h.version, TYPE_CLIENT_HELLO], BigEndian(|h.keyShares|, 2), SharesBytes(h.keyShares);
    var tail := BigEndian(h.signatureAlgorithm, 2) + h.nonce;
    AtConcat(data, 0, top + n + mid, tail);
    AtConcat(data, 0, top + n, mid);
    AtConcat(data, 0, top, n);
    AtConcat(data, 4 + |mid|, BigEndian(h.signatureAlgorithm, 2), h.nonce);
  }

  /** Deserializing yields a hello if and only if the hello fits its length fields and the
      buffer starts with its serialization; trailing octets are ignored. */
  lemma {:induction false} ClientExact(data: bytes, h: ClientHello)
    ensures ParseClient(data) == Some(h) <==> ClientFits(h) && At(data, 0, ClientBytes(h))
  {
    hide BigEndian, NumberAt, SharesAt, SharesBytes, ClientBytes;
    Pow256Values();
    ClientLayout(data, h);
    var p := 4 + |SharesBytes(h.keyShares)|;
    if ClientFits(h) && At(data, 0, ClientBytes(h)) {
      NumberThere(data, 2, |h.keyShares|, 2);
      SharesAtBytes(data, 4, h.keyShares, []);
      assert [] + h.keyShares == h.keyShares;
      NumberThere(data, p, h.signatureAlgorithm, 2);
      assert data[0] == data[0..2][0] && data[1] == data[0..2][1];
    }
    if ParseClient(data) == Some(h) {
      SharesAtSound(data, 4, U16At(data, 2), []);
      assert h.keyShares[0..] == h.keyShares;
      NumberBack(data, 2, 2);
      NumberBack(data, p, 2);
      assert data[0..2] == [h.version, TYPE_CLIENT_HELLO];
    }
  }

  /** A client hello survives, with anything after it, if and only if it fits. */
  lemma ClientRoundTrip(h: ClientHello, suffix: bytes)
    ensures ParseClient(ClientBytes(h) + suffix) == Some(h) <==> ClientFits(h)
  {
    assert (ClientBytes(h) + suffix)[0..|ClientBytes(h)|] == ClientBytes(h);
    ClientExact(ClientBytes(h) + suffix, h);
  }

  function SharesSpelled(shares: seq<KeyShare>): bytes {
    if shares == [] then []
    else Two(shares[0].algorithm) + Two(|shares[0].share|) + shares[0].share + SharesSpelled(shares[1..])
  }

  lemma {:induction false} SharesInNumbers(shares: seq<KeyShare>)
    ensures SharesBytes(shares) == SharesSpelled(shares)
  {
    hide BigEndian, Two;
    if shares != [] {
      BigEndianInNumbers(shares[0].algorithm);
      BigEndianInNumbers(|shares[0].share|);
      SharesInNumbers(shares[1..]);
    }
  }

  /** The layout in numbers: version, message type 1, then counts, shares, algorithm and nonce. */
  lemma ClientInNumbers(h: ClientHello)
    ensures ClientBytes(h) == [h.version, 1] + Two(|h.keyShares|) + SharesSpelled(h.keyShares)
                              + Two(h.signatureAlgorithm) + h.nonce
  {
    hide BigEndian, Two, SharesBytes, SharesSpelled;
    BigEndianInNumbers(|h.keyShares|);
    BigEndianInNumbers(h.signatureAlgorithm);
    SharesInNumbers(h.keyShares);
  }

  // ------------------------------------------------------------------- server hello

  function ServerBytes(h: ServerHello): bytes {
    [h.version, TYPE_SERVER_HELLO] + BigEndian(h.selectedKex, 2)
    + (BigEndian(|h.keyShare|, 2) + h.keyShare)
    + (BigEndian(|h.publicKey|, 2) + h.publicKey)
    + (BigEndian(|h.signature|, 4) + h.signature)
    + h.nonce
  }

  predicate ServerFits(h: ServerHello) {
    |h.keyShare| < TWO_16 && |h.publicKey| < TWO_16 && |h.signature| < TWO_32
  }

  /** Length-prefixed octets: the offset after them, if they are all there. */
  function BlockAt(data: bytes, pos: nat, width: nat): (r: Option<nat>)
    requires pos <= |data|
    ensures r.Some? ==> pos + width <= r.value <= |data|
  {
    if pos + width > |data| then None
    else
      var len := NumberAt(data, pos, width);
      if pos + width + len > |data| then None else Some(pos + width + len)
  }

  lemma {:induction false} BlockExact(data: bytes, pos: nat, width: nat, s: bytes)
    requires pos <= |data|
    ensures At(data, pos, BigEndian(|s|, width) + s) && |s| < Pow256(width) <==>
            BlockAt(data, pos, width) == Some(pos + width + |s|) && data[pos + width..pos + width + |s|] == s
  {
    AtConcat(data, pos, BigEndian(|s|, width), s);
    if At(data, pos, BigEndian(|s|, width) + s) && |s| < Pow256(width) {
      NumberThere(data, pos, |s|, width);
    }
    if BlockAt(data, pos, width) == Some(pos + width + |s|) {
      NumberBack(data, pos, width);
    }
  }

  function ParseServer(data: bytes): Option<ServerHello> {
    if |data| < 6 || data[1] != TYPE_SERVER_HELLO then None
    else
      var a := BlockAt(data, 4, 2);
      if a.None? then None
      else
        var b := BlockAt(data, a.value, 2);
        if b.None? then None
        else
          var c := BlockAt(data, b.value, 4);
          if c.None? || c.value + 8 > |data| then None
          else Some(ServerHello(data[0], U16At(data, 2), data[6..a.value], data[a.value + 2..b.value],
                                data[b.value + 4..c.value], data[c.value..c.value + 8]))
  }

  /** `serialize_server_hello` */
  method SerializeServerHello(h: ServerHello) returns (out: bytes)
    ensures out == ServerBytes(h)
  {
    out := [h.version];
    out := out + [TYPE_SERVER_HELLO];
    out := out + BigEndian(h.selectedKex, 2);
    out := out + BigEndian(|h.keyShare|, 2);
    out := out + h.keyShare;
    out := out + BigEndian(|h.publicKey|, 2);
    out := out + h.publicKey;
    out := out + BigEndian(|h.signature|, 4);
    out := out + h.signature;
    out := out + h.nonce;
  }

  /** `deserialize_server_hello` */
  method DeserializeServerHello(data: bytes) returns (r: Option<ServerHello>)
    ensures r == ParseServer(data)
  {
    if |data| < 6 { return None; }
    if data[1] != TYPE_SERVER_HELLO { return None; }
    var kex, shareLen := U16At(data, 2), U16At(data, 4);
    var offset := 6;
    if offset + shareLen > |data| { return None; }
    var share := data[offset..offset + shareLen];
    offset := offset + shareLen;
    if offset + 2 > |data| { return None; }
    var keyLen := U16At(data, offset);
    offset := offset + 2;
    if offset + keyLen > |data| { return None; }
    var key := data[offset..offset + keyLen];
    offset := offset + keyLen;
    if offset + 4 > |data| { return None; }
    var sigLen := NumberAt(data, offset, 4);
    offset := offset + 4;
    if offset + sigLen + 8 > |data| { return None; }
    var sig := data[offset..offset + sigLen];
    offset := offset + sigLen;
    r := Some(ServerHello(data[0], kex, share, key, sig, data[offset..offset + 8]));
  }

  lemma {:induction false} ServerLayout(data: bytes, h: ServerHello)
    ensures At(data, 0, ServerBytes(h)) <==>
            var a := 6 + |h.keyShare|;
            var b := a + 2 + |h.publicKey|;
            var c := b + 4 + |h.signature|;
            && At(data, 0, [h.version, TYPE_SERVER_HELLO]) && At(data, 2, BigEndian(h.selectedKex, 2))
            && At(data, 4, BigEndian(|h.keyShare|, 2) + h.keyShare)
            && At(data, a, BigEndian(|h.publicKey|, 2) + h.publicKey)
            && At(data, b, BigEndian(|h.signature|, 4) + h.signature)
            && At(data, c, h.nonce)
  {
    hide At, BigEndian;
    var top, kex := [h.version, TYPE_SERVER_HELLO], BigEndian(h.selectedKex, 2);
    var x, y, z := BigEndian(|h.keyShare|, 2) + h.keyShare, BigEndian(|h.publicKey|, 2) + h.publicKey,
                   BigEndian(|h.signature|, 4) + h.signature;
    AtConcat(data, 0, top + kex + x + y + z, h.nonce);
    AtConcat(data, 0, top + kex + x + y, z);
    AtConcat(data, 0, top + kex + x, y);
    AtConcat(data, 0, top + kex, x);
    AtConcat(data, 0, top, kex);
  }

  lemma {:induction false} ServerExact(data: bytes, h: ServerHello)
    ensures ParseServer(data) == Some(h) <==> ServerFits(h) && At(data, 0, ServerBytes(h))
  {
    hide BigEndian, NumberAt, ServerBytes, BlockAt;
    Pow256Values();
    ServerLayout(data, h);
    var a := 6 + |h.keyShare|;
    var b := a + 2 + |h.publicKey|;
    if |data| >= 6 {
      BlockExact(data, 4, 2, h.keyShare);
      if a <= |data| { BlockExact(data, a, 2, h.publicKey); }
      if b <= |data| { BlockExact(data, b, 4, h.signature); }
      if At(data, 2, BigEndian(h.selectedKex, 2)) { NumberThere(data, 2, h.selectedKex, 2); }
      NumberBack(data, 2, 2);
      assert data[0..2] == [data[0], data[1]];
    }
  }

  lemma ServerRoundTrip(h: ServerHello, suffix: bytes)
    ensures ParseServer(ServerBytes(h) + suffix) == Some(h) <==> ServerFits(h)
  {
    assert (ServerBytes(h) + suffix)[0..|ServerBytes(h)|] == ServerBytes(h);
    ServerExact(ServerBytes(h) + suffix, h);
  }

  /** The layout in numbers: version, message type 2, algorithm, three blocks and nonce. */
  lemma ServerInNumbers(h: ServerHello)
    ensures ServerBytes(h) == [h.version, 2] + Two(h.selectedKex) + Two(|h.keyShare|) + h.keyShare
                              + Two(|h.publicKey|) + h.publicKey + Four(|h.signature|) + h.signature + h.nonce
  {
    hide BigEndian, Two, Four;
    BigEndianInNumbers(h.selectedKex);
    BigEndianInNumbers(|h.keyShare|);
    BigEndianInNumbers(|h.publicKey|);
    BigEndianInNumbers(|h.signature|);
  }
}
