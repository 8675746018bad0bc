/** The capability index: buckets of records by capability hash, and each agent's capability
    list for taking its records out again. Both must agree with one simple map, from agent to
    its latest verified record. The hash and the record signature check are arbitrary. */
module CapabilityDht {
  import opened Bytes
  import opened Transcript

  type AgentId = Digest

  datatype AgentRecord = AgentRecord(
    agentId: AgentId, publicKey: bytes, capabilities: seq<string>, endpoints: seq<string>,
    version: u64, timestamp: u64, signature: bytes)

  datatype DhtRecord = DhtRecord(capability: string, key: Digest, record: AgentRecord)

  type Store = map<Digest, seq<DhtRecord>>
  type Latest = map<AgentId, AgentRecord>

  function Bucket(store: Store, key: Digest): seq<DhtRecord> {
    if key in store then store[key] else []
  }

  // ---------------------------------------------------------------- shares of a bucket

  /** An agent's share of a bucket, in order. */
  function OfAgent(rs: seq<DhtRecord>, a: AgentId): seq<DhtRecord> {
    if rs == [] then []
    else (if rs[0].record.agentId == a then [rs[0]] else []) + OfAgent(rs[1..], a)
  }

  /** A bucket without an agent's share. */
  function Without(rs: seq<DhtRecord>, a: AgentId): seq<DhtRecord> {
    if rs == [] then []
    else (if rs[0].record.agentId != a then [rs[0]] else []) + Without(rs[1..], a)
  }

  /** The index entries of a record under one key: one per capability that hashes to it. */
  function Entries(hash: string -> Digest, r: AgentRecord, caps: seq<string>, key: Digest): seq<DhtRecord> {
    if caps == [] then []
    else
      var n := |caps| - 1;
      Entries(hash, r, caps[..n], key) + if hash(caps[n]) == key then [DhtRecord(caps[n], key, r)] else []
  }

  ghost function Share(hash: string -> Digest, latest: Latest, key: Digest, a: AgentId): seq<DhtRecord> {
    if a in latest then Entries(hash, latest[a], latest[a].capabilities, key) else []
  }

  lemma {:induction false} OfAgentConcat(x: seq<DhtRecord>, y: seq<DhtRecord>, a: AgentId)
    ensures OfAgent(x + y, a) == OfAgent(x, a) + OfAgent(y, a)
  {
    if x == [] {
      assert x + y == y;
    } else {
      assert (x + y)[1..] == x[1..] + y;
      OfAgentConcat(x[1..], y, a);
    }
  }

  lemma {:induction false} OfAgentWithout(rs: seq<DhtRecord>, a: AgentId, b: AgentId)
    ensures OfAgent(Without(rs, a), b) == if a == b then [] else OfAgent(rs, b)
  {
    if rs != [] {
      OfAgentWithout(rs[1..], a, b);
      OfAgentConcat(if rs[0].record.agentId != a then [rs[0]] else [], Without(rs[1..], a), b);
    }
  }

  lemma {:induction false} WithoutAbsent(rs: seq<DhtRecord>, a: AgentId)
    requires OfAgent(rs, a) == []
    ensures Without(rs, a) == rs
  {
    if rs != [] {
      WithoutAbsent(rs[1..], a);
      assert rs == [rs[0]] + rs[1..];
    }
  }

  lemma {:induction false} OfAgentEntries(hash: string -> Digest, r: AgentRecord, caps: seq<string>,
                                          key: Digest, a: AgentId)
    ensures OfAgent(Entries(hash, r, caps, key), a) == if a == r.agentId then Entries(hash, r, caps, key) else []
  {
    if caps != [] {
      var n := |caps| - 1;
      OfAgentEntries(hash, r, caps[..n], key, a);
      OfAgentConcat(Entries(hash, r, caps[..n], key),
                    if hash(caps[n]) == key then [DhtRecord(caps[n], key, r)] else [], a);
    }
  }

  // --------------------------------------------------------------------- agreement

  /** Every agent's share of every bucket is what its latest record says, in order. */
  ghost predicate SharesAgree(hash: string -> Digest, store: Store, latest: Latest) {
    forall key, a :: OfAgent(Bucket(store, key), a) == Share(hash, latest, key, a)
  }

  ghost predicate Agrees(hash: string -> Digest, verify: AgentRecord -> bool, store: Store,
                         agentCaps: map<AgentId, seq<string>>, latest: Latest)
  {
    && agentCaps.Keys == latest.Keys
    && (forall a :: a in latest ==>
          latest[a].agentId == a && verify(latest[a]) && agentCaps[a] == latest[a].capabilities)
    && (forall key :: key in store ==> store[key] != [])
    && SharesAgree(hash, store, latest)
  }

  lemma SharesRemoved(hash: string -> Digest, store: Store, latest: Latest, a: AgentId, store': Store)
    requires SharesAgree(hash, store, latest)
    requires forall key :: Bucket(store', key) == Without(Bucket(store, key), a)
    ensures SharesAgree(hash, store', latest - {a})
  {
    forall key, b ensures OfAgent(Bucket(store', key), b) == Share(hash, latest - {a}, key, b) {
      OfAgentWithout(Bucket(store, key), a, b);
    }
  }

  lemma SharesAdded(hash: string -> Digest, store: Store, latest: Latest, r: AgentRecord, store': Store)
    requires SharesAgree(hash, store, latest) && r.agentId !in latest
    requires forall key :: Bucket(store', key) == Bucket(store, key) + Entries(hash, r, r.capabilities, key)
    ensures SharesAgree(hash, store', latest[r.agentId := r])
  {
    forall key, b ensures OfAgent(Bucket(store', key), b) == Share(hash, latest[r.agentId := r], key, b) {
      OfAgentConcat(Bucket(store, key), Entries(hash, r, r.capabilities, key), b);
      OfAgentEntries(hash, r, r.capabilities, key, b);
      assert OfAgent(Bucket(store, key), b) == Share(hash, latest, key, b);
    }
  }

  // --------------------------------------------------------------- order in a bucket

  /** Agents in the order of their last `put`, without one of them. */
  function Leave(order: seq<AgentId>, a: AgentId): seq<AgentId> {
    if order == [] then []
    else
      var n := |order| - 1;
      Leave(order[..n], a) + if order[n] == a then [] else [order[n]]
  }

  lemma {:induction false} LeaveNoRepeats(order: seq<AgentId>, a: AgentId)
    requires NoRepeats(order)
    ensures NoRepeats(Leave(order, a))
  {
    if order != [] {
      var n := |order| - 1;
      var rest := Leave(order[..n], a);
      LeaveNoRepeats(order[..n], a);
      LeaveMembers(order[..n], a);
      forall p | 0 <= p < |rest| ensures rest[p] != order[n] {
        assert rest[p] in order[..n];
        var q :| 0 <= q < n && order[q] == rest[p];
      }
    }
  }

  lemma {:induction false} LeaveMembers(order: seq<AgentId>, a: AgentId)
    ensures forall b :: b in Leave(order, a) <==> b in order && b != a
    ensures a !in order ==> Leave(order, a) == order
  {
    if order != [] {
      var n := |order| - 1;
      LeaveMembers(order[..n], a);
      assert order == order[..n] + [order[n]];
    }
  }

  /** The agents' shares of a bucket, one after the other. */
  ghost function Listing(hash: string -> Digest, latest: Latest, order: seq<AgentId>, key: Digest): seq<DhtRecord> {
    if order == [] then []
    else
      var n := |order| - 1;
      Listing(hash, latest, order[..n], key) + Share(hash, latest, key, order[n])
  }

  predicate NoRepeats(order: seq<AgentId>) {
    forall p, q :: 0 <= p < q < |order| ==> order[p] != order[q]
  }

  /** Every bucket lists its agents in the order of their last `put`. */
  ghost predicate Listed(hash: string -> Digest, store: Store, latest: Latest, order: seq<AgentId>) {
    && NoRepeats(order)
    && (forall a :: a in order <==> a in latest)
    && (forall a :: a in latest ==> latest[a].agentId == a)
    && (forall key :: Bucket(store, key) == Listing(hash, latest, order, key))
  }

  lemma WithoutCons(d: DhtRecord, rs: seq<DhtRecord>, a: AgentId)
    ensures Without([d] + rs, a) == (if d.record.agentId != a then [d] else []) + Without(rs, a)
  {
    assert ([d] + rs)[1..] == rs;
  }

  lemma {:induction false} WithoutConcat(x: seq<DhtRecord>, y: seq<DhtRecord>, a: AgentId)
    ensures Without(x + y, a) == Without(x, a) + Without(y, a)
  {
    hide Without;
    if x == [] {
      WithoutAbsent([], a);
      assert x + y == y;
    } else {
      WithoutConcat(x[1..], y, a);
      WithoutCons(x[0], x[1..], a);
      WithoutCons(x[0], x[1..] + y, a);
      assert x == [x[0]] + x[1..];
      assert x + y == [x[0]] + (x[1..] + y);
    }
  }

  lemma {:induction false} WithoutEntries(hash: string -> Digest, r: AgentRecord, caps: seq<string>,
                                          key: Digest, a: AgentId)
    ensures Without(Entries(hash, r, caps, key), a) == if a == r.agentId then [] else Entries(hash, r, caps, key)
  {
    if caps != [] {
      var n := |caps| - 1;
      WithoutEntries(hash, r, caps[..n], key, a);
      WithoutConcat(Entries(hash, r, caps[..n], key),
                    if hash(caps[n]) == key then [DhtRecord(caps[n], key, r)] else [], a);
    }
  }

  lemma {:induction false} ListingWithout(hash: string -> Digest, latest: Latest, order: seq<AgentId>,
                                          key: Digest, a: AgentId)
    requires forall b :: b in order ==> b in latest && latest[b].agentId == b
    ensures Without(Listing(hash, latest, order, key), a) == Listing(hash, latest - {a}, Leave(order, a), key)
  {
    hide Entries, Without, Leave;
    if order == [] {
      assert Leave(order, a) == [] by { LeaveMembers(order, a); }
      assert Without([], a) == [] by { WithoutAbsent([], a); }
    } else {
      var n := |order| - 1;
      var b := order[n];
      assert b in order && forall x :: x in order[..n] ==> x in order;
      ListingWithout(hash, latest, order[..n], key, a);
      WithoutConcat(Listing(hash, latest, order[..n], key), Share(hash, latest, key, b), a);
      WithoutEntries(hash, latest[b], latest[b].capabilities, key, a);
      ListingLeave(hash, latest, order, key, a);
    }
  }

  lemma ListingLeave(hash: string -> Digest, latest: Latest, order: seq<AgentId>, key: Digest, a: AgentId)
    requires order != []
    ensures var n := |order| - 1;
            Listing(hash, latest - {a}, Leave(order, a), key) ==
            Listing(hash, latest - {a}, Leave(order[..n], a), key)
            + if order[n] == a then [] else Share(hash, latest, key, order[n])
  {
    hide Entries;
    var n := |order| - 1;
    var rest, b := Leave(order[..n], a), order[n];
    if b == a {
      assert Leave(order, a) == rest;
      assert Listing(hash, latest - {a}, rest, key) + [] == Listing(hash, latest - {a}, rest, key);
    } else {
      assert Leave(order, a) == rest + [b];
      assert (rest + [b])[..|rest|] == rest;
      assert Share(hash, latest - {a}, key, b) == Share(hash, latest, key, b);
    }
  }

  lemma {:induction false} ListingOthers(hash: string -> Digest, latest: Latest, order: seq<AgentId>,
                                         key: Digest, r: AgentRecord)
    requires r.agentId !in order
    ensures Listing(hash, latest[r.agentId := r], order, key) == Listing(hash, latest, order, key)
  {
    if order != [] {
      var n := |order| - 1;
      assert order[n] in order && forall x :: x in order[..n] ==> x in order;
      ListingOthers(hash, latest, order[..n], key, r);
    }
  }

  /** `a` stands in `order` no later than `b`. */
  ghost predicate NoLater(order: seq<AgentId>, a: AgentId, b: AgentId) {
    exists p, q :: 0 <= p <= q < |order| && order[p] == a && order[q] == b
  }

  lemma NoLaterExtended(order: seq<AgentId>, n: nat, a: AgentId, b: AgentId)
    requires n <= |order| && NoLater(order[..n], a, b)
    ensures NoLater(order, a, b)
  {
    var p, q :| 0 <= p <= q < n && order[..n][p] == a && order[..n][q] == b;
    assert order[p] == a && order[q] == b;
  }

  /** Those who stay keep their order. */
  lemma {:induction false} LeaveKeepsOrder(order: seq<AgentId>, a: AgentId, b: AgentId, c: AgentId)
    requires NoLater(Leave(order, a), b, c)
    ensures NoLater(order, b, c)
  {
    var n := |order| - 1;
    var rest, all := Leave(order[..n], a), Leave(order, a);
    var p, q :| 0 <= p <= q < |all| && all[p] == b && all[q] == c;
    LeaveMembers(order[..n], a);
    if q < |rest| {
      assert rest[p] == b && rest[q] == c;
      LeaveKeepsOrder(order[..n], a, b, c);
      NoLaterExtended(order, n, b, c);
    } else {
      assert c == order[n];
      if p < |rest| {
        assert rest[p] in order[..n];
        var k :| 0 <= k < n && order[k] == b;
      }
    }
  }

  /** A listing shows agents in the given order. */
  lemma {:induction false} ListingInOrder(hash: string -> Digest, latest: Latest, order: seq<AgentId>, key: Digest,
                                          i: nat, j: nat)
    requires i <= j < |Listing(hash, latest, order, key)|
    requires forall b :: b in order ==> b in latest && latest[b].agentId == b
    ensures var ds := Listing(hash, latest, order, key);
            NoLater(order, ds[i].record.agentId, ds[j].record.agentId)
  {
    var n := |order| - 1;
    assert order[n] in order && forall b :: b in order[..n] ==> b in order;
    var l, share := Listing(hash, latest, order[..n], key), Share(hash, latest, key, order[n]);
    assert Listing(hash, latest, order, key) == l + share;
    ShareOfOne(hash, latest, key, order[n]);
    if i < |l| {
      ListingInOrder(hash, latest, order[..n], key, i, if j < |l| then j else i);
      if j < |l| {
        NoLaterExtended(order, n, l[i].record.agentId, l[j].record.agentId);
      } else {
        var p, q :| 0 <= p <= q < n && order[..n][p] == l[i].record.agentId && order[..n][q] == l[i].record.agentId;
        assert order[p] == l[i].record.agentId;
      }
    } else {
      assert order[n] == share[i - |l|].record.agentId;
    }
  }

  lemma ShareOfOne(hash: string -> Digest, latest: Latest, key: Digest, a: AgentId)
    requires a in latest && latest[a].agentId == a
    ensures forall d :: d in Share(hash, latest, key, a) ==> d.record.agentId == a
  {
    EntriesOfOne(hash, latest[a], latest[a].capabilities, key);
  }

  lemma {:induction false} EntriesOfOne(hash: string -> Digest, r: AgentRecord, caps: seq<string>, key: Digest)
    ensures forall d :: d in Entries(hash, r, caps, key) ==> d.record == r
  {
    if caps != [] { EntriesOfOne(hash, r, caps[..|caps| - 1], key); }
  }

  /** Records come in the order of their agents' last `put`. */
  ghost predicate InPutOrder(order: seq<AgentId>, rs: seq<AgentRecord>) {
    forall i, j :: 0 <= i < j < |rs| ==> NoLater(order, rs[i].agentId, rs[j].agentId)
  }

  lemma GetInOrder(hash: string -> Digest, store: Store, latest: Latest, order: seq<AgentId>, key: Digest)
    requires Listed(hash, store, latest, order)
    ensures InPutOrder(order, Records(Listing(hash, latest, order, key)))
  {
    hide Listing, NoLater;
    var ds := Listing(hash, latest, order, key);
    forall i, j | 0 <= i < j < |ds| ensures NoLater(order, ds[i].record.agentId, ds[j].record.agentId) {
      ListingInOrder(hash, latest, order, key, i, j);
    }
  }

  /** Removing an agent keeps the order of the others. */
  lemma ListedRemoved(hash: string -> Digest, store: Store, latest: Latest, order: seq<AgentId>,
                      a: AgentId, store': Store)
    requires Listed(hash, store, latest, order)
    requires forall key :: Bucket(store', key) == Without(Bucket(store, key), a)
    ensures Listed(hash, store', latest - {a}, Leave(order, a))
  {
    LeaveMembers(order, a);
    LeaveNoRepeats(order, a);
    forall key ensures Bucket(store', key) == Listing(hash, latest - {a}, Leave(order, a), key) {
      ListingWithout(hash, latest, order, key, a);
    }
  }

  /** An added record comes last in every bucket. */
  lemma ListedAdded(hash: string -> Digest, store: Store, latest: Latest, order: seq<AgentId>,
                    r: AgentRecord, store': Store)
    requires Listed(hash, store, latest, order) && r.agentId !in latest
    requires forall key :: Bucket(store', key) == Bucket(store, key) + Entries(hash, r, r.capabilities, key)
    ensures Listed(hash, store', latest[r.agentId := r], order + [r.agentId])
  {
    hide Listing, Bucket, Entries;
    forall key ensures Bucket(store', key) == Listing(hash, latest[r.agentId := r], order + [r.agentId], key) {
      ListingOthers(hash, latest, order, key, r);
      ListingAppend(hash, latest[r.agentId := r], order, r.agentId, key);
    }
  }

  lemma ListingAppend(hash: string -> Digest, latest: Latest, order: seq<AgentId>, a: AgentId, key: Digest)
    ensures Listing(hash, latest, order + [a], key) == Listing(hash, latest, order, key) + Share(hash, latest, key, a)
  {
    hide Entries;
    assert (order + [a])[..|order|] == order;
  }

  // ------------------------------------------------------------------- multiplicity

  /** How many of the capabilities hash to the key. */
  function MatchCount(hash: string -> Digest, caps: seq<string>, key: Digest): nat {
    if caps == [] then 0
    else MatchCount(hash, caps[..|caps| - 1], key) + if hash(caps[|caps| - 1]) == key then 1 else 0
  }

  /** How many entries of a bucket hold the record. */
  function CountRecord(rs: seq<DhtRecord>, r: AgentRecord): nat {
    if rs == [] then 0 else (if rs[0].record == r then 1 else 0) + CountRecord(rs[1..], r)
  }

  function Records(rs: seq<DhtRecord>): (s: seq<AgentRecord>)
    ensures |s| == |rs|
  {
    seq(|rs|, i requires 0 <= i < |rs| => rs[i].record)
  }

  lemma {:induction false} RecordsCount(rs: seq<DhtRecord>, r: AgentRecord)
    ensures multiset(Records(rs))[r] == CountRecord(rs, r)
  {
    if rs != [] {
      RecordsCount(rs[1..], r);
      assert Records(rs) == [rs[0].record] + Records(rs[1..]);
    }
  }

  lemma {:induction false} CountInShare(rs: seq<DhtRecord>, r: AgentRecord)
    ensures CountRecord(rs, r) == CountRecord(OfAgent(rs, r.agentId), r)
  {
    if rs != [] {
      CountInShare(rs[1..], r);
      if rs[0].record.agentId == r.agentId {
        assert OfAgent(rs, r.agentId)[1..] == OfAgent(rs[1..], r.agentId);
      } else {
        assert OfAgent(rs, r.agentId) == OfAgent(rs[1..], r.agentId);
      }
    }
  }

  lemma {:induction false} CountConcat(x: seq<DhtRecord>, y: seq<DhtRecord>, r: AgentRecord)
    ensures CountRecord(x + y, r) == CountRecord(x, r) + CountRecord(y, r)
  {
    if x == [] {
      assert x + y == y;
    } else {
      assert (x + y)[1..] == x[1..] + y;
      CountConcat(x[1..], y, r);
    }
  }

  lemma {:induction false} CountEntries(hash: string -> Digest, s: AgentRecord, caps: seq<string>,
                                        key: Digest, r: AgentRecord)
    ensures CountRecord(Entries(hash, s, caps, key), r) == if r == s then MatchCount(hash, caps, key) else 0
  {
    if caps != [] {
      var n := |caps| - 1;
      CountEntries(hash, s, caps[..n], key, r);
      CountConcat(Entries(hash, s, caps[..n], key),
                  if hash(caps[n]) == key then [DhtRecord(caps[n], key, s)] else [], r);
    }
  }

  /** The multiplicity of a record in the bucket of a key: for a latest record, the number of
      its capabilities hashing to the key; for anything else, zero. */
  function Multiplicity(hash: string -> Digest, latest: Latest, key: Digest, r: AgentRecord): nat {
    if r.agentId in latest && latest[r.agentId] == r then MatchCount(hash, r.capabilities, key) else 0
  }

  lemma BucketContents(hash: string -> Digest, store: Store, latest: Latest, key: Digest, r: AgentRecord)
    requires SharesAgree(hash, store, latest)
    ensures multiset(Records(Bucket(store, key)))[r] == Multiplicity(hash, latest, key, r)
  {
    var rs := Bucket(store, key);
    RecordsCount(rs, r);
    CountInShare(rs, r);
    assert OfAgent(rs, r.agentId) == Share(hash, latest, key, r.agentId);
    if r.agentId in latest {
      CountEntries(hash, latest[r.agentId], latest[r.agentId].capabilities, key, r);
    }
  }

  /** A latest record advertises something hashing to the key. */
  ghost predicate Advertises(hash: string -> Digest, latest: Latest, key: Digest, r: AgentRecord) {
    r.agentId in latest && latest[r.agentId] == r && MatchCount(hash, r.capabilities, key) > 0
  }

  lemma {:induction false} MatchCountPositive(hash: string -> Digest, caps: seq<string>, key: Digest)
    ensures MatchCount(hash, caps, key) > 0 <==> exists i :: 0 <= i < |caps| && hash(caps[i]) == key
  {
    if caps != [] {
      MatchCountPositive(hash, caps[..|caps| - 1], key);
      assert forall i :: 0 <= i < |caps| - 1 ==> caps[..|caps| - 1][i] == caps[i];
    }
  }

  lemma BucketMembers(hash: string -> Digest, store: Store, latest: Latest, key: Digest)
    requires SharesAgree(hash, store, latest)
    ensures forall r :: r in Records(Bucket(store, key)) <==> Advertises(hash, latest, key, r)
  {
    forall r ensures r in Records(Bucket(store, key)) <==> Advertises(hash, latest, key, r) {
      BucketContents(hash, store, latest, key, r);
      assert r in Records(Bucket(store, key)) <==> r in multiset(Records(Bucket(store, key)));
    }
  }

  /** The keys in use are exactly the hashes of the advertised capabilities. */
  lemma StoreKeys(hash: string -> Digest, verify: AgentRecord -> bool, store: Store,
                  agentCaps: map<AgentId, seq<string>>, latest: Latest, key: Digest)
    requires Agrees(hash, verify, store, agentCaps, latest)
    ensures key in store <==>
            exists a, i :: a in latest && 0 <= i < |latest[a].capabilities| && hash(latest[a].capabilities[i]) == key
  {
    BucketMembers(hash, store, latest, key);
    if key in store {
      var r := Records(store[key])[0];
      assert r in Records(Bucket(store, key));
      MatchCountPositive(hash, r.capabilities, key);
    }
    if a, i :| a in latest && 0 <= i < |latest[a].capabilities| && hash(latest[a].capabilities[i]) == key {
      MatchCountPositive(hash, latest[a].capabilities, key);
      assert Advertises(hash, latest, key, latest[a]);
      assert latest[a] in Records(Bucket(store, key));
    }
  }

  // ------------------------------------------------------------------------- class

  ghost predicate Hashed(hash: string -> Digest, caps: seq<string>, key: Digest) {
    exists i :: 0 <= i < |caps| && hash(caps[i]) == key
  }

  lemma HashedNext(hash: string -> Digest, caps: seq<string>, i: nat, key: Digest)
    requires i < |caps|
    ensures Hashed(hash, caps[..i + 1], key) <==> Hashed(hash, caps[..i], key) || hash(caps[i]) == key
  {
    assert caps[..i + 1] == caps[..i] + [caps[i]];
    if Hashed(hash, caps[..i], key) {
      var j :| 0 <= j < i && hash(caps[..i][j]) == key;
      assert hash(caps[..i + 1][j]) == key;
    }
    assert hash(caps[..i + 1][i]) == hash(caps[i]);
  }

  lemma WithoutTwice(rs: seq<DhtRecord>, a: AgentId)
    ensures Without(Without(rs, a), a) == Without(rs, a)
  {
    OfAgentWithout(rs, a, a);
    WithoutAbsent(Without(rs, a), a);
  }

  /** An agent none of whose capabilities hash to a key has no share under it. */
  lemma NoShare(hash: string -> Digest, r: AgentRecord, caps: seq<string>, key: Digest)
    requires !Hashed(hash, caps, key)
    ensures Entries(hash, r, caps, key) == []
  {
    if caps != [] {
      HashedNext(hash, caps, |caps| - 1, key);
      assert caps[..|caps|] == caps;
      NoShare(hash, r, caps[..|caps| - 1], key);
    }
  }

  ghost predicate AdvertisesAll(hash: string -> Digest, latest: Latest, capabilities: seq<string>, r: AgentRecord) {
    forall i :: 0 <= i < |capabilities| ==> Advertises(hash, latest, hash(capabilities[i]), r)
  }

  lemma AllNext(hash: string -> Digest, latest: Latest, capabilities: seq<string>, n: nat, r: AgentRecord)
    requires 1 <= n < |capabilities|
    ensures AdvertisesAll(hash, latest, capabilities[..n + 1], r) <==>
            AdvertisesAll(hash, latest, capabilities[..n], r) && Advertises(hash, latest, hash(capabilities[n]), r)
    ensures AdvertisesAll(hash, latest, capabilities[..n], r) ==> Advertises(hash, latest, hash(capabilities[0]), r)
  {
    hide Advertises;
    assert capabilities[..n + 1] == capabilities[..n] + [capabilities[n]];
    assert capabilities[..n][0] == capabilities[0];
  }

  ghost predicate NoEmptyBucket(store: Store) { forall key :: key in store ==> store[key] != [] }

  /** One bucket loses an agent's share; a bucket left empty is dropped. */
  function DropFromBucket(store: Store, key: Digest, a: AgentId): Store {
    if key !in store then store
    else
      var records := Without(store[key], a);
      if records == [] then store - {key} else store[key := records]
  }

  lemma DropFromBucketEffect(store: Store, key: Digest, a: AgentId)
    requires NoEmptyBucket(store)
    ensures NoEmptyBucket(DropFromBucket(store, key, a))
    ensures forall k :: Bucket(DropFromBucket(store, key, a), k) ==
              if k == key then Without(Bucket(store, k), a) else Bucket(store, k)
  {}

  /** The buckets under the hashes of `caps`, and no others, have lost the agent's share. */
  ghost predicate Dropped(hash: string -> Digest, before: Store, caps: seq<string>, a: AgentId, store: Store) {
    NoEmptyBucket(store) &&
    forall key :: Bucket(store, key) ==
      if Hashed(hash, caps, key) then Without(Bucket(before, key), a) else Bucket(before, key)
  }

  lemma DropNext(hash: string -> Digest, before: Store, caps: seq<string>, i: nat, a: AgentId, store: Store)
    requires i < |caps| && Dropped(hash, before, caps[..i], a, store)
    ensures Dropped(hash, before, caps[..i + 1], a, DropFromBucket(store, hash(caps[i]), a))
  {
    hide Hashed, Without, Bucket, NoEmptyBucket, DropFromBucket;
    var key := hash(caps[i]);
    var next := DropFromBucket(store, key, a);
    WithoutTwice(Bucket(before, key), a);
    DropFromBucketEffect(store, key, a);
    forall k ensures Bucket(next, k) ==
                     if Hashed(hash, caps[..i + 1], k) then Without(Bucket(before, k), a) else Bucket(before, k)
    {
      HashedNext(hash, caps, i, k);
      assert Bucket(next, k) == if k == key then Without(Bucket(store, k), a) else Bucket(store, k);
      assert Bucket(store, k) ==
             if Hashed(hash, caps[..i], k) then Without(Bucket(before, k), a) else Bucket(before, k);
    }
  }

  /** The loop of `remove_agent`. */
  method DropFromBuckets(hash: string -> Digest, before: Store, caps: seq<string>, a: AgentId) returns (store: Store)
    requires NoEmptyBucket(before)
    ensures Dropped(hash, before, caps, a, store)
  {
    store := before;
    for i := 0 to |caps|
      invariant Dropped(hash, before, caps[..i], a, store)
    {
      hide Dropped;
      DropNext(hash, before, caps, i, a, store);
      store := DropFromBucket(store, hash(caps[i]), a);
    }
    assert caps[..|caps|] == caps;
  }

  /** Dropping an agent under the hashes of its own capabilities drops it everywhere. */
  lemma DroppedEverywhere(hash: string -> Digest, before: Store, latest: Latest, a: AgentId, store: Store)
    requires SharesAgree(hash, before, latest) && a in latest
    requires Dropped(hash, before, latest[a].capabilities, a, store)
    ensures forall key :: Bucket(store, key) == Without(Bucket(before, key), a)
  {
    forall key ensures Bucket(store, key) == Without(Bucket(before, key), a) {
      if !Hashed(hash, latest[a].capabilities, key) {
        NoShare(hash, latest[a], latest[a].capabilities, key);
        assert OfAgent(Bucket(before, key), a) == Share(hash, latest, key, a);
        WithoutAbsent(Bucket(before, key), a);
      }
    }
  }

  /** Every bucket has gained the record's entries for `caps`. */
  ghost predicate Added(hash: string -> Digest, base: Store, r: AgentRecord, caps: seq<string>, store: Store) {
    NoEmptyBucket(store) && forall key :: Bucket(store, key) == Bucket(base, key) + Entries(hash, r, caps, key)
  }

  function Push(store: Store, key: Digest, d: DhtRecord): Store { store[key := Bucket(store, key) + [d]] }

  lemma AddNext(hash: string -> Digest, base: Store, r: AgentRecord, caps: seq<string>, i: nat, store: Store)
    requires i < |caps| && Added(hash, base, r, caps[..i], store)
    ensures Added(hash, base, r, caps[..i + 1], Push(store, hash(caps[i]), DhtRecord(caps[i], hash(caps[i]), r)))
  {
    hide Bucket, Entries, Push, NoEmptyBucket;
    var key := hash(caps[i]);
    var next := Push(store, key, DhtRecord(caps[i], key, r));
    PushEffect(store, key, DhtRecord(caps[i], key, r));
    forall k ensures Bucket(next, k) == Bucket(base, k) + Entries(hash, r, caps[..i + 1], k) {
      assert Bucket(store, k) == Bucket(base, k) + Entries(hash, r, caps[..i], k);
      EntriesNext(hash, r, caps, i, k);
    }
  }

  lemma PushEffect(store: Store, key: Digest, d: DhtRecord)
    requires NoEmptyBucket(store)
    ensures NoEmptyBucket(Push(store, key, d))
    ensures forall k :: Bucket(Push(store, key, d), k) ==
              if k == key then Bucket(store, k) + [d] else Bucket(store, k)
  {}

  lemma EntriesNext(hash: string -> Digest, r: AgentRecord, caps: seq<string>, i: nat, key: Digest)
    requires i < |caps|
    ensures Entries(hash, r, caps[..i + 1], key) ==
            Entries(hash, r, caps[..i], key) + if hash(caps[i]) == key then [DhtRecord(caps[i], key, r)] else []
  {
    assert caps[..i + 1][..i] == caps[..i];
  }

  /** The loop of `put`: the record is pushed once per capability. */
  method AddToBuckets(hash: string -> Digest, base: Store, r: AgentRecord) returns (store: Store)
    requires NoEmptyBucket(base)
    ensures Added(hash, base, r, r.capabilities, store)
  {
    store := base;
    var caps := r.capabilities;
    for i := 0 to |caps|
      invariant Added(hash, base, r, caps[..i], store)
    {
      hide Added;
      AddNext(hash, base, r, caps, i, store);
      var key := hash(caps[i]);
      store := Push(store, key, DhtRecord(caps[i], key, r));
    }
    assert caps[..|caps|] == caps;
  }

  // ------------------------------------------------------------- what the indexes stand for

  /** Both indexes agree with the simple map, and buckets are in `put` order. */
  ghost predicate Represents(hash: string -> Digest, verify: AgentRecord -> bool, store: Store,
                             agentCaps: map<AgentId, seq<string>>, latest: Latest, order: seq<AgentId>)
  {
    Agrees(hash, verify, store, agentCaps, latest) && Listed(hash, store, latest, order)
  }

  lemma RepresentsRemoved(hash: string -> Digest, verify: AgentRecord -> bool, store: Store,
                          agentCaps: map<AgentId, seq<string>>, latest: Latest, order: seq<AgentId>,
                          a: AgentId, store': Store)
    requires Represents(hash, verify, store, agentCaps, latest, order)
    requires a in agentCaps && Dropped(hash, store, agentCaps[a], a, store')
    ensures Represents(hash, verify, store', agentCaps - {a}, latest - {a}, Leave(order, a))
  {
    hide SharesAgree, Listed, Bucket;
    DroppedEverywhere(hash, store, latest, a, store');
    SharesRemoved(hash, store, latest, a, store');
    ListedRemoved(hash, store, latest, order, a, store');
  }

  lemma RepresentsAbsent(hash: string -> Digest, verify: AgentRecord -> bool, store: Store,
                         agentCaps: map<AgentId, seq<string>>, latest: Latest, order: seq<AgentId>, a: AgentId)
    requires Represents(hash, verify, store, agentCaps, latest, order)
    ensures NoEmptyBucket(store) && (a in agentCaps <==> a in latest)
    ensures a !in latest ==> latest - {a} == latest && Leave(order, a) == order
  {
    LeaveMembers(order, a);
  }

  lemma RepresentsAdded(hash: string -> Digest, verify: AgentRecord -> bool, store: Store,
                        agentCaps: map<AgentId, seq<string>>, latest: Latest, order: seq<AgentId>,
                        r: AgentRecord, store': Store)
    requires Represents(hash, verify, store, agentCaps, latest, order)
    requires r.agentId !in latest && verify(r) && Added(hash, store, r, r.capabilities, store')
    ensures Represents(hash, verify, store', agentCaps[r.agentId := r.capabilities], latest[r.agentId := r],
                       order + [r.agentId])
  {
    hide SharesAgree, Listed, Bucket, Entries;
    SharesAdded(hash, store, latest, r, store');
    ListedAdded(hash, store, latest, order, r, store');
  }

  class Dht {
    const hash: string -> Digest
    const verify: AgentRecord -> bool
    var store: Store
    var agentCaps: map<AgentId, seq<string>>
    /** The simple map both indexes stand for. */
    ghost var latest: Latest
    /** Its agents, in the order of their last `put`. */
    ghost var order: seq<AgentId>

    ghost predicate Valid()
      reads this
    {
      Represents(hash, verify, store, agentCaps, latest, order)
    }

    constructor (hash: string -> Digest, verify: AgentRecord -> bool)
      ensures Valid() && this.hash == hash && this.verify == verify && latest == map[] && order == []
    {
      this.hash := hash;
      this.verify := verify;
      store := map[];
      agentCaps := map[];
      latest, order := map[], [];
    }

    /** `remove_agent` */
    method RemoveAgent(a: AgentId)
      requires Valid()
      modifies this
      ensures Valid() && latest == old(latest) - {a} && order == Leave(old(order), a)
    {
      hide Represents, Dropped, NoEmptyBucket, Leave;
      RepresentsAbsent(hash, verify, store, agentCaps, latest, order, a);
      if a in agentCaps {
        ghost var before, capsBefore := store, agentCaps;
        var caps := agentCaps[a];
        agentCaps := agentCaps - {a};
        store := DropFromBuckets(hash, store, caps, a);
        RepresentsRemoved(hash, verify, before, capsBefore, latest, order, a, store);
      }
      latest, order := latest - {a}, Leave(order, a);
    }

    /** `put`: an unverified record changes nothing. */
    method Put(r: AgentRecord) returns (ok: bool)
      requires Valid()
      modifies this
      ensures Valid() && ok == verify(r)
      ensures latest == if ok then old(latest)[r.agentId := r] else old(latest)
      ensures order == if ok then Leave(old(order), r.agentId) + [r.agentId] else old(order)
      ensures !ok ==> store == old(store) && agentCaps == old(agentCaps)
    {
      hide Represents, Added, NoEmptyBucket, Leave;
      if !verify(r) { return false; }
      RemoveAgent(r.agentId);
      RepresentsAbsent(hash, verify, store, agentCaps, latest, order, r.agentId);
      ghost var base := store;
      store := AddToBuckets(hash, store, r);
      RepresentsAdded(hash, verify, base, agentCaps, latest, order, r, store);
      agentCaps := agentCaps[r.agentId := r.capabilities];
      latest, order := latest[r.agentId := r], order + [r.agentId];
      ok := true;
    }

    /** `get`: each latest record once per capability of its that hashes like `capability`, in
        the order of the agents' last `put`. */
    method Get(capability: string) returns (rs: seq<AgentRecord>)
      requires Valid()
      ensures rs == Records(Listing(hash, latest, order, hash(capability)))
      ensures InPutOrder(order, rs) && NoRepeats(order)
      ensures forall r :: multiset(rs)[r] == Multiplicity(hash, latest, hash(capability), r)
      ensures forall r :: r in rs <==> Advertises(hash, latest, hash(capability), r)
    {
      var key := hash(capability);
      rs := Records(if key in store then store[key] else []);
      forall r ensures multiset(rs)[r] == Multiplicity(hash, latest, key, r) {
        BucketContents(hash, store, latest, key, r);
      }
      BucketMembers(hash, store, latest, key);
      GetInOrder(hash, store, latest, order, key);
    }

    /** `get_any`: each agent advertising one of the capabilities, once, where `get` of the
        capabilities in turn first lists it. */
    method GetAny(capabilities: seq<string>) returns (rs: seq<AgentRecord>)
      requires Valid()
      ensures rs == Firsts(FoundIn(hash, latest, order, capabilities))
      ensures ByFirstMatch(hash, latest, order, capabilities, rs)
      ensures OncePerAgent(rs) && forall r :: r in rs <==> AdvertisesAny(hash, latest, capabilities, r)
    {
      hide Represents, Listing, Firsts, FoundIn, InPutOrder, ByFirstMatch;
      FirstsNone(hash, latest, order);
      rs := [];
      var seen: set<AgentId> := {};
      for n := 0 to |capabilities|
        invariant seen == set r | r in rs :: r.agentId
        invariant rs == Firsts(FoundIn(hash, latest, order, capabilities[..n]))
      {
        ghost var earlier := FoundIn(hash, latest, order, capabilities[..n]);
        var found := Get(capabilities[n]);
        assert earlier + found[..0] == earlier;
        for m := 0 to |found|
          invariant seen == set r | r in rs :: r.agentId
          invariant rs == Firsts(earlier + found[..m])
        {
          assert earlier + found[..m + 1] == earlier + found[..m] + [found[m]];
          FirstsNext(earlier + found[..m], found[m]);
          var record := found[m];
          if record.agentId !in seen {
            seen := seen + {record.agentId};
            rs := rs + [record];
          }
        }
        assert found[..|found|] == found;
        FoundNext(hash, latest, order, capabilities, n);
      }
      assert capabilities[..|capabilities|] == capabilities;
      FirstsOfFound(hash, verify, store, agentCaps, latest, order, capabilities);
      FirstsInOrder(hash, verify, store, agentCaps, latest, order, capabilities);
    }

    /** `get_all`: what `get` lists for the first capability, without the agents that do not
        advertise all of them; nothing for no capabilities. */
    method GetAll(capabilities: seq<string>) returns (rs: seq<AgentRecord>)
      requires Valid()
      ensures capabilities == [] ==> rs == []
      ensures capabilities != [] ==>
                rs == Matching(hash, latest, capabilities,
                               Records(Listing(hash, latest, order, hash(capabilities[0]))))
      ensures InPutOrder(order, rs)
      ensures capabilities != [] ==> forall r :: r in rs <==> AdvertisesAll(hash, latest, capabilities, r)
      ensures capabilities != [] ==>
                forall r :: r in rs ==> multiset(rs)[r] == Multiplicity(hash, latest, hash(capabilities[0]), r)
    {
      hide Represents, Listing, Retain, AdvertisesAll, Advertises, Matching, InPutOrder;
      if capabilities == [] {
        NoneInOrder(order);
        return [];
      }
      rs := Get(capabilities[0]);
      ghost var all := rs;
      FirstMatches(hash, latest, capabilities, rs);
      AllMatch(hash, latest, capabilities[..1], rs);
      for n := 1 to |capabilities|
        invariant AllOf(hash, latest, capabilities[..n], rs) && KeptFrom(all, rs)
        invariant rs == Matching(hash, latest, capabilities[..n], all)
      {
        hide AllOf, KeptFrom, Multiplicity;
        var found := Get(capabilities[n]);
        var ids := set r | r in found :: r.agentId;
        RetainNext(hash, latest, capabilities, n, rs, found, ids);
        RetainKeepsCounts(rs, ids);
        KeptTwice(all, rs, Retain(rs, ids));
        RetainMatching(hash, latest, capabilities, n, rs, ids, all);
        rs := Retain(rs, ids);
      }
      assert capabilities[..|capabilities|] == capabilities;
      MatchingInOrder(hash, latest, capabilities, order, all);
    }

    /** `agent_capabilities` */
    method AgentCapabilities(a: AgentId) returns (caps: seq<string>)
      requires Valid()
      ensures caps == if a in latest then latest[a].capabilities else []
    {
      caps := if a in agentCaps then agentCaps[a] else [];
    }
  }

  function Retain(rs: seq<AgentRecord>, ids: set<AgentId>): (kept: seq<AgentRecord>)
    ensures forall r :: r in kept <==> r in rs && r.agentId in ids
  {
    if rs == [] then []
    else (if rs[0].agentId in ids then [rs[0]] else []) + Retain(rs[1..], ids)
  }

  /** The records advertising all of the capabilities. */
  ghost predicate AllOf(hash: string -> Digest, latest: Latest, capabilities: seq<string>, rs: seq<AgentRecord>) {
    forall r :: r in rs <==> AdvertisesAll(hash, latest, capabilities, r)
  }

  /** The records of a list that advertise all of the capabilities, in order. */
  ghost function Matching(hash: string -> Digest, latest: Latest, capabilities: seq<string>, rs: seq<AgentRecord>)
    : seq<AgentRecord>
  {
    if rs == [] then []
    else
      (if AdvertisesAll(hash, latest, capabilities, rs[0]) then [rs[0]] else [])
      + Matching(hash, latest, capabilities, rs[1..])
  }

  lemma {:induction false} AllMatch(hash: string -> Digest, latest: Latest, capabilities: seq<string>,
                                    rs: seq<AgentRecord>)
    requires forall r :: r in rs ==> AdvertisesAll(hash, latest, capabilities, r)
    ensures Matching(hash, latest, capabilities, rs) == rs
  {
    hide AdvertisesAll;
    if rs != [] {
      AllMatch(hash, latest, capabilities, rs[1..]);
      assert rs == [rs[0]] + rs[1..];
    }
  }

  lemma {:induction false} RetainMatching(hash: string -> Digest, latest: Latest, capabilities: seq<string>, n: nat,
                                          rs: seq<AgentRecord>, ids: set<AgentId>, part: seq<AgentRecord>)
    requires 1 <= n < |capabilities| && AllOf(hash, latest, capabilities[..n], rs)
    requires AllOf(hash, latest, capabilities[..n + 1], Retain(rs, ids))
    ensures Retain(Matching(hash, latest, capabilities[..n], part), ids)
         == Matching(hash, latest, capabilities[..n + 1], part)
  {
    hide AdvertisesAll, Advertises;
    if part != [] {
      var r, before := part[0], Matching(hash, latest, capabilities[..n], part[1..]);
      RetainMatching(hash, latest, capabilities, n, rs, ids, part[1..]);
      AllNext(hash, latest, capabilities, n, r);
      assert AdvertisesAll(hash, latest, capabilities[..n + 1], r) <==>
             AdvertisesAll(hash, latest, capabilities[..n], r) && r.agentId in ids;
      assert ([r] + before)[1..] == before;
      assert [] + before == before;
    }
  }

  lemma NoneInOrder(order: seq<AgentId>)
    ensures InPutOrder(order, [])
  {}

  lemma {:induction false} MatchingMembers(hash: string -> Digest, latest: Latest, capabilities: seq<string>,
                                           rs: seq<AgentRecord>)
    ensures forall r :: r in Matching(hash, latest, capabilities, rs) ==> r in rs
  {
    hide AdvertisesAll;
    if rs != [] { MatchingMembers(hash, latest, capabilities, rs[1..]); }
  }

  /** Leaving records out keeps the order of the rest. */
  lemma {:induction false} MatchingInOrder(hash: string -> Digest, latest: Latest, capabilities: seq<string>,
                                           order: seq<AgentId>, rs: seq<AgentRecord>)
    requires InPutOrder(order, rs)
    ensures InPutOrder(order, Matching(hash, latest, capabilities, rs))
  {
    hide AdvertisesAll, NoLater;
    if rs != [] {
      var rest, kept := rs[1..], Matching(hash, latest, capabilities, rs[1..]);
      assert forall i :: 0 <= i < |rest| ==> rest[i] == rs[i + 1];
      MatchingInOrder(hash, latest, capabilities, order, rest);
      MatchingMembers(hash, latest, capabilities, rest);
      forall j | 0 <= j < |kept| ensures NoLater(order, rs[0].agentId, kept[j].agentId) {
        assert kept[j] in rest;
        var k :| 0 <= k < |rest| && rest[k] == kept[j];
        assert rs[k + 1] == kept[j];
      }
    }
  }

  /** Each agent's first record in a list. */
  ghost function Firsts(rs: seq<AgentRecord>): seq<AgentRecord> {
    if rs == [] then []
    else
      var n := |rs| - 1;
      var some := Firsts(rs[..n]);
      if HasAgent(some, rs[n].agentId) then some else some + [rs[n]]
  }

  ghost predicate HasAgent(rs: seq<AgentRecord>, a: AgentId) { exists r :: r in rs && r.agentId == a }

  /** What `get` lists for each of the capabilities, in turn. */
  ghost function FoundIn(hash: string -> Digest, latest: Latest, order: seq<AgentId>, capabilities: seq<string>)
    : seq<AgentRecord>
  {
    if capabilities == [] then []
    else
      var n := |capabilities| - 1;
      FoundIn(hash, latest, order, capabilities[..n]) + Records(Listing(hash, latest, order, hash(capabilities[n])))
  }

  lemma FirstsNone(hash: string -> Digest, latest: Latest, order: seq<AgentId>)
    ensures Firsts(FoundIn(hash, latest, order, [])) == []
  {}

  lemma FirstsNext(rs: seq<AgentRecord>, x: AgentRecord)
    ensures Firsts(rs + [x]) ==
            if HasAgent(Firsts(rs), x.agentId) then Firsts(rs) else Firsts(rs) + [x]
  {
    assert (rs + [x])[..|rs|] == rs;
  }

  lemma FoundNext(hash: string -> Digest, latest: Latest, order: seq<AgentId>, capabilities: seq<string>, n: nat)
    requires n < |capabilities|
    ensures FoundIn(hash, latest, order, capabilities[..n + 1]) ==
            FoundIn(hash, latest, order, capabilities[..n])
            + Records(Listing(hash, latest, order, hash(capabilities[n])))
  {
    hide Listing;
    assert capabilities[..n + 1][..n] == capabilities[..n];
  }

  ghost predicate AdvertisesAny(hash: string -> Digest, latest: Latest, capabilities: seq<string>, r: AgentRecord) {
    exists i :: 0 <= i < |capabilities| && Advertises(hash, latest, hash(capabilities[i]), r)
  }

  lemma AnyNext(hash: string -> Digest, latest: Latest, capabilities: seq<string>, r: AgentRecord)
    requires capabilities != []
    ensures var n := |capabilities| - 1;
            AdvertisesAny(hash, latest, capabilities, r) <==>
            AdvertisesAny(hash, latest, capabilities[..n], r) || Advertises(hash, latest, hash(capabilities[n]), r)
  {
    hide Advertises;
    var n := |capabilities| - 1;
    assert forall i :: 0 <= i < n ==> capabilities[..n][i] == capabilities[i];
    if AdvertisesAny(hash, latest, capabilities[..n], r) {
      var i :| 0 <= i < n && Advertises(hash, latest, hash(capabilities[..n][i]), r);
      assert Advertises(hash, latest, hash(capabilities[i]), r);
    }
  }

  /** What is listed under a key is what is advertised under it. */
  lemma ListedMember(hash: string -> Digest, verify: AgentRecord -> bool, store: Store,
                     agentCaps: map<AgentId, seq<string>>, latest: Latest, order: seq<AgentId>,
                     key: Digest, r: AgentRecord)
    requires Represents(hash, verify, store, agentCaps, latest, order)
    ensures r in Records(Listing(hash, latest, order, key)) <==> Advertises(hash, latest, key, r)
  {
    hide Advertises, Listing, SharesAgree, Records;
    BucketMembers(hash, store, latest, key);
    assert Bucket(store, key) == Listing(hash, latest, order, key);
  }

  lemma {:induction false} FoundMember(hash: string -> Digest, verify: AgentRecord -> bool, store: Store,
                                       agentCaps: map<AgentId, seq<string>>, latest: Latest, order: seq<AgentId>,
                                       capabilities: seq<string>, r: AgentRecord)
    requires Represents(hash, verify, store, agentCaps, latest, order)
    ensures r in FoundIn(hash, latest, order, capabilities) <==> AdvertisesAny(hash, latest, capabilities, r)
  {
    hide Advertises, Listing, Represents, Records;
    if capabilities != [] {
      hide AdvertisesAny;
      var n := |capabilities| - 1;
      FoundMember(hash, verify, store, agentCaps, latest, order, capabilities[..n], r);
      AnyNext(hash, latest, capabilities, r);
      ListedMember(hash, verify, store, agentCaps, latest, order, hash(capabilities[n]), r);
    }
  }

  ghost predicate OncePerAgent(rs: seq<AgentRecord>) {
    forall i, j :: 0 <= i < j < |rs| ==> rs[i].agentId != rs[j].agentId
  }

  /** Each agent of a list is among its firsts, once. */
  lemma {:induction false} FirstsShape(rs: seq<AgentRecord>, x: AgentRecord)
    ensures OncePerAgent(Firsts(rs))
    ensures x in Firsts(rs) ==> x in rs
    ensures x in rs ==> HasAgent(Firsts(rs), x.agentId)
  {
    if rs != [] {
      hide Firsts, OncePerAgent, HasAgent;
      var n := |rs| - 1;
      FirstsShape(rs[..n], x);
      assert rs == rs[..n] + [rs[n]];
      FirstsNext(rs[..n], rs[n]);
      FirstAdded(Firsts(rs[..n]), rs[n], x.agentId);
    }
  }

  lemma FirstAdded(some: seq<AgentRecord>, x: AgentRecord, a: AgentId)
    requires OncePerAgent(some)
    ensures HasAgent(some + [x], x.agentId) && (HasAgent(some, a) ==> HasAgent(some + [x], a))
    ensures !HasAgent(some, x.agentId) ==> OncePerAgent(some + [x])
  {
    assert (some + [x])[|some|] == x;
    if HasAgent(some, a) {
      var r :| r in some && r.agentId == a;
      assert r in some + [x];
    }
    if !HasAgent(some, x.agentId) {
      forall i | 0 <= i < |some| ensures some[i].agentId != x.agentId { assert some[i] in some; }
    }
  }

  lemma FirstsOfFound(hash: string -> Digest, verify: AgentRecord -> bool, store: Store,
                      agentCaps: map<AgentId, seq<string>>, latest: Latest, order: seq<AgentId>,
                      capabilities: seq<string>)
    requires Represents(hash, verify, store, agentCaps, latest, order)
    ensures var rs := Firsts(FoundIn(hash, latest, order, capabilities));
            OncePerAgent(rs) && forall r :: r in rs <==> AdvertisesAny(hash, latest, capabilities, r)
  {
    hide Represents, Firsts, FoundIn, OncePerAgent;
    var found := FoundIn(hash, latest, order, capabilities);
    forall r ensures r in Firsts(found) <==> AdvertisesAny(hash, latest, capabilities, r)
    {
      FoundMember(hash, verify, store, agentCaps, latest, order, capabilities, r);
      FirstsShape(found, r);
      if r in found {
        var x :| x in Firsts(found) && x.agentId == r.agentId;
        FirstsShape(found, x);
        FoundMember(hash, verify, store, agentCaps, latest, order, capabilities, x);
      }
    }
    FirstsOnce(found);
  }

  lemma FirstsOnce(rs: seq<AgentRecord>)
    ensures OncePerAgent(Firsts(rs))
  {
    if rs != [] { FirstsShape(rs, rs[0]); }
  }

  /** `a` is the first of the capabilities that the record advertises. */
  ghost predicate FirstMatch(hash: string -> Digest, latest: Latest, capabilities: seq<string>, a: int,
                             r: AgentRecord)
  {
    && 0 <= a < |capabilities| && Advertises(hash, latest, hash(capabilities[a]), r)
    && !AdvertisesAny(hash, latest, capabilities[..a], r)
  }

  /** Of two records, the first has its first match no later, and if they have it at the same
      capability the order of the last `put` decides. */
  ghost predicate MatchesFirst(hash: string -> Digest, latest: Latest, order: seq<AgentId>, capabilities: seq<string>,
                               r: AgentRecord, s: AgentRecord)
  {
    exists a, b ::
      && FirstMatch(hash, latest, capabilities, a, r) && FirstMatch(hash, latest, capabilities, b, s)
      && a <= b && (a == b ==> NoLater(order, r.agentId, s.agentId))
  }

  ghost predicate ByFirstMatch(hash: string -> Digest, latest: Latest, order: seq<AgentId>, capabilities: seq<string>,
                               rs: seq<AgentRecord>)
  {
    forall i, j :: 0 <= i < j < |rs| ==> MatchesFirst(hash, latest, order, capabilities, rs[i], rs[j])
  }

  lemma {:induction false} FirstMatchExists(hash: string -> Digest, latest: Latest, capabilities: seq<string>,
                                            r: AgentRecord)
    returns (a: nat)
    requires AdvertisesAny(hash, latest, capabilities, r)
    ensures FirstMatch(hash, latest, capabilities, a, r)
  {
    hide Advertises;
    var n := |capabilities| - 1;
    AnyNext(hash, latest, capabilities, r);
    if AdvertisesAny(hash, latest, capabilities[..n], r) {
      a := FirstMatchExists(hash, latest, capabilities[..n], r);
      assert capabilities[..n][..a] == capabilities[..a];
    } else {
      a := n;
    }
  }

  lemma MatchesFirstExtended(hash: string -> Digest, latest: Latest, order: seq<AgentId>, capabilities: seq<string>,
                             n: nat, r: AgentRecord, s: AgentRecord)
    requires n <= |capabilities| && MatchesFirst(hash, latest, order, capabilities[..n], r, s)
    ensures MatchesFirst(hash, latest, order, capabilities, r, s)
  {
    hide Advertises, AdvertisesAny, NoLater;
    var a, b :| FirstMatch(hash, latest, capabilities[..n], a, r) && FirstMatch(hash, latest, capabilities[..n], b, s)
             && a <= b && (a == b ==> NoLater(order, r.agentId, s.agentId));
    assert capabilities[..n][..a] == capabilities[..a] && capabilities[..n][..b] == capabilities[..b];
    assert FirstMatch(hash, latest, capabilities, a, r) && FirstMatch(hash, latest, capabilities, b, s);
  }

  /** Adding what `get` lists for one more capability, `m` records in. */
  lemma {:induction false} FirstsInOrderUpTo(hash: string -> Digest, verify: AgentRecord -> bool, store: Store,
                                             agentCaps: map<AgentId, seq<string>>, latest: Latest,
                                             order: seq<AgentId>, capabilities: seq<string>,
                                             earlier: seq<AgentRecord>, listed: seq<AgentRecord>, m: nat)
    requires Represents(hash, verify, store, agentCaps, latest, order) && capabilities != []
    requires earlier == FoundIn(hash, latest, order, capabilities[..|capabilities| - 1])
    requires listed == Records(Listing(hash, latest, order, hash(capabilities[|capabilities| - 1])))
    requires m <= |listed|
    ensures ByFirstMatch(hash, latest, order, capabilities, Firsts(earlier + listed[..m]))
    decreases |capabilities|, m
  {
    hide Represents, Firsts, FoundIn, Listing, Records, MatchesFirst, ByFirstMatch;
    var n := |capabilities| - 1;
    if m == 0 {
      assert earlier + listed[..0] == earlier;
      FirstsInOrder(hash, verify, store, agentCaps, latest, order, capabilities[..n]);
      ByFirstMatchExtended(hash, latest, order, capabilities, n, Firsts(earlier));
    } else {
      FirstsInOrderUpTo(hash, verify, store, agentCaps, latest, order, capabilities, earlier, listed, m - 1);
      var all, x := earlier + listed[..m - 1], listed[m - 1];
      assert earlier + listed[..m] == all + [x];
      FirstsNext(all, x);
      if !HasAgent(Firsts(all), x.agentId) {
        forall r | r in Firsts(all) ensures MatchesFirst(hash, latest, order, capabilities, r, x) {
          NewMatchesLast(hash, verify, store, agentCaps, latest, order, capabilities, earlier, listed, m - 1, r);
        }
        ByFirstMatchAppend(hash, latest, order, capabilities, Firsts(all), x);
      }
    }
  }

  lemma ByFirstMatchExtended(hash: string -> Digest, latest: Latest, order: seq<AgentId>, capabilities: seq<string>,
                             n: nat, rs: seq<AgentRecord>)
    requires n <= |capabilities| && ByFirstMatch(hash, latest, order, capabilities[..n], rs)
    ensures ByFirstMatch(hash, latest, order, capabilities, rs)
  {
    hide MatchesFirst;
    forall i, j | 0 <= i < j < |rs| ensures MatchesFirst(hash, latest, order, capabilities, rs[i], rs[j]) {
      MatchesFirstExtended(hash, latest, order, capabilities, n, rs[i], rs[j]);
    }
  }

  lemma ByFirstMatchAppend(hash: string -> Digest, latest: Latest, order: seq<AgentId>, capabilities: seq<string>,
                           rs: seq<AgentRecord>, x: AgentRecord)
    requires ByFirstMatch(hash, latest, order, capabilities, rs)
    requires forall r :: r in rs ==> MatchesFirst(hash, latest, order, capabilities, r, x)
    ensures ByFirstMatch(hash, latest, order, capabilities, rs + [x])
  {
    hide MatchesFirst;
  }

  /** A record listed for the last capability whose agent has not been met comes after all that
      have. */
  lemma NewMatchesLast(hash: string -> Digest, verify: AgentRecord -> bool, store: Store,
                       agentCaps: map<AgentId, seq<string>>, latest: Latest, order: seq<AgentId>,
                       capabilities: seq<string>, earlier: seq<AgentRecord>, listed: seq<AgentRecord>,
                       m: nat, r: AgentRecord)
    requires Represents(hash, verify, store, agentCaps, latest, order) && capabilities != []
    requires earlier == FoundIn(hash, latest, order, capabilities[..|capabilities| - 1])
    requires listed == Records(Listing(hash, latest, order, hash(capabilities[|capabilities| - 1])))
    requires m < |listed| && r in Firsts(earlier + listed[..m])
    requires !HasAgent(Firsts(earlier + listed[..m]), listed[m].agentId)
    ensures MatchesFirst(hash, latest, order, capabilities, r, listed[m])
  {
    hide Represents, Firsts, FoundIn, Listing, Records, Advertises, AdvertisesAny, HasAgent, NoLater;
    var n := |capabilities| - 1;
    var key := hash(capabilities[n]);
    var all, x := earlier + listed[..m], listed[m];
    FirstsShape(all, r);
    FirstsShape(all, x);
    FoundMember(hash, verify, store, agentCaps, latest, order, capabilities[..n], r);
    FoundMember(hash, verify, store, agentCaps, latest, order, capabilities[..n], x);
    ListedMember(hash, verify, store, agentCaps, latest, order, key, x);
    assert FirstMatch(hash, latest, capabilities, n, x);
    if r in earlier {
      var a := FirstMatchExists(hash, latest, capabilities[..n], r);
      assert capabilities[..n][..a] == capabilities[..a];
      assert FirstMatch(hash, latest, capabilities, a, r);
    } else {
      var k :| 0 <= k < m && listed[..m][k] == r;
      ListedMember(hash, verify, store, agentCaps, latest, order, key, r);
      assert FirstMatch(hash, latest, capabilities, n, r);
      OrderUnder(hash, verify, store, agentCaps, latest, order, key, k, m);
    }
  }

  lemma OrderUnder(hash: string -> Digest, verify: AgentRecord -> bool, store: Store,
                   agentCaps: map<AgentId, seq<string>>, latest: Latest, order: seq<AgentId>, key: Digest,
                   i: nat, j: nat)
    requires Represents(hash, verify, store, agentCaps, latest, order)
    requires i < j < |Records(Listing(hash, latest, order, key))|
    ensures var rs := Records(Listing(hash, latest, order, key)); NoLater(order, rs[i].agentId, rs[j].agentId)
  {
    hide Listing, Records, NoLater, Agrees;
    GetInOrder(hash, store, latest, order, key);
  }

  lemma {:induction false} FirstsInOrder(hash: string -> Digest, verify: AgentRecord -> bool, store: Store,
                                         agentCaps: map<AgentId, seq<string>>, latest: Latest, order: seq<AgentId>,
                                         capabilities: seq<string>)
    requires Represents(hash, verify, store, agentCaps, latest, order)
    ensures ByFirstMatch(hash, latest, order, capabilities, Firsts(FoundIn(hash, latest, order, capabilities)))
    decreases |capabilities|
  {
    hide Represents, Listing, MatchesFirst, Records;
    if capabilities == [] {
      FirstsNone(hash, latest, order);
    } else {
      hide ByFirstMatch, Firsts;
      var n := |capabilities| - 1;
      var listed := Records(Listing(hash, latest, order, hash(capabilities[n])));
      FirstsInOrderUpTo(hash, verify, store, agentCaps, latest, order, capabilities,
                        FoundIn(hash, latest, order, capabilities[..n]), listed, |listed|);
      assert listed[..|listed|] == listed;
    }
  }

  /** Records are kept with their multiplicity or dropped altogether. */
  ghost predicate KeptFrom(all: seq<AgentRecord>, rs: seq<AgentRecord>) {
    forall r :: r in rs ==> multiset(rs)[r] == multiset(all)[r]
  }

  lemma KeptTwice(all: seq<AgentRecord>, rs: seq<AgentRecord>, kept: seq<AgentRecord>)
    requires KeptFrom(all, rs) && KeptFrom(rs, kept)
    ensures KeptFrom(all, kept)
  {
    forall r | r in kept ensures multiset(kept)[r] == multiset(all)[r] {
      assert r in multiset(kept) && multiset(kept)[r] == multiset(rs)[r];
      assert r in multiset(rs);
      assert r in rs;
    }
  }

  lemma FirstMatches(hash: string -> Digest, latest: Latest, capabilities: seq<string>, rs: seq<AgentRecord>)
    requires capabilities != []
    requires forall r :: r in rs <==> Advertises(hash, latest, hash(capabilities[0]), r)
    ensures AllOf(hash, latest, capabilities[..1], rs)
  {
    hide Advertises;
  }

  lemma {:induction false} RetainKeepsCounts(rs: seq<AgentRecord>, ids: set<AgentId>)
    ensures KeptFrom(rs, Retain(rs, ids))
  {
    if rs != [] {
      var first, rest := if rs[0].agentId in ids then [rs[0]] else [], Retain(rs[1..], ids);
      RetainKeepsCounts(rs[1..], ids);
      assert rs == [rs[0]] + rs[1..];
      assert Retain(rs, ids) == first + rest;
      forall r | r in Retain(rs, ids) ensures multiset(Retain(rs, ids))[r] == multiset(rs)[r] {
        assert r in rest || r !in rs[1..];
      }
    }
  }

  /** One round of `get_all`. */
  lemma RetainNext(hash: string -> Digest, latest: Latest, capabilities: seq<string>, n: nat,
                   rs: seq<AgentRecord>, found: seq<AgentRecord>, ids: set<AgentId>)
    requires 1 <= n < |capabilities| && ids == set r | r in found :: r.agentId
    requires AllOf(hash, latest, capabilities[..n], rs)
    requires forall r :: r in found <==> Advertises(hash, latest, hash(capabilities[n]), r)
    ensures AllOf(hash, latest, capabilities[..n + 1], Retain(rs, ids))
  {
    hide Advertises, AdvertisesAll;
    forall r ensures AdvertisesAll(hash, latest, capabilities[..n + 1], r) <==>
                     AdvertisesAll(hash, latest, capabilities[..n], r) &&
                     Advertises(hash, latest, hash(capabilities[n]), r)
             ensures AdvertisesAll(hash, latest, capabilities[..n], r) ==>
                     Advertises(hash, latest, hash(capabilities[0]), r)
    {
      AllNext(hash, latest, capabilities, n, r);
    }
    IdsIdentify(hash, latest, hash(capabilities[0]), hash(capabilities[n]), rs, found, ids);
  }

  /** Among latest records an agent id identifies the record. */
  lemma IdsIdentify(hash: string -> Digest, latest: Latest, k: Digest, l: Digest,
                    rs: seq<AgentRecord>, found: seq<AgentRecord>, ids: set<AgentId>)
    requires forall r :: r in rs ==> Advertises(hash, latest, k, r)
    requires forall r :: r in found <==> Advertises(hash, latest, l, r)
    requires ids == set r | r in found :: r.agentId
    ensures forall r :: r in rs ==> (r.agentId in ids <==> Advertises(hash, latest, l, r))
  {
    forall r | r in rs ensures r.agentId in ids <==> Advertises(hash, latest, l, r) {
      assert Advertises(hash, latest, k, r);
      if r.agentId in ids {
        var s :| s in found && s.agentId == r.agentId;
        assert Advertises(hash, latest, l, s);
      }
    }
  }
}
