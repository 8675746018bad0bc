# AAFP protocol core, in Dafny

A machine-checked model of the parts of AAFP (an agent-to-agent protocol over QUIC) that its
security and interoperability rest on: the canonical CBOR codec, the handshake messages and their
transcript, the nonce replay cache, the capability index, the legacy hello codec, the handshake
state machines and the session object.

`dafny verify dfyconfig.toml` checks everything; all results are proofs about the model.

## What is modelled, and how

**CBOR codec** (`Bytes`, `Utf8`, `CborValue`, `EntrySort`, `CborEncode`, `CborDecode`, `CborLocality`,
`CborRoundTrip`, `CborPrint`, `CborCanonical`, `CborShape`, `CborWire`). `Encode(v)` is defined as printing (`Emit`) the
canonical form (`Canon`) of a value; method `EncodeValue` is the encoder as written, which sorts each map as
it meets it. `ValueAt` says what the octets at an offset mean; method `DecodeValue` is the decoder as written,
with its cursor, loops, error cases and a count of its own calls. The main results are that decoding
undoes encoding exactly for well-formed values of at most 100 levels and refuses all others, that a
successful decode depends on the consumed octets alone, that truncation is always reported as such, that
any two values have one encoding exactly when they are the same up to how entries of different keys are
interleaved, that an accepted octet string is re-encoded byte for byte if and only if it is strict
(`StrictAt`), and what shape everything the decoder returns has. `CborWire` gives the wire form in numbers,
independently of the constants encoder and decoder share. `usize` is 64 bits wide: lengths are cast
with `AsU64`, and theorems bound the buffer by 2^64 octets where a Rust slice does so by its type. Text is
its UTF-8 octets.

**Handshake** (`Transcript`, `HandshakeMessages`, `HandshakeFields`, `HandshakeRun`, `HandshakeDriver`,
`HandshakeAgreement`, `HandshakeReplay`). SHA-256, HKDF, HMAC and
ML-DSA-65 are arbitrary functions passed as arguments. No property of the hash is assumed, so binding results
read "equal, or the two runs collide": `RunsCollide` says that the two runs themselves hashed different octets
to one digest. `Handshake` runs all three messages over the wire in the order of `handshake_v1`, each end
seeing only what it decodes from the other's octets; `DriveHandshake` does so in the order of the SDK's driver,
with its two replay checks. What an accepted message says about its sender is stated of the signature
presented: `Unforged` says that, as a handshake signature, it verifies only for transcripts in the log of its
key's owner, who may sign in both roles, correctly, and outside handshakes as well (`SchemeExists`).
`HandshakeReplay` joins the driver's checks and insertions to runs of the replay cache. Error message texts are left out; field names are kept.

**Replay cache** (`ReplayCache`, `ReplayRuns`, `ReplayLru`, `ReplayConcurrency`). `Step` relates the table
before and after one locked operation; the class performs these steps with the loops of the source. Hash
map iteration order is arbitrary. Both clock readings are arguments: `now`, taken before the lock, and
`lruNow`, taken inside `evict_lru`. Runs list operations in lock order, so readings need not be ordered
unless a theorem says so. The reference is a plain log of insertions since the last clear.

**Capability index** (`CapabilityDht`). The class keeps its two indexes; a ghost map from agent to latest
record, with the agents in the order of their last `put`, is what both must agree with. The capability hash and `AgentRecord::verify` are arbitrary functions.

**Legacy hello codec** (`LegacyHello`), **handshake machines** (`Ladder`, `HandshakeState`) and **session**
(`Session`). The three life cycles share one shape, a ladder of working states followed by Closing and
Closed; each `can_transition_to` is proved equal to it and the run results are proved on it.

Where the code and its comments disagree the model follows the code:

- `ReplayCache::insert` replaces a live entry, although its comment calls that a no-op
  (replay_cache.rs:304; `InsertOnLive`).
- `check_canonical` does not look at key order and accepts `undefined`, although its comment promises the
  deterministic encoding of section 4.2.3 of RFC 8949 (cbor lib.rs:150-161). `ReencodeExact` states what is
  missing.
- Integer keys are sorted length-first and text keys bytewise. For text the two orders coincide
  (`TextKeyOrder`), for integers they differ exactly where a negative key has a narrower header than a
  non-negative one (`IntKeyOrdersAgree`).
- `evict_lru` drops an expired entry first and, on a full tie with its second clock reading, none at all;
  `max_entries` can then be exceeded (`LimitPassed`, `LimitExact`).
- The client's ChSent deadline is still in force in Messaging (`ClientTimesOutInMessaging`).
- Entering ChSent (client) or TransportReady (server) forgets peer messages taken before, so the duplicate
  guard holds only from there on (`GuardExact`).
- `is_identity_verified` holds after an early abort, of the session (`VerifiedIsNoEvidence`, `VerifiedExact`)
  and of both handshake machines (`ClientVerifiedExact`, `ServerVerifiedExact`). So do `is_authenticated`
  (`AuthenticatedExact`) and `is_handshake_complete` (`ClientCompleteExact`, `ServerCompleteExact`).
- The decoder rejects duplicate keys, but compares them before unsigned keys are cast to i64, so it can return
  an integer map with a key twice (`RepeatedKeyDecoded`, `DecodedShape`).
- The module documentation and test of `handshake_v1` sign ClientFinished over a transcript that includes
  it. The SDK's driver (aafp-sdk handshake_driver.rs:303-306, 423) signs and checks it over the transcript
  that ends with ServerHello, the octets ServerHello was signed over (`OneInputTwice`). There a signature
  tells the two steps apart only if the peer's key is not the agent's own (`ServerAgreement`,
  `ClientAgreement`, `OwnReplyExact`); in the order of `handshake_v1` it always does (`FinishAttributed`,
  `ReplyAttributed`). The driver's client takes the session id from ServerHello without deriving it
  (`ClientTakesSessionId`).
- The driver calls `check` and later `insert`, not `check_and_insert`, so two handshakes with one nonce can
  both pass (`BothPass`, `TwoHandshakes`).

## Model

| member | source | states |
|---|---|---|
| CborEncode.HeaderShortest | crates/aafp-cbor/src/lib.rs:177-193 | no other header width that can hold the argument gives a shorter header |
| CborEncode.HeaderInjective | crates/aafp-cbor/src/lib.rs:177-193 | major type, argument and remainder can be read back off any octet string that starts with a header |
| CborEncode.IntKeyStrictOrder | crates/aafp-cbor/src/lib.rs:255-280 | the integer-key comparison is a strict total order on all i64 |
| CborEncode.IntKeyOrder | crates/aafp-cbor/src/lib.rs:255-280 | in numbers: narrower headers first, then non-negative keys, then distance from zero |
| CborEncode.IntKeyOrderIsNotBytewise | crates/aafp-cbor/src/lib.rs:271-280 | -1 sorts before 24 although its encoding is bytewise larger |
| CborEncode.IntKeyBytewise | crates/aafp-cbor/src/lib.rs:255-280 | the bytewise order of integer keys in numbers: non-negative first, then distance from zero |
| CborEncode.IntKeyOrdersAgree | crates/aafp-cbor/src/lib.rs:255-303 | the length-first and the bytewise order agree on a pair of keys if and only if neither is a negative key with a narrower header than a non-negative other |
| CborEncode.TextKeyStrictOrder | crates/aafp-cbor/src/lib.rs:283-312 | the text-key comparison is a strict total order |
| CborEncode.TextKeyOrder | crates/aafp-cbor/src/lib.rs:283-312 | bytewise order of full encodings equals length-first order, of the keys and of their encodings |
| EntrySort.SortStable | crates/aafp-cbor/src/lib.rs:272-303 | entries that share a key keep their order, and none is lost or added |
| EntrySort.SortSorted | crates/aafp-cbor/src/lib.rs:272-303 | the result is sorted for every strict order |
| EntrySort.SortFixed | crates/aafp-cbor/src/lib.rs:272-303 | a sorted list, equal keys included, is left alone |
| EntrySort.SortExact | crates/aafp-cbor/src/lib.rs:272-303 | two lists sort to one if and only if they agree key by key, repeated keys included |
| CborEncode.CanonIdempotent | crates/aafp-cbor/src/lib.rs:195-252 | the canonical form is a fixed point |
| CborEncode.EncodeValue | crates/aafp-cbor/src/lib.rs:195-252 | the buffer-growing encoder appends the printed canonical form |
| CborEncode.EncodeItems | crates/aafp-cbor/src/lib.rs:215-220 | the array loop appends the canonical items in order |
| CborEncode.EncodeEntries | crates/aafp-cbor/src/lib.rs:221-240 | the loop over sorted entries appends keys and canonical values in order |
| CborCanonical.ArgumentExact | crates/aafp-cbor/src/lib.rs:473-553 | an argument is accepted, with its value and the offset after it, if and only if it stands there in the one width the encoder uses |
| CborWire.HeaderInNumbers | crates/aafp-cbor/src/lib.rs:177-193 | the header of every major type and argument, octet by octet |
| CborWire.WireForm | crates/aafp-cbor/src/lib.rs:195-252 | the encoding of every value in numbers: major types 0 to 5, counts and lengths, sorted entries, and 0xF4, 0xF5, 0xF6 for false, true and null |
| CborWire.DecodedKind | crates/aafp-cbor/src/lib.rs:314-471 | the top three bits of the first octet fix the kind of what is decoded, the octet itself under major type 7 |
| CborWire.ArgumentRefused | crates/aafp-cbor/src/lib.rs:473-553 | exactly when an argument runs past the end, would have fitted a narrower header, or has no width |
| CborWire.BodyRefused | crates/aafp-cbor/src/lib.rs:335-471 | by major type, with which error and offset a value is refused although its header is read |
| CborWire.OutOfRange | crates/aafp-cbor/src/lib.rs:319-332 | an empty rest is UnexpectedEof, level 100 is DepthExceeded |
| CborWire.MapKeys | crates/aafp-cbor/src/lib.rs:411-450 | integer keys are cast from u64 to i64, text keys kept, a mixture refused |
| CborWire.DuplicateRefused | crates/aafp-cbor/src/lib.rs:401-407 | a repeated key is refused after its value has been read |
| CborWire.EncodingsAreCanonical | crates/aafp-cbor/src/lib.rs:162-175 | check_canonical accepts every encoding the decoder can read back, and refuses it with anything after it |
| Utf8.ValidExact | crates/aafp-cbor/src/lib.rs:366-377 | well-formed text octets are exactly the RFC 3629 encodings of sequences of scalar values |
| CborShape.DecodedShape | crates/aafp-cbor/src/lib.rs:314-471 | everything decoded nests at most 100 levels, has negatives below zero and string maps that are nonempty and repeat no key; it is well formed if and only if in no map an unsigned key is cast to another of its keys |
| CborShape.PairsShape | crates/aafp-cbor/src/lib.rs:397-409 | the pairs of a decoded map have different keys as decoded, follow those read before, and have values of that shape |
| CborShape.RepeatedKeyDecoded | crates/aafp-cbor/src/lib.rs:411-450 | keys 2^64 - 1 and -1 of one map both come back as -1 |
| CborDecode.DecodeValue | crates/aafp-cbor/src/lib.rs:314-471 | the decoder as written yields what the octets mean, its cursor never leaves the buffer, and it makes at most one call per consumed octet, plus one on failure |
| CborDecode.DecodeItems | crates/aafp-cbor/src/lib.rs:379-390 | the same for the array loop |
| CborDecode.DecodePairs | crates/aafp-cbor/src/lib.rs:397-409 | the same for the map loop with its duplicate check |
| CborDecode.Decode | crates/aafp-cbor/src/lib.rs:144-148 | on any n octets at most n + 1 decoder calls are made |
| CborLocality.DecodeLocal | crates/aafp-cbor/src/lib.rs:314-471 | a success consumes at least one octet and is the same before any other suffix, in spite of the whole-buffer length guards |
| CborLocality.TruncationRunsOut | crates/aafp-cbor/src/lib.rs:314-553 | every proper prefix of the octets a value was decoded from fails with UnexpectedEof and nothing else |
| CborRoundTrip.FitsMeaning | crates/aafp-cbor/src/lib.rs:314-332 | what the decoder can represent at a depth is well-formedness plus at most 100 levels in all |
| CborRoundTrip.CanonFits | crates/aafp-cbor/src/lib.rs:195-252 | canonicalizing neither creates nor hides a representability problem |
| CborRoundTrip.ValueAtEmit | crates/aafp-cbor/src/lib.rs:314-471 | a printed value, wherever it stands, is read back if it fits and refused for the right reason if not |
| CborRoundTrip.RoundTrip | crates/aafp-cbor/src/lib.rs:130-148 | with any suffix, a value decodes to its canonical form using up exactly its encoding if and only if it is well formed and at most 100 levels deep; a value that is only too deep is refused as too deep |
| CborCanonical.SameIffCanon | crates/aafp-cbor/src/lib.rs:195-252 | canonical forms of any two values are equal exactly when the values agree up to how entries of different keys are interleaved, at every depth, and up to empty-map kind |
| CborPrint.EmitInjective | crates/aafp-cbor/src/lib.rs:195-252 | two printed values at the front of one octet string are the same value, whatever their keys, negatives and depth |
| CborCanonical.EncodingInjective | crates/aafp-cbor/src/lib.rs:195-312 | any two values have one encoding exactly when they are the same in that sense, and no encoding is a proper prefix of another |
| CborCanonical.AcceptedHeader | crates/aafp-cbor/src/lib.rs:473-553 | an accepted header is the one the encoder writes for that argument |
| CborCanonical.StrictPrinted | crates/aafp-cbor/src/lib.rs:314-471 | octets that are strict are the printed form of the canonical value they decode to |
| CborCanonical.StrictEmit | crates/aafp-cbor/src/lib.rs:195-252 | printed canonical values are strict |
| CborCanonical.ReencodeExact | crates/aafp-cbor/src/lib.rs:162-175 | for accepted octets, re-encoding the decoded value returns them if and only if maps are in encoder order, no unsigned key exceeds i64::MAX and nothing is spelled undefined |
| CborCanonical.ReencodeFails | crates/aafp-cbor/src/lib.rs:452-456 | the accepted octet 0xF7 is re-encoded as 0xF6 |
| Transcript.TranscriptBinding | crates/aafp-crypto/src/handshake_v1.rs:66-92 | equal transcripts have equal bindings and message sequences, or the two runs hashed different octets to one digest |
| Transcript.TranscriptSpelled | crates/aafp-crypto/src/handshake_v1.rs:66-92 | the transcripts of no, one, two and three messages written out |
| Transcript.SignatureInputSpelled | crates/aafp-crypto/src/handshake_v1.rs:325-330 | the signature input is aafp-v1-handshake, then the hash |
| Transcript.SignatureInputExact | crates/aafp-crypto/src/handshake_v1.rs:325-330 | unless the runs collide so, two signature inputs are equal if and only if binding and folded messages are |
| Transcript.StepsNeverCoincide | crates/aafp-crypto/src/handshake_v1.rs:325-330 | equal signature inputs after different numbers of messages mean that the two runs collide |
| Transcript.TranscriptHash.FromTlsBinding | crates/aafp-crypto/src/handshake_v1.rs:68-76 | a new transcript stands for its binding and no messages |
| Transcript.TranscriptHash.Fold | crates/aafp-crypto/src/handshake_v1.rs:80-86 | folding appends the message to what the hash stands for |
| HandshakeMessages.LookupMember | crates/aafp-cbor/src/lib.rs:567-572 | with distinct keys, looking up an entry's key finds its value |
| HandshakeMessages.LookupFirst | crates/aafp-cbor/src/lib.rs:567-572 | the first entry with the key is found, also where a key is repeated |
| HandshakeMessages.FieldSurvives | crates/aafp-cbor/src/lib.rs:567-572 | a field of a decoded map is the canonical form of the field that was encoded |
| HandshakeMessages.ClientHelloUnsignedDrops | crates/aafp-crypto/src/handshake_v1.rs:138-174 | the signed form has every field but signature and MAC |
| HandshakeMessages.ServerHelloUnsignedDrops | crates/aafp-crypto/src/handshake_v1.rs:241-269 | the signed form has every field but the signature |
| HandshakeMessages.ClientHelloSurvives | crates/aafp-crypto/src/handshake_v1.rs:138-211 | a ClientHello arrives exactly when its nested values are well formed and at most 98 levels deep, and its receiver rebuilds the octets that were signed |
| HandshakeMessages.ServerHelloSurvives | crates/aafp-crypto/src/handshake_v1.rs:241-287 | the same for ServerHello |
| HandshakeMessages.ClientFinishedSurvives | crates/aafp-crypto/src/handshake_v1.rs:301-321 | a ClientFinished arrives unchanged |
| HandshakeFields.ClientHelloNumbered | crates/aafp-crypto/src/handshake_v1.rs:138-174 | which key holds which field, sent and signed, in numbers |
| HandshakeFields.ServerHelloNumbered | crates/aafp-crypto/src/handshake_v1.rs:241-269 | the same for ServerHello |
| HandshakeFields.ClientFinishedNumbered | crates/aafp-crypto/src/handshake_v1.rs:301-313 | the same for ClientFinished |
| HandshakeFields.ClientHelloOnWire | crates/aafp-crypto/src/handshake_v1.rs:157-174 | what stands under every key of the decoded octets of a ClientHello |
| HandshakeFields.ServerHelloOnWire | crates/aafp-crypto/src/handshake_v1.rs:255-269 | the same for ServerHello |
| HandshakeFields.ClientFinishedOnWire | crates/aafp-crypto/src/handshake_v1.rs:305-313 | the same for ClientFinished |
| HandshakeFields.ClientHelloRead | crates/aafp-crypto/src/handshake_v1.rs:177-211 | reading a value reports the first field that is missing or of the wrong kind, and otherwise takes every field from its key |
| HandshakeFields.ServerHelloRead | crates/aafp-crypto/src/handshake_v1.rs:271-287 | the same for ServerHello |
| HandshakeFields.ClientFinishedRead | crates/aafp-crypto/src/handshake_v1.rs:315-321 | the same for ClientFinished |
| HandshakeMessages.ClientHelloSignedDetermines | crates/aafp-crypto/src/handshake_v1.rs:138-151 | equal signed octets mean equal content, up to interleaving of keys in nested maps, for any two hellos, received ones with repeated keys included |
| HandshakeMessages.ServerHelloSignedDetermines | crates/aafp-crypto/src/handshake_v1.rs:241-253 | the same for ServerHello |
| HandshakeMessages.ClientFinishedSignedDetermines | crates/aafp-crypto/src/handshake_v1.rs:301-303 | equal signed octets mean equal session ids |
| HandshakeRun.SessionIdBinds | crates/aafp-crypto/src/handshake_v1.rs:343-362 | a session id fixes transcript, both nonces and server identity, or the key derivation collides |
| HandshakeRun.LabelsSpelled | crates/aafp-crypto/src/handshake_v1.rs:343-370 | the labels of the session id and of the MAC key |
| HandshakeRun.VerifyClientHello | crates/aafp-crypto/src/handshake_v1.rs:534-582 | accepts exactly version 1, algorithm 1, an id that hashes the key, a valid signature over this transcript and an unexpired identity, and returns that id |
| HandshakeRun.VerifyServerHello | crates/aafp-crypto/src/handshake_v1.rs:590-638 | the same, returning id and session id |
| HandshakeRun.VerifyClientFinished | crates/aafp-crypto/src/handshake_v1.rs:644-673 | accepts exactly the expected session id with a valid signature over this transcript |
| HandshakeRun.HelloChecks | crates/aafp-crypto/src/handshake_v1.rs:534-638 | both hello checks fail with the first reason that applies, in the order of the source, and otherwise return the id |
| HandshakeRun.FinishedCheck | crates/aafp-crypto/src/handshake_v1.rs:644-673 | so does the check of ClientFinished |
| HandshakeRun.ReceiverMacBinds | crates/aafp-crypto/src/handshake_v1.rs:365-370 | equal MACs mean equal receiver and octets, or two named derivations or two named MACs collide |
| HandshakeRun.VerifyReceiverMac | crates/aafp-crypto/src/handshake_v1.rs:373-388 | the accumulating comparison accepts exactly the right MAC |
| HandshakeRun.HonestHandshake | crates/aafp-crypto/src/handshake_v1.rs:873-1011 | honest ends with one binding complete over the wire with equal transcripts, the derived session id on both sides and each other's identity |
| HandshakeRun.HandshakeChecks | crates/aafp-crypto/src/handshake_v1.rs:873-1011 | a handshake completes only if every message was received and every check passed, over the transcripts named |
| HandshakeRun.HellosCarryOffers | crates/aafp-sdk/src/handshake_driver.rs:244-258 | what a hello carries, field by field |
| HandshakeRun.TranscriptFixesContent | crates/aafp-crypto/src/handshake_v1.rs:66-92 | equal final transcripts mean equal binding and equal content of all three messages, whoever sent them, or the two runs collide |
| HandshakeRun.VerifiedMeansSigned | crates/aafp-crypto/src/handshake_v1.rs:325-330 | an unforged signature that verifies over a transcript was made for exactly that binding and those messages, or that run and this one collide |
| HandshakeRun.AcceptedMeansSigned | crates/aafp-crypto/src/handshake_v1.rs:644-673 | so an accepted ClientFinished whose signature is not forged was signed by the client for exactly this run |
| HandshakeRun.SchemeExists | crates/aafp-crypto/src/handshake_v1.rs:325-330 | correct signing and unforged signatures go together: in some scheme an agent signs correctly and no signature made for its log, whatever that is, is forged |
| HandshakeDriver.ServerReceivesExact | crates/aafp-sdk/src/handshake_driver.rs:357-400 | the driver's server answers if and only if the octets are a hello with an unseen nonce, version 1, algorithm 1 and an authentic, unexpired identity; what it then holds, and when it reports the nonce |
| HandshakeDriver.ClientReceivesExact | crates/aafp-sdk/src/handshake_driver.rs:273-307 | the same for the driver's client and a ServerHello |
| HandshakeDriver.ServerFinishesExact | crates/aafp-sdk/src/handshake_driver.rs:418-438 | the driver's server completes if and only if the octets are a ClientFinished with its session id and the peer's signature over both hellos |
| HandshakeDriver.ServerAnswers | crates/aafp-sdk/src/handshake_driver.rs:357-413 | the driver's server answers an honest hello with its reply, or reports the nonce if its cache has seen it |
| HandshakeDriver.ClientTakesSessionId | crates/aafp-sdk/src/handshake_driver.rs:273-307 | the driver's client accepts whatever session id an honest server signed, and goes on with it |
| HandshakeDriver.DrivenHandshake | crates/aafp-sdk/src/handshake_driver.rs:216-438 | honest ends with one binding complete if and only if neither cache has seen the other's nonce, with equal transcripts, equal session ids and each other's identity |
| HandshakeDriver.OneInputTwice | crates/aafp-sdk/src/handshake_driver.rs:302-306 | in the driver's order ServerHello and ClientFinished are signed over the same octets |
| HandshakeDriver.TwoInputs | crates/aafp-crypto/src/handshake_v1.rs:978-990 | in the order of handshake_v1 they are not, unless the two runs collide |
| HandshakeAgreement.SignedAsLogged | crates/aafp-sdk/src/handshake_driver.rs:262-306 | the signing steps of both orders sign the transcripts their log entries stand for, and a hello carries its signer's key |
| HandshakeAgreement.FoldedFixes | crates/aafp-crypto/src/handshake_v1.rs:66-92 | what was folded fixes binding and content of the hellos, and, in the order of handshake_v1, the step |
| HandshakeAgreement.OpeningAttributed | crates/aafp-crypto/src/handshake_v1.rs:534-582 | an accepted ClientHello was signed to open a handshake with this binding and content, in either order, or runs collide |
| HandshakeAgreement.AnswerMeansOpened | crates/aafp-sdk/src/handshake_driver.rs:357-400 | when the driver's server answers, the key of the hello signed it to open a handshake with this binding and content, or runs collide |
| HandshakeAgreement.ReplyAttributed | crates/aafp-crypto/src/handshake_v1.rs:590-638 | an accepted ServerHello was signed as a reply with this binding and the content of both hellos, always in the order of handshake_v1, in the driver's if the two ends have different keys |
| HandshakeAgreement.FinishAttributed | crates/aafp-crypto/src/handshake_v1.rs:644-673 | the same for an accepted ClientFinished, signed as one |
| HandshakeAgreement.ServerAgreement | crates/aafp-sdk/src/handshake_driver.rs:418-438 | when the driver's server completes with a peer whose key is not its own, that key signed a ClientFinished for its binding and the content of both hellos, session id included, or runs collide |
| HandshakeAgreement.ClientAgreement | crates/aafp-sdk/src/handshake_driver.rs:273-300 | when the driver's client accepts a ServerHello whose key is not its own, that key signed a reply with its binding and the content of both hellos, or runs collide |
| HandshakeAgreement.OwnReplyExact | crates/aafp-sdk/src/handshake_driver.rs:388-424 | towards a peer that has finished nothing, the signature of the server's own reply completes the handshake if and only if the peer presented the server's own key |
| HandshakeReplay.InsertionLogged | crates/aafp-crypto/src/replay_cache.rs:306-324 | an insertion stays in the log until the next clear |
| HandshakeReplay.AnsweredOnce | crates/aafp-sdk/src/handshake_driver.rs:357-386 | a ClientHello answered once is refused within one retention of its insertion, whatever else the second attempt brings |
| HandshakeReplay.TakenOnce | crates/aafp-sdk/src/handshake_driver.rs:273-300 | the same for a ServerHello |
| HandshakeReplay.RefusedExact | crates/aafp-sdk/src/handshake_driver.rs:362-369 | a decoded ClientHello is refused as reused if and only if its agent id and nonce are live in the insertion log |
| ReplayCache.MakeKey | crates/aafp-crypto/src/replay_cache.rs:103-110 | octet by octet: the id cut or zero-padded to 32, then the nonce |
| ReplayCache.MakeKeyInjective | crates/aafp-crypto/src/replay_cache.rs:103-110 | among 32-octet ids a key stands for one pair |
| ReplayCache.Cache.constructor | crates/aafp-crypto/src/replay_cache.rs:194-203 | a new cache is empty |
| ReplayCache.Cache.Check | crates/aafp-crypto/src/replay_cache.rs:236-253 | performs a check step of the run model |
| ReplayCache.Cache.CheckAndInsert | crates/aafp-crypto/src/replay_cache.rs:264-299 | performs a check-and-insert step |
| ReplayCache.Cache.Insert | crates/aafp-crypto/src/replay_cache.rs:306-324 | performs an insert step |
| ReplayCache.Cache.EvictExpired | crates/aafp-crypto/src/replay_cache.rs:331-337 | keeps exactly the live entries and counts the others |
| ReplayCache.Cache.Clear | crates/aafp-crypto/src/replay_cache.rs:340-342 | empties the table |
| ReplayCache.Cache.LazyEvict | crates/aafp-crypto/src/replay_cache.rs:348-366 | over half full, drops the expired among up to 64 visited entries, in any order |
| ReplayCache.ScanBatch | crates/aafp-crypto/src/replay_cache.rs:353-362 | the scan collects exactly the expired among min(64, size) entries |
| ReplayCache.Cache.EvictLru | crates/aafp-crypto/src/replay_cache.rs:369-395 | drops one expired entry, else one least recently used before the second reading, else none |
| ReplayRuns.RefineStep | crates/aafp-crypto/src/replay_cache.rs:236-342 | one operation answers as the insertion log does and keeps table and log in agreement |
| ReplayRuns.CacheRefinesLog | crates/aafp-crypto/src/replay_cache.rs:236-395 | with nondecreasing readings, in every run where the log never holds more than max_entries live keys, check and check_and_insert answer exactly as the log |
| ReplayLru.EvictionExact | crates/aafp-crypto/src/replay_cache.rs:369-395 | an entry goes if and only if one has expired or was last accessed before the second reading |
| ReplayLru.EvictExpiredExact | crates/aafp-crypto/src/replay_cache.rs:331-337 | after evict_expired exactly the entries that had not expired are left |
| ReplayLru.SweepExact | crates/aafp-crypto/src/replay_cache.rs:348-366 | the opening sweep leaves a table at most half full alone; from a fuller one it drops expired entries only and leaves at most as many as lie beyond the 64 visited |
| ReplayLru.MissRemoves | crates/aafp-crypto/src/replay_cache.rs:236-253 | a check that finds nothing live leaves no entry for the key |
| ReplayLru.CapacityKept | crates/aafp-crypto/src/replay_cache.rs:264-324 | with a slot and strictly increasing readings the table never exceeds max_entries |
| ReplayLru.LimitExact | crates/aafp-crypto/src/replay_cache.rs:236-395 | from any table within the limit, an insertion stays within it if and only if a slot is free, the key is there, an entry has expired or one was accessed before the second reading; other operations always do, and the table never grows by more than one |
| ReplayLru.LimitPassed | crates/aafp-crypto/src/replay_cache.rs:284-296 | a run from the empty cache that leaves two entries in one slot |
| ReplayLru.NeverShrinks | crates/aafp-crypto/src/replay_cache.rs:236-395 | from any table, however large, only a clear or an expiry leaves fewer entries, so a passed limit is not won back by eviction |
| ReplayLru.InsertOnLive | crates/aafp-crypto/src/replay_cache.rs:306-324 | insert restarts a live entry and leaves every other live one alone; it is a no-op on the entry exactly if that was inserted and last accessed at the same reading |
| ReplayLru.InsertIsNoNoOp | crates/aafp-crypto/src/replay_cache.rs:304-324 | an entry inserted at 0 for 10 and again at 5 lives until 15 |
| ReplayLru.ExpiryFromInsertion | crates/aafp-crypto/src/replay_cache.rs:241-296 | in every run an entry expires retention after the last insertion of its key |
| ReplayLru.LruGuarantee | crates/aafp-crypto/src/replay_cache.rs:236-395 | a key within retention of its last insertion is still reported while fewer than max_entries other keys were inserted or hit since its last touch and nothing was cleared |
| ReplayConcurrency.AnswerExact | crates/aafp-crypto/src/replay_cache.rs:236-324 | in any lock order, with readings within one retention and no live entry dropped, a check or check_and_insert reports its key if and only if an earlier operation inserted it |
| ReplayConcurrency.OneWinner | crates/aafp-crypto/src/replay_cache.rs:264-299 | in such a run exactly the first check_and_insert of a key succeeds |
| ReplayConcurrency.RoomForAll | crates/aafp-crypto/src/replay_cache.rs:264-324 | no live entry is dropped when there are no more keys than slots and nothing is cleared |
| ReplayConcurrency.TwoHandshakes | crates/aafp-sdk/src/handshake_driver.rs:280-299 | of two handshakes that check a nonce and insert it later if the check passed, the second to check passes too if and only if it checks before the first one's insertion |
| ReplayConcurrency.BothPass | crates/aafp-sdk/src/handshake_driver.rs:362-386 | a run in which both pass |
| CapabilityDht.SharesRemoved | crates/aafp-discovery/src/capability_dht.rs:153-165 | taking an agent out of every bucket leaves every other agent's share as it was |
| CapabilityDht.ListedRemoved | crates/aafp-discovery/src/capability_dht.rs:153-165 | and leaves every bucket listing the other agents in the order of their last put |
| CapabilityDht.LeaveKeepsOrder | crates/aafp-discovery/src/capability_dht.rs:153-165 | agents that stay keep their order |
| CapabilityDht.SharesAdded | crates/aafp-discovery/src/capability_dht.rs:88-97 | adding a record's entries gives the shares of the map with it |
| CapabilityDht.ListedAdded | crates/aafp-discovery/src/capability_dht.rs:88-97 | an added record comes last in every bucket |
| CapabilityDht.BucketContents | crates/aafp-discovery/src/capability_dht.rs:107-113 | a bucket holds each latest record once per capability hashing to its key, and nothing else |
| CapabilityDht.StoreKeys | crates/aafp-discovery/src/capability_dht.rs:168-170 | the keys in use are exactly the hashes of advertised capabilities |
| CapabilityDht.DropFromBuckets | crates/aafp-discovery/src/capability_dht.rs:155-163 | the loop of remove_agent empties the agent's share under its capabilities and leaves no empty bucket |
| CapabilityDht.AddToBuckets | crates/aafp-discovery/src/capability_dht.rs:88-97 | the loop of put appends one entry per capability |
| CapabilityDht.Dht.constructor | crates/aafp-discovery/src/capability_dht.rs:60-65 | a new index stands for the empty map |
| CapabilityDht.Dht.Put | crates/aafp-discovery/src/capability_dht.rs:78-104 | a verified record becomes the agent's latest and the agent the last in order, any other changes nothing |
| CapabilityDht.Dht.RemoveAgent | crates/aafp-discovery/src/capability_dht.rs:153-165 | the agent leaves the map and the order, and both indexes still agree with them |
| CapabilityDht.Dht.Get | crates/aafp-discovery/src/capability_dht.rs:107-113 | lists exactly the latest records advertising the capability, with multiplicity, no record before one whose agent was last put earlier |
| CapabilityDht.Dht.GetAny | crates/aafp-discovery/src/capability_dht.rs:116-128 | each agent advertising one of the capabilities, once, ordered by the first capability it matches and then by its last put |
| CapabilityDht.Dht.GetAll | crates/aafp-discovery/src/capability_dht.rs:131-142 | the list of get for the first capability without the agents that do not advertise all of them, with its multiplicity and in the order of the last put; nothing for an empty list |
| CapabilityDht.Dht.AgentCapabilities | crates/aafp-discovery/src/capability_dht.rs:145-150 | the latest record's capability list |
| LegacyHello.SerializeClientHello | crates/aafp-crypto/src/handshake.rs:359-372 | writes the documented layout |
| LegacyHello.DeserializeClientHello | crates/aafp-crypto/src/handshake.rs:375-412 | computes the parse, every read in bounds |
| LegacyHello.ClientExact | crates/aafp-crypto/src/handshake.rs:359-412 | parsing yields a hello if and only if it fits its length fields and the buffer starts with its serialization |
| LegacyHello.ClientRoundTrip | crates/aafp-crypto/src/handshake.rs:359-412 | with any suffix, a hello survives if and only if it has at most 65535 shares of at most 65535 octets |
| LegacyHello.ClientInNumbers | crates/aafp-crypto/src/handshake.rs:359-372 | the layout octet by octet, message type 1 |
| LegacyHello.SerializeServerHello | crates/aafp-crypto/src/handshake.rs:428-441 | writes the documented layout |
| LegacyHello.DeserializeServerHello | crates/aafp-crypto/src/handshake.rs:444-495 | computes the parse, every read in bounds |
| LegacyHello.ServerExact | crates/aafp-crypto/src/handshake.rs:428-495 | parsing yields a hello if and only if it fits and the buffer starts with its serialization |
| LegacyHello.ServerRoundTrip | crates/aafp-crypto/src/handshake.rs:428-495 | with any suffix, a hello survives if and only if its lengths fit their fields |
| LegacyHello.ServerInNumbers | crates/aafp-crypto/src/handshake.rs:428-441 | the layout octet by octet, message type 2 |
| HandshakeState.ClientLadder | crates/aafp-core/src/handshake_state.rs:80-104 | the client's legal transitions are the ladder's |
| HandshakeState.ServerLadder | crates/aafp-core/src/handshake_state.rs:197-223 | the server's legal transitions are the ladder's |
| HandshakeState.RunsClimb | crates/aafp-core/src/handshake_state.rs:462-493 | in every call sequence at most eight moves, each forward, and Messaging only through every earlier state in order |
| HandshakeState.DeadlineInvariant | crates/aafp-core/src/handshake_state.rs:472-484 | the deadline is absent exactly in the initial state and in Closed |
| HandshakeState.AcceptedOnce | crates/aafp-core/src/handshake_state.rs:561-570 | from ChSent (client) or TransportReady (server) on, each peer message is accepted at most once |
| HandshakeState.ClientAcceptsTwice | crates/aafp-core/src/handshake_state.rs:486-489 | a new client can accept a ServerHello twice, once before ChSent |
| HandshakeState.GuardExact | crates/aafp-core/src/handshake_state.rs:486-570 | in every run from a state a message is accepted at most once if and only if the resetting state is not ahead or the message has been accepted already |
| HandshakeState.DeadlinePersists | crates/aafp-core/src/handshake_state.rs:472-484 | past the last waiting state the deadline stays until the machine closes |
| HandshakeState.ClientTimesOutInMessaging | crates/aafp-core/src/handshake_state.rs:496-510 | in every working state after ChSent, Messaging included, the timeout check fails exactly after the ChSent timer |
| HandshakeState.ServerTimesOutInMessaging | crates/aafp-core/src/handshake_state.rs:691-705 | the same for a server and its ShSent timer |
| HandshakeState.ClosingTimesOut | crates/aafp-core/src/handshake_state.rs:476-510 | in Closing the timeout check fails exactly after the close timer, from the moment Closing was entered |
| HandshakeState.ClientTimersStart | crates/aafp-core/src/handshake_state.rs:472-489 | which states start which timer and which one forgets messages, by name |
| HandshakeState.ServerTimersStart | crates/aafp-core/src/handshake_state.rs:666-684 | the same for a server |
| HandshakeState.ClientCanAlwaysClose | crates/aafp-core/src/handshake_state.rs:80-104 | every state but Closed can close, every started one that is not closing can begin to, and every working state leads to the next |
| HandshakeState.ServerCanAlwaysClose | crates/aafp-core/src/handshake_state.rs:197-223 | the same for a server |
| HandshakeState.ClientVerifiedExact | crates/aafp-core/src/handshake_state.rs:72-77 | every client in a state went through ShVerified if and only if is_identity_verified holds there and it is not Closing |
| HandshakeState.ServerVerifiedExact | crates/aafp-core/src/handshake_state.rs:184-194 | the same for a server and ChVerified |
| HandshakeState.ClientCompleteExact | crates/aafp-core/src/handshake_state.rs:59-64 | every client in a state went through CfSent if and only if is_handshake_complete holds there and it is not Closing |
| HandshakeState.ServerCompleteExact | crates/aafp-core/src/handshake_state.rs:171-176 | the same for a server and CfVerified |
| HandshakeState.ClientHandshakeMachine.TransitionTo | crates/aafp-core/src/handshake_state.rs:462-493 | steps as the common machine with the client's profile |
| HandshakeState.ClientHandshakeMachine.OnServerHelloReceived | crates/aafp-core/src/handshake_state.rs:561-570 | steps as the common machine on a ServerHello |
| HandshakeState.ClientHandshakeMachine.Abort | crates/aafp-core/src/handshake_state.rs:573-575 | steps as a transition to Closed |
| HandshakeState.ClientHandshakeMachine.CheckTimeout | crates/aafp-core/src/handshake_state.rs:496-510 | fails exactly when the deadline has passed |
| HandshakeState.ServerHandshakeMachine.TransitionTo | crates/aafp-core/src/handshake_state.rs:656-688 | steps as the common machine with the server's profile |
| HandshakeState.ServerHandshakeMachine.OnClientHelloReceived | crates/aafp-core/src/handshake_state.rs:756-765 | steps as the common machine on a ClientHello |
| HandshakeState.ServerHandshakeMachine.OnClientFinishedReceived | crates/aafp-core/src/handshake_state.rs:769-778 | steps as the common machine on a ClientFinished |
| HandshakeState.ServerHandshakeMachine.Abort | crates/aafp-core/src/handshake_state.rs:781-783 | steps as a transition to Closed |
| HandshakeState.ServerHandshakeMachine.CheckTimeout | crates/aafp-core/src/handshake_state.rs:691-705 | fails exactly when the deadline has passed |
| Session.SessionLadder | crates/aafp-core/src/session.rs:255-287 | the session's legal transitions are the ladder's |
| Session.RunsConsistent | crates/aafp-core/src/session.rs:410-486 | in every call sequence peer and session id come together and are present from IdentityVerified to MessagingEnabled, likewise context and transport |
| Session.IdentityFixed | crates/aafp-core/src/session.rs:437-447 | once known, peer and session id never change |
| Session.IdentityMeansVerified | crates/aafp-core/src/session.rs:437-447 | a known peer and session id are those of an earlier successful on_identity_verified |
| Session.TransportMeansEstablished | crates/aafp-core/src/session.rs:423-433 | handle and features are those of an earlier successful on_transport_established |
| Session.StateMeansCall | crates/aafp-core/src/session.rs:410-486 | every state but the first was entered by the successful call of its name, with only touches and refused calls since |
| Session.ActivityIsLast | crates/aafp-core/src/session.rs:393-486 | the activity time is that of the last successful call that is not a close |
| Session.OrderedCallsSucceed | crates/aafp-core/src/session.rs:423-472 | the calls in order lead a new session to messaging with everything they handed over |
| Session.ClosingAlwaysPossible | crates/aafp-core/src/session.rs:255-287 | every state but Closed can close, every started one that is not closing can begin to |
| Session.RunsClimb | crates/aafp-core/src/session.rs:410-486 | at most seven moves, each forward, messaging only after every earlier state |
| Session.AuthorizedMeansGranted | crates/aafp-core/src/session.rs:450-495 | a capability is authorized only if a context granting it was installed by an earlier successful step with the peer verified |
| Session.GrantIsEffective | crates/aafp-core/src/session.rs:450-495 | from the step that installs a context, whatever follows, a capability is authorized if and only if the context grants it |
| Session.VerifiedIsNoEvidence | crates/aafp-core/src/session.rs:242-244 | after an immediate close is_identity_verified holds with no peer known |
| Session.VerifiedExact | crates/aafp-core/src/session.rs:242-244 | a peer is known in every run in a state if and only if is_identity_verified holds there and it is neither Closing nor Closed |
| Session.AuthenticatedExact | crates/aafp-core/src/session.rs:247-252 | is_authenticated implies a known peer, a session id and an authorization context in every run exactly outside Closing |
| Session.AuthenticatedPassed | crates/aafp-core/src/session.rs:247-252 | every run in a state was authenticated if and only if is_authenticated holds there and it is not Closing |
| Session.SessionObject.TransitionTo | crates/aafp-core/src/session.rs:410-419 | moves exactly when legal and touches nothing else |
| Session.SessionObject.OnTransportEstablished | crates/aafp-core/src/session.rs:423-433 | the whole new state; a refused call leaves the session alone |
| Session.SessionObject.OnIdentityVerified | crates/aafp-core/src/session.rs:437-447 | the same |
| Session.SessionObject.OnAuthorizationVerified | crates/aafp-core/src/session.rs:450-458 | the same |
| Session.SessionObject.OnAuthenticated | crates/aafp-core/src/session.rs:461-465 | the same |
| Session.SessionObject.OnMessagingEnabled | crates/aafp-core/src/session.rs:468-472 | the same |
| Session.SessionObject.BeginClose | crates/aafp-core/src/session.rs:475-479 | the same |
| Session.SessionObject.Close | crates/aafp-core/src/session.rs:483-486 | the same, without touching the activity time |

## Left out

- ML-DSA-65, X25519, AEAD, HKDF, HMAC and SHA-256 internals: foreign crates, kept as arbitrary functions with correctness of signing only.
- The legacy handshake driver (`server_handle`, `client_finish`): key agreement around the modelled codec.
- Frame codec, extension pipeline, close manager, Kademlia router, relay and economics: separate components.
- `persistent_dht.rs`, `extension_index.rs`, `bootstrap.rs`, `swarm.rs`, `transport.rs`: storage, stubs and I/O.
- `with_params` range checks and `with_capacity` of the replay cache: two comparisons; theorems hold for every configuration.
- `allowed_frame_types`, `frame_disposition` and `check_frame_type`: tables settled by reading one match.
- Timeout setters of the handshake machines: timeouts are arbitrary and fixed from construction.
- `capability_count`, `agent_count` and `list_capabilities`: sizes and key listings of the two maps; `StoreKeys` says what the keys are.
- Constant-time comparison and other timing claims: only results of comparisons are modelled.
- Error message texts and `Display` implementations.
- Overflow of `Instant + Duration`: instants are unbounded.
- Random nonces and wall-clock time: arguments.
- The driver's framing of messages on QUIC streams, its session updates and its random nonces; offers are general where the driver's are empty.
