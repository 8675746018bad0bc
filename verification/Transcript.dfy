/** The running transcript hash. SHA-256 is any function into 32 octets: nothing is assumed of
    it, so results read "equal, or here is a collision between what the two runs hashed". */
module Transcript {
  import opened Bytes

  type Digest = s: bytes | |s| == 32 witness seq(32, _ => 0)

  /** "aafp-v1-handshake" */
  const DOMAIN_SEPARATOR: bytes :=
    [97, 97, 102, 112, 45, 118, 49, 45, 104, 97, 110, 100, 115, 104, 97, 107, 101]

  predicate Collision(sha: bytes -> Digest, x: bytes, y: bytes) {
    x != y && sha(x) == sha(y)
  }

  /** The transcript after folding `messages` into one started from `binding`. */
  function TranscriptOf(sha: bytes -> Digest, binding: Digest, messages: seq<bytes>): Digest {
    if messages == [] then sha(binding)
    else
      var n := |messages| - 1;
      sha(TranscriptOf(sha, binding, messages[..n]) + messages[n])
  }

  function SignatureInput(h: Digest): bytes { DOMAIN_SEPARATOR + h }

  /** The separator spells its name and comes first. */
  lemma SignatureInputSpelled(h: Digest)
    ensures SignatureInput(h) == Ascii("aafp-v1-handshake") + h
  {}

  /** The hash of the binding, then of the hash so far and each message in turn. */
  lemma TranscriptSpelled(sha: bytes -> Digest, b: Digest, x: bytes, y: bytes, z: bytes)
    ensures TranscriptOf(sha, b, []) == sha(b)
    ensures TranscriptOf(sha, b, [x]) == sha(sha(b) + x)
    ensures TranscriptOf(sha, b, [x, y]) == sha(sha(sha(b) + x) + y)
    ensures TranscriptOf(sha, b, [x, y, z]) == sha(sha(sha(sha(b) + x) + y) + z)
  {
    assert [x][..0] == [] && [x, y][..1] == [x] && [x, y, z][..2] == [x, y];
  }

  /** What the last application of the hash was applied to. */
  function Preimage(sha: bytes -> Digest, b: Digest, ms: seq<bytes>): (p: bytes)
    ensures sha(p) == TranscriptOf(sha, b, ms)
  {
    if ms == [] then b else TranscriptOf(sha, b, ms[..|ms| - 1]) + ms[|ms| - 1]
  }

  /** The hash was applied to `x` on the way to the transcript of `ms`. */
  ghost predicate HashedIn(sha: bytes -> Digest, b: Digest, ms: seq<bytes>, x: bytes) {
    exists n :: 0 <= n <= |ms| && x == Preimage(sha, b, ms[..n])
  }

  /** Two runs hashed different octets to one digest. A hash has collisions in any case; this
      one is between octets the two runs themselves produced. */
  ghost predicate RunsCollide(sha: bytes -> Digest, b: Digest, ms: seq<bytes>, c: Digest, ns: seq<bytes>) {
    exists x, y :: Collision(sha, x, y) && HashedIn(sha, b, ms, x) && HashedIn(sha, c, ns, y)
  }

  predicate NoneEmpty(ms: seq<bytes>) { forall i :: 0 <= i < |ms| ==> ms[i] != [] }

  lemma LastHashedCollides(sha: bytes -> Digest, b: Digest, ms: seq<bytes>, c: Digest, ns: seq<bytes>)
    requires TranscriptOf(sha, b, ms) == TranscriptOf(sha, c, ns) && Preimage(sha, b, ms) != Preimage(sha, c, ns)
    ensures RunsCollide(sha, b, ms, c, ns)
  {
    hide TranscriptOf;
    assert ms[..|ms|] == ms && ns[..|ns|] == ns;
    assert HashedIn(sha, b, ms, Preimage(sha, b, ms)) && HashedIn(sha, c, ns, Preimage(sha, c, ns));
  }

  /** What was hashed last splits into the transcript before it and the last message. */
  lemma LastHashedFixes(sha: bytes -> Digest, b: Digest, ms: seq<bytes>, c: Digest, ns: seq<bytes>)
    requires NoneEmpty(ms) && NoneEmpty(ns) && Preimage(sha, b, ms) == Preimage(sha, c, ns)
    ensures ms == [] <==> ns == []
    ensures ms == [] ==> b == c
    ensures ms != [] && ns != [] ==>
              && TranscriptOf(sha, b, ms[..|ms| - 1]) == TranscriptOf(sha, c, ns[..|ns| - 1])
              && ms[|ms| - 1] == ns[|ns| - 1]
  {
    hide TranscriptOf;
    if ms != [] && ns != [] {
      var m, n := |ms| - 1, |ns| - 1;
      var g, h := TranscriptOf(sha, b, ms[..m]), TranscriptOf(sha, c, ns[..n]);
      assert g == (g + ms[m])[..32] && h == (h + ns[n])[..32];
      assert ms[m] == (g + ms[m])[32..] && ns[n] == (h + ns[n])[32..];
    }
  }

  /** Equal transcripts have equal bindings and equal message sequences, or the two runs
      collide. The messages need only be nonempty. */
  lemma {:induction false} TranscriptBinding(sha: bytes -> Digest, b: Digest, ms: seq<bytes>, c: Digest, ns: seq<bytes>)
    requires TranscriptOf(sha, b, ms) == TranscriptOf(sha, c, ns) && NoneEmpty(ms) && NoneEmpty(ns)
    ensures (b == c && ms == ns) || RunsCollide(sha, b, ms, c, ns)
    decreases |ms|
  {
    hide TranscriptOf, Preimage, RunsCollide;
    if Preimage(sha, b, ms) != Preimage(sha, c, ns) {
      LastHashedCollides(sha, b, ms, c, ns);
    } else {
      LastHashedFixes(sha, b, ms, c, ns);
      if ms != [] {
        var m, n := |ms| - 1, |ns| - 1;
        TranscriptBinding(sha, b, ms[..m], c, ns[..n]);
        assert ms == ms[..m] + [ms[m]] && ns == ns[..n] + [ns[n]];
        if RunsCollide(sha, b, ms[..m], c, ns[..n]) { CollisionPersists(sha, b, ms, m, c, ns, n); }
      }
    }
  }

  lemma CollisionPersists(sha: bytes -> Digest, b: Digest, ms: seq<bytes>, m: nat, c: Digest, ns: seq<bytes>, n: nat)
    requires m <= |ms| && n <= |ns| && RunsCollide(sha, b, ms[..m], c, ns[..n])
    ensures RunsCollide(sha, b, ms, c, ns)
  {
    var x, y :| Collision(sha, x, y) && HashedIn(sha, b, ms[..m], x) && HashedIn(sha, c, ns[..n], y);
    HashedInPrefix(sha, b, ms, m, x);
    HashedInPrefix(sha, c, ns, n, y);
  }

  lemma HashedInPrefix(sha: bytes -> Digest, b: Digest, ms: seq<bytes>, m: nat, x: bytes)
    requires m <= |ms| && HashedIn(sha, b, ms[..m], x)
    ensures HashedIn(sha, b, ms, x)
  {
    var k :| 0 <= k <= m && x == Preimage(sha, b, ms[..m][..k]);
    assert ms[..m][..k] == ms[..k];
  }

  /** Two signature inputs are the same octets exactly when they are made from the same binding
      and the same folded messages, or the two runs collide. */
  lemma SignatureInputExact(sha: bytes -> Digest, b: Digest, ms: seq<bytes>, c: Digest, ns: seq<bytes>)
    requires NoneEmpty(ms) && NoneEmpty(ns) && !RunsCollide(sha, b, ms, c, ns)
    ensures SignatureInput(TranscriptOf(sha, b, ms)) == SignatureInput(TranscriptOf(sha, c, ns))
            <==> b == c && ms == ns
  {
    var g, h := TranscriptOf(sha, b, ms), TranscriptOf(sha, c, ns);
    if SignatureInput(g) == SignatureInput(h) {
      SignatureInputInjective(g, h);
      TranscriptBinding(sha, b, ms, c, ns);
    }
  }

  /** So what is signed after different numbers of messages differs, whatever the bindings and
      messages, unless the two runs collide. */
  lemma StepsNeverCoincide(sha: bytes -> Digest, b: Digest, ms: seq<bytes>, c: Digest, ns: seq<bytes>)
    requires |ms| != |ns| && NoneEmpty(ms) && NoneEmpty(ns)
    requires SignatureInput(TranscriptOf(sha, b, ms)) == SignatureInput(TranscriptOf(sha, c, ns))
    ensures RunsCollide(sha, b, ms, c, ns)
  {
    hide RunsCollide;
    if !RunsCollide(sha, b, ms, c, ns) { SignatureInputExact(sha, b, ms, c, ns); }
  }

  lemma SignatureInputInjective(g: Digest, h: Digest)
    requires SignatureInput(g) == SignatureInput(h)
    ensures g == h
  {
    assert g == SignatureInput(g)[|DOMAIN_SEPARATOR|..] && h == SignatureInput(h)[|DOMAIN_SEPARATOR|..];
  }

  /** The hasher is fed the old hash, then the message, and is reset when it yields. */
  class TranscriptHash {
    const sha: bytes -> Digest
    var pending: bytes
    var current: Digest
    ghost var binding: Digest
    ghost var folded: seq<bytes>

    ghost predicate Valid()
      reads this
    {
      pending == [] && current == TranscriptOf(sha, binding, folded)
    }

    constructor FromTlsBinding(sha: bytes -> Digest, tlsBinding: Digest)
      ensures Valid() && this.sha == sha && binding == tlsBinding && folded == []
    {
      this.sha := sha;
      current := sha(tlsBinding);
      pending := [];
      binding := tlsBinding;
      folded := [];
    }

    method Fold(message: bytes) returns (h: Digest)
      requires Valid()
      modifies this
      ensures Valid() && binding == old(binding) && folded == old(folded) + [message]
      ensures h == current == TranscriptOf(sha, binding, folded)
    {
      pending := pending + current;
      pending := pending + message;
      assert pending == old(current) + message;
      current := sha(pending);
      pending := [];
      folded := folded + [message];
      assert folded[..|folded| - 1] == old(folded);
      h := current;
    }
  }
}
