/** Well-formed UTF-8 (table 3-7 of the Unicode Standard), the condition under which
    an octet string is a Rust `str`. */
module Utf8 {
  import opened Bytes

  /** A `str`, kept as its UTF-8 octets. */
  type Text = s: bytes | ValidUtf8(s) witness []

  predicate Tail(b: byte) { 0x80 <= b <= 0xBF }

  predicate TwoOctets(a: byte, b: byte) { 0xC2 <= a <= 0xDF && Tail(b) }

  predicate ThreeOctets(a: byte, b: byte, c: byte) {
    Tail(c) &&
    if a == 0xE0 then 0xA0 <= b <= 0xBF
    else if a == 0xED then 0x80 <= b <= 0x9F
    else 0xE1 <= a <= 0xEF && Tail(b)
  }

  predicate FourOctets(a: byte, b: byte, c: byte, d: byte) {
    Tail(c) && Tail(d) &&
    if a == 0xF0 then 0x90 <= b <= 0xBF
    else if a == 0xF4 then 0x80 <= b <= 0x8F
    else 0xF1 <= a <= 0xF3 && Tail(b)
  }

  predicate ValidUtf8(s: bytes) {
    if s == [] then true
    else if s[0] <= 0x7F then ValidUtf8(s[1..])
    else if |s| >= 2 && TwoOctets(s[0], s[1]) then ValidUtf8(s[2..])
    else if |s| >= 3 && ThreeOctets(s[0], s[1], s[2]) then ValidUtf8(s[3..])
    else |s| >= 4 && FourOctets(s[0], s[1], s[2], s[3]) && ValidUtf8(s[4..])
  }

  // ---------------------------------------------------------------- code points

  /** A Unicode scalar value: a code point that is not a surrogate. */
  predicate Scalar(c: nat) { c <= 0x10FFFF && !(0xD800 <= c <= 0xDFFF) }

  /** Section 3 of RFC 3629. */
  function Octets(c: nat): bytes
    requires Scalar(c)
  {
    if c < 0x80 then [c]
    else if c < 0x800 then [0xC0 + c / 64, 0x80 + c % 64]
    else if c < 0x1_0000 then [0xE0 + c / 4096, 0x80 + c / 64 % 64, 0x80 + c % 64]
    else [0xF0 + c / 262144, 0x80 + c / 4096 % 64, 0x80 + c / 64 % 64, 0x80 + c % 64]
  }

  predicate Scalars(cs: seq<nat>) { forall i :: 0 <= i < |cs| ==> Scalar(cs[i]) }

  function TextOf(cs: seq<nat>): bytes
    requires Scalars(cs)
  {
    if cs == [] then [] else Octets(cs[0]) + TextOf(cs[1..])
  }

  /** The octets of a scalar have one of the four shapes. */
  lemma OctetsShape(c: nat)
    requires Scalar(c)
    ensures var o := Octets(c);
            && (|o| == 1 ==> o[0] <= 0x7F)
            && (|o| == 2 ==> TwoOctets(o[0], o[1]))
            && (|o| == 3 ==> ThreeOctets(o[0], o[1], o[2]))
            && (|o| == 4 ==> FourOctets(o[0], o[1], o[2], o[3]))
            && 1 <= |o| <= 4
  {}

  lemma OctetsValid(c: nat, rest: bytes)
    requires Scalar(c) && ValidUtf8(rest)
    ensures ValidUtf8(Octets(c) + rest)
  {
    OctetsShape(c);
    hide Octets;
    var s := Octets(c) + rest;
    assert s[|Octets(c)|..] == rest;
    assert forall i :: 0 <= i < |Octets(c)| ==> s[i] == Octets(c)[i];
  }

  lemma {:induction false} TextValid(cs: seq<nat>)
    requires Scalars(cs)
    ensures ValidUtf8(TextOf(cs))
  {
    if cs != [] {
      TextValid(cs[1..]);
      OctetsValid(cs[0], TextOf(cs[1..]));
    }
  }

  /** The six low bits of a trailing octet. */
  function Low(b: byte): nat
    requires Tail(b)
  {
    b - 0x80
  }

  lemma Sixes(q: nat, r: nat)
    requires r < 64
    ensures (64 * q + r) / 64 == q && (64 * q + r) % 64 == r
  {}

  lemma TwoScalar(a: byte, b: byte) returns (c: nat)
    requires TwoOctets(a, b)
    ensures Scalar(c) && Octets(c) == [a, b]
  {
    var q: nat := a - 0xC0;
    c := 64 * q + Low(b);
    Sixes(q, Low(b));
  }

  lemma ThreeScalar(a: byte, b: byte, d: byte) returns (c: nat)
    requires ThreeOctets(a, b, d)
    ensures Scalar(c) && Octets(c) == [a, b, d]
  {
    var p: nat := a - 0xE0;
    var q := 64 * p + Low(b);
    c := 64 * q + Low(d);
    Sixes(p, Low(b));
    Sixes(q, Low(d));
    assert c / 4096 == c / 64 / 64;
  }

  lemma FourScalar(a: byte, b: byte, d: byte, e: byte) returns (c: nat)
    requires FourOctets(a, b, d, e)
    ensures Scalar(c) && Octets(c) == [a, b, d, e]
  {
    var p: nat := a - 0xF0;
    var q := 64 * p + Low(b);
    var r := 64 * q + Low(d);
    c := 64 * r + Low(e);
    Sixes(p, Low(b));
    Sixes(q, Low(d));
    Sixes(r, Low(e));
    assert c / 4096 == c / 64 / 64 && c / 262144 == c / 4096 / 64;
  }

  /** Nonempty valid text starts with the octets of one scalar. */
  lemma FirstScalar(s: bytes) returns (c: nat, rest: bytes)
    requires ValidUtf8(s) && s != []
    ensures Scalar(c) && s == Octets(c) + rest && ValidUtf8(rest) && |rest| < |s|
  {
    hide TwoOctets, ThreeOctets, FourOctets;
    if s[0] <= 0x7F {
      c, rest := s[0], s[1..];
      assert Octets(c) == [s[0]];
    } else {
      hide Octets;
      if |s| >= 2 && TwoOctets(s[0], s[1]) {
        c := TwoScalar(s[0], s[1]);
        rest := s[2..];
      } else if |s| >= 3 && ThreeOctets(s[0], s[1], s[2]) {
        c := ThreeScalar(s[0], s[1], s[2]);
        rest := s[3..];
      } else {
        c := FourScalar(s[0], s[1], s[2], s[3]);
        rest := s[4..];
      }
    }
  }

  lemma {:induction false} ScalarsOf(s: bytes) returns (cs: seq<nat>)
    requires ValidUtf8(s)
    ensures Scalars(cs) && TextOf(cs) == s
    decreases |s|
  {
    if s == [] { return []; }
    var c, rest := FirstScalar(s);
    var more := ScalarsOf(rest);
    cs := [c] + more;
    assert cs[1..] == more;
  }

  /** Well-formed octets are exactly the encodings of sequences of scalar values. */
  lemma ValidExact(s: bytes)
    ensures ValidUtf8(s) <==> exists cs :: Scalars(cs) && TextOf(cs) == s
  {
    if ValidUtf8(s) { var cs := ScalarsOf(s); }
    if cs :| Scalars(cs) && TextOf(cs) == s { TextValid(cs); }
  }
}
