/** The canonical encoder: shortest-form headers, sorted maps. `Encode` prints the canonical
    form of a value; method `EncodeValue` is the encoder as written, growing a buffer. */
module CborEncode {
  import opened Bytes
  import opened Utf8
  import opened CborValue
  import opened EntrySort

  type major = m: int | 0 <= m < 8

  const MT_UNSIGNED: major := 0
  const MT_NEGATIVE: major := 1
  const MT_BYTE_STRING: major := 2
  const MT_TEXT_STRING: major := 3
  const MT_ARRAY: major := 4
  const MT_MAP: major := 5
  const MT_SIMPLE: major := 7

  const SIMPLE_FALSE: byte := 20
  const SIMPLE_TRUE: byte := 21
  const SIMPLE_NULL: byte := 22
  const SIMPLE_UNDEFINED: byte := 23

  // ------------------------------------------------------------------- headers

  /** The low five bits of an initial octet: the argument itself, or how wide it is. */
  function AdditionalInfo(n: u64): byte {
    if n <= 23 then n
    else if n <= 255 then 24
    else if n <= 65535 then 25
    else if n <= 0xFFFF_FFFF then 26
    else 27
  }

  /** Octets following an initial octet with additional information `ai`. */
  function ArgumentWidth(ai: byte): nat {
    if ai == 24 then 1 else if ai == 25 then 2 else if ai == 26 then 4 else if ai == 27 then 8 else 0
  }

  function EncodeHeader(m: major, n: u64): (h: bytes)
    ensures |h| >= 1
  {
    [m * 32 + AdditionalInfo(n)] + BigEndian(n, ArgumentWidth(AdditionalInfo(n)))
  }

  lemma ArgumentFits(n: u64)
    ensures n > 23 ==> n < Pow256(ArgumentWidth(AdditionalInfo(n)))
  {
    Pow256Values();
  }

  /** No other header width that holds the argument is shorter. */
  lemma HeaderShortest(m: major, n: u64, ai: byte)
    requires 24 <= ai <= 27 && n < Pow256(ArgumentWidth(ai))
    ensures |EncodeHeader(m, n)| <= 1 + ArgumentWidth(ai)
    ensures n <= 23 ==> |EncodeHeader(m, n)| == 1
  {
    Pow256Values();
  }

  /** A header can be read back off the front of any octet string. */
  lemma HeaderInjective(m: major, n: u64, s: bytes, m': major, n': u64, s': bytes)
    requires EncodeHeader(m, n) + s == EncodeHeader(m', n') + s'
    ensures m == m' && n == n' && s == s'
  {
    var h, h' := EncodeHeader(m, n), EncodeHeader(m', n');
    assert (h + s)[0] == m * 32 + AdditionalInfo(n) && (h' + s')[0] == m' * 32 + AdditionalInfo(n');
    assert |h| == |h'|;
    assert h == (h + s)[..|h|] == h' && s == (h + s)[|h|..] == s';
    if n > 23 {
      assert h[1..] == BigEndian(n, |h| - 1) && h'[1..] == BigEndian(n', |h| - 1);
      ArgumentFits(n);
      ArgumentFits(n');
      BigEndianRoundTrip(n, |h| - 1);
      BigEndianRoundTrip(n', |h| - 1);
    }
  }

  /** Headers of one major type are ordered bytewise as their arguments are numerically. */
  lemma HeaderOrder(m: major, a: u64, s: bytes, b: u64, t: bytes)
    requires a != b
    ensures Lex(EncodeHeader(m, a) + s, EncodeHeader(m, b) + t) <==> a < b
  {
    hide BigEndian, FromBigEndian, Pow256;
    var x, y := AdditionalInfo(a), AdditionalInfo(b);
    var p, q := BigEndian(a, ArgumentWidth(x)), BigEndian(b, ArgumentWidth(y));
    assert (EncodeHeader(m, a) + s)[1..] == p + s && (EncodeHeader(m, b) + t)[1..] == q + t;
    if x == y {
      ArgumentFits(a);
      ArgumentFits(b);
      BigEndianRoundTrip(a, |p|);
      BigEndianRoundTrip(b, |q|);
      BigEndianOrder(a, b, |p|);
      LexPrefixDecides(p, q, s, t);
    }
  }

  // ----------------------------------------------------------------- map keys

  /** The argument of an integer key's header. */
  function KeyArgument(k: i64): u64 { if k >= 0 then k else -1 - k }

  function KeyMajor(k: i64): major { if k >= 0 then MT_UNSIGNED else MT_NEGATIVE }

  function IntKeyBytes(k: i64): bytes { EncodeHeader(KeyMajor(k), KeyArgument(k)) }

  function TextKeyBytes(s: Text): bytes { EncodeHeader(MT_TEXT_STRING, AsU64(|s|)) + s }

  /** The comparison of `sort_int_keys`. */
  predicate IntKeyLess(a: i64, b: i64) { LengthFirst(IntKeyBytes(a), IntKeyBytes(b)) }

  /** The comparison of `sort_str_keys`: bytewise on the full encodings. */
  predicate TextKeyLess(a: Text, b: Text) { Lex(TextKeyBytes(a), TextKeyBytes(b)) }

  lemma IntKeyBytesInjective(a: i64, b: i64)
    requires IntKeyBytes(a) == IntKeyBytes(b)
    ensures a == b
  {
    assert IntKeyBytes(a) + [] == IntKeyBytes(b) + [];
    HeaderInjective(KeyMajor(a), KeyArgument(a), [], KeyMajor(b), KeyArgument(b), []);
  }

  lemma IntKeyStrictOrder()
    ensures StrictOrder(IntKeyLess)
  {
    forall a, b | IntKeyLess(a, b) ensures !IntKeyLess(b, a) {
      if |IntKeyBytes(a)| == |IntKeyBytes(b)| { LexAsymmetric(IntKeyBytes(a), IntKeyBytes(b)); }
    }
    forall a, b, c | IntKeyLess(a, b) && IntKeyLess(b, c) ensures IntKeyLess(a, c) {
      if |IntKeyBytes(a)| == |IntKeyBytes(b)| == |IntKeyBytes(c)| {
        LexTransitive(IntKeyBytes(a), IntKeyBytes(b), IntKeyBytes(c));
      }
    }
    forall a: i64, b: i64 | a != b ensures IntKeyLess(a, b) || IntKeyLess(b, a) {
      if IntKeyBytes(a) == IntKeyBytes(b) { IntKeyBytesInjective(a, b); }
      LexTotal(IntKeyBytes(a), IntKeyBytes(b));
    }
  }

  lemma TextKeyStrictOrder()
    ensures StrictOrder(TextKeyLess)
  {
    forall a, b | TextKeyLess(a, b) ensures !TextKeyLess(b, a) {
      LexAsymmetric(TextKeyBytes(a), TextKeyBytes(b));
    }
    forall a, b, c | TextKeyLess(a, b) && TextKeyLess(b, c) ensures TextKeyLess(a, c) {
      LexTransitive(TextKeyBytes(a), TextKeyBytes(b), TextKeyBytes(c));
    }
    forall a: Text, b: Text | a != b ensures TextKeyLess(a, b) || TextKeyLess(b, a) {
      if TextKeyBytes(a) == TextKeyBytes(b) {
        HeaderInjective(MT_TEXT_STRING, AsU64(|a|), a, MT_TEXT_STRING, AsU64(|b|), b);
      }
      LexTotal(TextKeyBytes(a), TextKeyBytes(b));
    }
  }

  /** For text keys the bytewise order of the encodings (section 4.2.1 of RFC 8949) is the
      length-first order of section 4.2.3, on the keys and on their encodings alike. */
  lemma TextKeyOrder(a: Text, b: Text)
    requires |a| < TWO_64 && |b| < TWO_64
    ensures TextKeyLess(a, b) <==> LengthFirst(a, b)
    ensures TextKeyLess(a, b) <==> LengthFirst(TextKeyBytes(a), TextKeyBytes(b))
  {
    hide Lex, ValidUtf8, BigEndian;
    assert AsU64(|a|) == |a| && AsU64(|b|) == |b|;
    if |a| == |b| {
      LexCommonPrefix(EncodeHeader(MT_TEXT_STRING, |a|), a, b);
    } else {
      HeaderOrder(MT_TEXT_STRING, |a|, a, |b|, b);
    }
  }

  /** The integer-key order in numbers: narrower headers first, then the non-negative keys,
      then by distance from zero. */
  lemma IntKeyOrder(a: i64, b: i64)
    ensures IntKeyLess(a, b) <==>
            var x, y := |IntKeyBytes(a)|, |IntKeyBytes(b)|;
            x < y || (x == y && ((a >= 0 && b < 0) || ((a >= 0) == (b >= 0) && KeyArgument(a) < KeyArgument(b))))
  {
    if |IntKeyBytes(a)| == |IntKeyBytes(b)| && (a >= 0) == (b >= 0) {
      if a == b {
        if Lex(IntKeyBytes(a), IntKeyBytes(b)) { LexAsymmetric(IntKeyBytes(a), IntKeyBytes(b)); }
      } else {
        HeaderOrder(KeyMajor(a), KeyArgument(a), [], KeyArgument(b), []);
        assert IntKeyBytes(a) + [] == IntKeyBytes(a) && IntKeyBytes(b) + [] == IntKeyBytes(b);
      }
    }
  }

  /** The bytewise order in numbers: the non-negative keys first, then by distance from zero. */
  lemma IntKeyBytewise(a: i64, b: i64)
    ensures Lex(IntKeyBytes(a), IntKeyBytes(b)) <==>
            (a >= 0 && b < 0) || ((a >= 0) == (b >= 0) && KeyArgument(a) < KeyArgument(b))
  {
    if (a >= 0) != (b >= 0) {
      assert IntKeyBytes(a)[0] < 32 <==> a >= 0;
      assert IntKeyBytes(b)[0] < 32 <==> b >= 0;
    } else if a == b {
      if Lex(IntKeyBytes(a), IntKeyBytes(b)) { LexAsymmetric(IntKeyBytes(a), IntKeyBytes(b)); }
    } else {
      HeaderOrder(KeyMajor(a), KeyArgument(a), [], KeyArgument(b), []);
      assert IntKeyBytes(a) + [] == IntKeyBytes(a) && IntKeyBytes(b) + [] == IntKeyBytes(b);
    }
  }

  /** A negative key with a narrower header than a non-negative one: the only case in which the
      length-first and the bytewise order of integer keys disagree. */
  predicate NarrowNegative(a: i64, b: i64) { a < 0 <= b && |IntKeyBytes(a)| < |IntKeyBytes(b)| }

  lemma IntKeyOrdersAgree(a: i64, b: i64)
    ensures (IntKeyLess(a, b) <==> Lex(IntKeyBytes(a), IntKeyBytes(b))) <==>
            !NarrowNegative(a, b) && !NarrowNegative(b, a)
  {
    IntKeyOrder(a, b);
    IntKeyBytewise(a, b);
    hide Lex, LengthFirst;
  }

  /** One such pair: -1 sorts before 24, although its encoding is bytewise the larger. */
  lemma IntKeyOrderIsNotBytewise()
    ensures IntKeyLess(-1, 24) && Lex(IntKeyBytes(24), IntKeyBytes(-1))
  {
    IntKeyOrder(-1, 24);
  }

  // ------------------------------------------------- canonical form and printing

  /** Maps in encoder order at every depth; an empty string map becomes an integer map. */
  function Canon(v: Value): Value {
    match v
    case Array(items) => Array(CanonAll(items))
    case IntMap(es) => IntMap(Sort(CanonEntries(es), IntKeyLess))
    case StrMap(es) => if es == [] then IntMap([]) else StrMap(Sort(CanonEntries(es), TextKeyLess))
    case _ => v
  }

  function CanonAll(items: seq<Value>): (r: seq<Value>)
    ensures |r| == |items| && forall i :: 0 <= i < |r| ==> r[i] == Canon(items[i])
  {
    if items == [] then [] else [Canon(items[0])] + CanonAll(items[1..])
  }

  function CanonEntries<K>(es: seq<Entry<K>>): (r: seq<Entry<K>>)
    ensures |r| == |es|
    ensures forall i :: 0 <= i < |r| ==>
              r[i].key == es[i].key && assert es[i].value < es[i]; r[i].value == Canon(es[i].value)
  {
    if es == [] then []
    else assert es[0].value < es[0]; [Entry(es[0].key, Canon(es[0].value))] + CanonEntries(es[1..])
  }

  /** Prints a value, entries in the order given. */
  function Emit(v: Value): (s: bytes)
    ensures |s| >= 1
  {
    match v
    case Unsigned(n) => EncodeHeader(MT_UNSIGNED, n)
    case Negative(i) => EncodeHeader(MT_NEGATIVE, AsU64(-1 - i))
    case ByteString(s) => EncodeHeader(MT_BYTE_STRING, AsU64(|s|)) + s
    case TextString(s) => EncodeHeader(MT_TEXT_STRING, AsU64(|s|)) + s
    case Array(items) => EncodeHeader(MT_ARRAY, AsU64(|items|)) + EmitAll(items)
    case IntMap(es) => EncodeHeader(MT_MAP, AsU64(|es|)) + EmitEntries(es, IntKeyBytes)
    case StrMap(es) => EncodeHeader(MT_MAP, AsU64(|es|)) + EmitEntries(es, TextKeyBytes)
    case Bool(b) => [MT_SIMPLE * 32 + if b then SIMPLE_TRUE else SIMPLE_FALSE]
    case Null => [MT_SIMPLE * 32 + SIMPLE_NULL]
  }

  function EmitAll(items: seq<Value>): bytes {
    if items == [] then [] else Emit(items[0]) + EmitAll(items[1..])
  }

  function EmitEntries<K>(es: seq<Entry<K>>, keyBytes: K -> bytes): bytes {
    if es == [] then []
    else assert es[0].value < es[0]; keyBytes(es[0].key) + Emit(es[0].value) + EmitEntries(es[1..], keyBytes)
  }

  function Encode(v: Value): bytes { Emit(Canon(v)) }

  /** Sorting by key commutes with putting the values in canonical form. */
  lemma {:induction false} CanonInsert<K>(e: Entry<K>, es: seq<Entry<K>>, less: (K, K) -> bool)
    ensures CanonEntries(Insert(e, es, less)) == Insert(Entry(e.key, Canon(e.value)), CanonEntries(es), less)
  {
    if es != [] && less(es[0].key, e.key) {
      CanonInsert(e, es[1..], less);
    }
  }

  lemma {:induction false} CanonSort<K>(es: seq<Entry<K>>, less: (K, K) -> bool)
    ensures CanonEntries(Sort(es, less)) == Sort(CanonEntries(es), less)
  {
    if es != [] {
      CanonSort(es[1..], less);
      CanonInsert(es[0], Sort(es[1..], less), less);
    }
  }

  /** The canonical form is a fixed point. */
  lemma {:induction false} CanonIdempotent(v: Value)
    ensures Canon(Canon(v)) == Canon(v)
    decreases v, 1
  {
    hide Sort, CanonEntries, CanonAll, StrictOrder;
    match v
    case Array(items) =>
      forall i | 0 <= i < |items| ensures Canon(Canon(items[i])) == Canon(items[i]) {
        CanonIdempotent(items[i]);
      }
    case IntMap(es) =>
      IntKeyStrictOrder();
      CanonEntriesIdempotent(es, IntKeyLess);
    case StrMap(es) =>
      TextKeyStrictOrder();
      CanonEntriesIdempotent(es, TextKeyLess);
    case _ =>
  }

  lemma {:induction false} CanonEntriesIdempotent<K(!new)>(es: seq<Entry<K>>, less: (K, K) -> bool)
    requires StrictOrder(less)
    ensures Sort(CanonEntries(Sort(CanonEntries(es), less)), less) == Sort(CanonEntries(es), less)
    decreases es, 0
  {
    hide Canon, Sort, StrictOrder;
    forall i | 0 <= i < |es| ensures Canon(Canon(es[i].value)) == Canon(es[i].value) {
      assert es[i].value < es[i];
      CanonIdempotent(es[i].value);
    }
    assert CanonEntries(CanonEntries(es)) == CanonEntries(es);
    CanonSort(CanonEntries(es), less);
    SortSorted(CanonEntries(es), less);
    SortFixed(Sort(CanonEntries(es), less), less);
  }

  // ------------------------------------------------------------------- encoder

  lemma {:induction false} EncodeIntMap(es: seq<Entry<i64>>)
    ensures Encode(IntMap(es))
         == EncodeHeader(MT_MAP, AsU64(|es|)) + EmitEntries(CanonEntries(Sort(es, IntKeyLess)), IntKeyBytes)
  {
    CanonSort(es, IntKeyLess);
  }

  lemma {:induction false} EncodeStrMap(es: seq<Entry<Text>>)
    ensures Encode(StrMap(es))
         == EncodeHeader(MT_MAP, AsU64(|es|)) + EmitEntries(CanonEntries(Sort(es, TextKeyLess)), TextKeyBytes)
  {
    if es == [] {
      assert Canon(StrMap(es)) == IntMap([]);
      assert Sort(es, TextKeyLess) == [];
    } else {
      CanonSort(es, TextKeyLess);
      var sorted := Sort(CanonEntries(es), TextKeyLess);
      assert Canon(StrMap(es)) == StrMap(sorted);
      assert |sorted| == |es|;
    }
  }

  /** `encode_value`: appends the encoding of `v` to `buf`, sorting each map as it is met. */
  method EncodeValue(buf: bytes, v: Value) returns (out: bytes)
    ensures out == buf + Encode(v)
    decreases v, 1
  {
    hide EncodeHeader, Sort, EmitEntries, CanonEntries, CanonAll, EmitAll;
    match v
    case Array(items) =>
      out := EncodeItems(buf + EncodeHeader(MT_ARRAY, AsU64(|items|)), items);
    case IntMap(es) =>
      var sorted := Sort(es, IntKeyLess);
      SortedMembersSmaller(v, es, sorted);
      EncodeIntMap(es);
      out := EncodeEntries(buf + EncodeHeader(MT_MAP, AsU64(|sorted|)), sorted, IntKeyBytes, v);
    case StrMap(es) =>
      var sorted := Sort(es, TextKeyLess);
      SortedMembersSmaller(v, es, sorted);
      EncodeStrMap(es);
      out := EncodeEntries(buf + EncodeHeader(MT_MAP, AsU64(|sorted|)), sorted, TextKeyBytes, v);
    case _ =>
      assert Canon(v) == v;
      out := buf + Emit(v);
  }

  method EncodeItems(buf: bytes, items: seq<Value>) returns (out: bytes)
    ensures out == buf + EmitAll(CanonAll(items))
    decreases items, 0
  {
    hide Encode, EmitAll, CanonAll;
    out := buf;
    assert items[0..] == items;
    for k := 0 to |items|
      invariant out + EmitAll(CanonAll(items[k..])) == buf + EmitAll(CanonAll(items))
    {
      ItemsFrom(items, k);
      out := EncodeValue(out, items[k]);
    }
    ItemsFrom(items, |items|);
  }

  lemma ItemsFrom(items: seq<Value>, k: nat)
    requires k <= |items|
    ensures EmitAll(CanonAll(items[k..])) ==
            if k == |items| then [] else Encode(items[k]) + EmitAll(CanonAll(items[k + 1..]))
  {
    hide Emit, Canon;
    if k < |items| { assert items[k..][1..] == items[k + 1..]; }
  }

  lemma EntriesFrom<K>(es: seq<Entry<K>>, keyBytes: K -> bytes, k: nat)
    requires k <= |es|
    ensures EmitEntries(CanonEntries(es[k..]), keyBytes) ==
            if k == |es| then []
            else keyBytes(es[k].key) + Encode(es[k].value) + EmitEntries(CanonEntries(es[k + 1..]), keyBytes)
  {
    hide Emit, Canon;
    if k < |es| { assert es[k..][1..] == es[k + 1..]; }
  }

  lemma SortedMembersSmaller<K>(v: Value, es: seq<Entry<K>>, sorted: seq<Entry<K>>)
    requires multiset(es) == multiset(sorted)
    requires forall i :: 0 <= i < |es| ==> es[i].value < v
    ensures forall i :: 0 <= i < |sorted| ==> sorted[i].value < v
  {
    SameMembers(es, sorted);
    forall i | 0 <= i < |sorted| ensures sorted[i].value < v { assert sorted[i] in es; }
  }

  /** The loop over sorted entries; `whole` is the map they come from. */
  method EncodeEntries<K>(buf: bytes, sorted: seq<Entry<K>>, keyBytes: K -> bytes, ghost whole: Value)
    returns (out: bytes)
    requires forall i :: 0 <= i < |sorted| ==> sorted[i].value < whole
    ensures out == buf + EmitEntries(CanonEntries(sorted), keyBytes)
    decreases whole, 0
  {
    hide Encode, EmitEntries, CanonEntries;
    out := buf;
    assert sorted[0..] == sorted;
    for k := 0 to |sorted|
      invariant out + EmitEntries(CanonEntries(sorted[k..]), keyBytes)
             == buf + EmitEntries(CanonEntries(sorted), keyBytes)
    {
      EntriesFrom(sorted, keyBytes, k);
      out := EncodeValue(out + keyBytes(sorted[k].key), sorted[k].value);
    }
    EntriesFrom(sorted, keyBytes, |sorted|);
  }
}
