/** Printing loses nothing: a value can be read back off the front of any octet string, with
    no condition on its keys, its negatives or its depth. */
module CborPrint {
  import opened Bytes
  import opened Utf8
  import opened CborValue
  import opened CborEncode
  import opened CborRoundTrip

  // ---------------------------------------------------------- header and body

  function Major(v: Value): major {
    match v
    case Unsigned(_) => MT_UNSIGNED
    case Negative(_) => MT_NEGATIVE
    case ByteString(_) => MT_BYTE_STRING
    case TextString(_) => MT_TEXT_STRING
    case Array(_) => MT_ARRAY
    case IntMap(_) => MT_MAP
    case StrMap(_) => MT_MAP
    case _ => MT_SIMPLE
  }

  function Argument(v: Value): u64 {
    match v
    case Unsigned(n) => n
    case Negative(i) => AsU64(-1 - i)
    case ByteString(s) => AsU64(|s|)
    case TextString(s) => AsU64(|s|)
    case Array(items) => AsU64(|items|)
    case IntMap(es) => AsU64(|es|)
    case StrMap(es) => AsU64(|es|)
    case Bool(b) => if b then SIMPLE_TRUE else SIMPLE_FALSE
    case Null => SIMPLE_NULL
  }

  function Body(v: Value): bytes {
    match v
    case ByteString(s) => s
    case TextString(s) => s
    case Array(items) => EmitAll(items)
    case IntMap(es) => EmitEntries(es, IntKeyBytes)
    case StrMap(es) => EmitEntries(es, TextKeyBytes)
    case _ => []
  }

  lemma {:induction false} HeaderThenBody(v: Value)
    ensures Emit(v) == EncodeHeader(Major(v), Argument(v)) + Body(v)
  {}

  /** Octets, items or entries: the argument is how many there are, not cut to 64 bits. */
  predicate Counted(v: Value) {
    match v
    case ByteString(s) => Argument(v) == |s|
    case TextString(s) => Argument(v) == |s|
    case Array(items) => Argument(v) == |items|
    case IntMap(es) => Argument(v) == |es|
    case StrMap(es) => Argument(v) == |es|
    case _ => true
  }

  lemma {:induction false} ArgumentCounts(v: Value)
    requires |Emit(v)| < TWO_64
    ensures Counted(v)
  {
    hide EncodeHeader, EmitAll, EmitEntries, ValidUtf8;
    match v
    case Array(items) => EmitAllLength(items);
    case IntMap(es) => EmitEntriesLength(es, IntKeyBytes);
    case StrMap(es) => EmitEntriesLength(es, TextKeyBytes);
    case _ =>
  }

  // ------------------------------------------------------------------------ keys

  /** Two keys at the front of one octet string are the same key. */
  ghost predicate OneKey<K>(keyBytes: K -> bytes, a: K, p: bytes, b: K, q: bytes) {
    |keyBytes(a) + p| < TWO_64 && keyBytes(a) + p == keyBytes(b) + q ==> a == b && p == q
  }

  ghost predicate KeysReadOff<K(!new)>(keyBytes: K -> bytes) {
    forall a, p, b, q :: OneKey(keyBytes, a, p, b, q)
  }

  lemma IntKeysReadOff()
    ensures KeysReadOff(IntKeyBytes)
  {
    hide EncodeHeader;
    forall a: i64, p: bytes, b: i64, q: bytes ensures OneKey(IntKeyBytes, a, p, b, q) {
      if IntKeyBytes(a) + p == IntKeyBytes(b) + q {
        HeaderInjective(KeyMajor(a), KeyArgument(a), p, KeyMajor(b), KeyArgument(b), q);
      }
    }
  }

  lemma TextKeysReadOff()
    ensures KeysReadOff(TextKeyBytes)
  {
    hide EncodeHeader, ValidUtf8;
    forall a: Text, p: bytes, b: Text, q: bytes ensures OneKey(TextKeyBytes, a, p, b, q) {
      if |TextKeyBytes(a) + p| < TWO_64 && TextKeyBytes(a) + p == TextKeyBytes(b) + q {
        TextKeyReadOff(a, p, b, q);
      }
    }
  }

  lemma TextKeyReadOff(a: Text, p: bytes, b: Text, q: bytes)
    requires |TextKeyBytes(a) + p| < TWO_64 && TextKeyBytes(a) + p == TextKeyBytes(b) + q
    ensures a == b && p == q
  {
    hide EncodeHeader, ValidUtf8;
    var g, h := EncodeHeader(MT_TEXT_STRING, AsU64(|a|)), EncodeHeader(MT_TEXT_STRING, AsU64(|b|));
    assert g + (a + p) == TextKeyBytes(a) + p && h + (b + q) == TextKeyBytes(b) + q;
    HeaderInjective(MT_TEXT_STRING, AsU64(|a|), a + p, MT_TEXT_STRING, AsU64(|b|), b + q);
    assert |a| == |b|;
    SplitEqual(a, p, b, q);
  }

  lemma SplitEqual(a: bytes, p: bytes, b: bytes, q: bytes)
    requires |a| == |b| && a + p == b + q
    ensures a == b && p == q
  {
    assert a == (a + p)[..|a|] && b == (b + q)[..|a|] && p == (a + p)[|a|..] && q == (b + q)[|a|..];
  }

  /** Entries with integer keys and entries with text keys never print alike. */
  lemma {:induction false} KeyKindsDiffer(es: seq<Entry<i64>>, s: bytes, fs: seq<Entry<Text>>, t: bytes)
    requires es != [] && fs != []
    ensures EmitEntries(es, IntKeyBytes) + s != EmitEntries(fs, TextKeyBytes) + t
  {
    hide Emit, EncodeHeader, ValidUtf8;
    var k, key := es[0].key, fs[0].key;
    var g, h := IntKeyBytes(k), EncodeHeader(MT_TEXT_STRING, AsU64(|key|));
    var p := Emit(es[0].value) + EmitEntries(es[1..], IntKeyBytes) + s;
    var q := key + Emit(fs[0].value) + EmitEntries(fs[1..], TextKeyBytes) + t;
    assert EmitEntries(es, IntKeyBytes) + s == g + p;
    assert EmitEntries(fs, TextKeyBytes) + t == h + q;
    if g + p == h + q {
      HeaderInjective(KeyMajor(k), KeyArgument(k), p, MT_TEXT_STRING, AsU64(|key|), q);
    }
  }

  // ---------------------------------------------------------------------- values

  /** Two values at the front of one octet string are the same value. Only empty maps print
      alike, and `Plain` rules the empty string map out. */
  lemma {:induction false} EmitInjective(v: Value, s: bytes, w: Value, t: bytes)
    requires Plain(v) && Plain(w) && |Emit(v) + s| < TWO_64 && Emit(v) + s == Emit(w) + t
    ensures v == w && s == t
    decreases v, 2
  {
    hide Emit, EncodeHeader, Plain;
    HeaderThenBody(v);
    HeaderThenBody(w);
    var g, h := EncodeHeader(Major(v), Argument(v)), EncodeHeader(Major(w), Argument(w));
    assert Emit(v) + s == g + (Body(v) + s) && Emit(w) + t == h + (Body(w) + t);
    HeaderInjective(Major(v), Argument(v), Body(v) + s, Major(w), Argument(w), Body(w) + t);
    ArgumentCounts(v);
    ArgumentCounts(w);
    BodyInjective(v, s, w, t);
  }

  lemma {:induction false} BodyInjective(v: Value, s: bytes, w: Value, t: bytes)
    requires Plain(v) && Plain(w) && |Body(v) + s| < TWO_64 && Body(v) + s == Body(w) + t
    requires Major(v) == Major(w) && Argument(v) == Argument(w)
    requires Counted(v) && Counted(w)
    ensures v == w && s == t
    decreases v, 1
  {
    hide Emit, EmitAll, EmitEntries, ValidUtf8, PlainEntries;
    assert [] + s == s && [] + t == t;
    match (v, w)
    case (ByteString(a), ByteString(b)) => SplitEqual(a, s, b, t);
    case (TextString(a), TextString(b)) => SplitEqual(a, s, b, t);
    case (Array(a), Array(b)) => AllInjective(a, s, b, t);
    case (IntMap(a), IntMap(b)) =>
      IntKeysReadOff();
      EntriesInjective(a, s, b, t, IntKeyBytes);
    case (StrMap(a), StrMap(b)) =>
      TextKeysReadOff();
      EntriesInjective(a, s, b, t, TextKeyBytes);
    case (IntMap(a), StrMap(b)) => KeyKindsDiffer(a, s, b, t);
    case (StrMap(a), IntMap(b)) => KeyKindsDiffer(b, t, a, s);
    case _ =>
  }

  lemma EmitAllSplit(items: seq<Value>, s: bytes)
    ensures EmitAll(items) + s == if items == [] then s else Emit(items[0]) + (EmitAll(items[1..]) + s)
  {
    hide Emit;
  }

  lemma {:induction false} AllInjective(a: seq<Value>, s: bytes, b: seq<Value>, t: bytes)
    requires |a| == |b| && |EmitAll(a) + s| < TWO_64 && EmitAll(a) + s == EmitAll(b) + t
    requires forall i :: 0 <= i < |a| ==> Plain(a[i])
    requires forall i :: 0 <= i < |b| ==> Plain(b[i])
    ensures a == b && s == t
    decreases a, 0
  {
    hide Emit, Plain, EmitAll;
    EmitAllSplit(a, s);
    EmitAllSplit(b, t);
    if a != [] {
      var p, q := EmitAll(a[1..]) + s, EmitAll(b[1..]) + t;
      EmitInjective(a[0], p, b[0], q);
      AllInjective(a[1..], s, b[1..], t);
      assert a == [a[0]] + a[1..] && b == [b[0]] + b[1..];
    }
  }

  lemma EmitEntriesSplit<K>(es: seq<Entry<K>>, s: bytes, keyBytes: K -> bytes)
    ensures EmitEntries(es, keyBytes) + s ==
            if es == [] then s
            else keyBytes(es[0].key) + (Emit(es[0].value) + (EmitEntries(es[1..], keyBytes) + s))
  {
    hide Emit;
  }

  lemma {:induction false} EntriesInjective<K(!new)>(a: seq<Entry<K>>, s: bytes, b: seq<Entry<K>>, t: bytes,
                                                     keyBytes: K -> bytes)
    requires |a| == |b| && |EmitEntries(a, keyBytes) + s| < TWO_64
    requires EmitEntries(a, keyBytes) + s == EmitEntries(b, keyBytes) + t
    requires PlainEntries(a) && PlainEntries(b) && KeysReadOff(keyBytes)
    ensures a == b && s == t
    decreases a, 0
  {
    hide Emit, Plain, EmitEntries;
    EmitEntriesSplit(a, s, keyBytes);
    EmitEntriesSplit(b, t, keyBytes);
    if a != [] {
      var p, q := EmitEntries(a[1..], keyBytes) + s, EmitEntries(b[1..], keyBytes) + t;
      assert OneKey(keyBytes, a[0].key, Emit(a[0].value) + p, b[0].key, Emit(b[0].value) + q);
      assert a[0].value < a[0];
      EmitInjective(a[0].value, p, b[0].value, q);
      EntriesInjective(a[1..], s, b[1..], t, keyBytes);
      assert a == [a[0]] + a[1..] && b == [b[0]] + b[1..];
    }
  }
}
