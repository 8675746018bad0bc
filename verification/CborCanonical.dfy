/** Encodings as canonical names for values: when two values share one, and which accepted
    octet strings the encoder reproduces. */
module CborCanonical {
  import opened Bytes
  import opened Utf8
  import opened CborValue
  import opened EntrySort
  import opened CborEncode
  import opened CborDecode
  import opened Wrappers
  import opened CborRoundTrip
  import opened CborPrint

  // ------------------------------------------------------------------ injectivity

  /** The canonical form forgets how entries of different keys were interleaved and the kind of
      an empty map, nothing else. */
  lemma {:induction false} SameIffCanon(v: Value, w: Value)
    ensures Same(v, w) <==> Canon(v) == Canon(w)
    decreases v, 1
  {
    hide Sort, CanonEntries, CanonAll, SameEntries;
    match (v, w)
    case (Array(a), Array(b)) =>
      forall i | 0 <= i < |a| && i < |b| ensures Same(a[i], b[i]) <==> Canon(a[i]) == Canon(b[i]) {
        SameIffCanon(a[i], b[i]);
      }
      assert |a| == |b| && (forall i :: 0 <= i < |a| ==> Canon(a[i]) == Canon(b[i])) ==> CanonAll(a) == CanonAll(b);
    case (IntMap(a), IntMap(b)) =>
      IntKeyStrictOrder();
      SameEntriesIffCanon(a, b, IntKeyLess);
    case (StrMap(a), StrMap(b)) =>
      TextKeyStrictOrder();
      SameEntriesIffCanon(a, b, TextKeyLess);
      SameEntriesEmpty(a, b);
    case _ =>
  }

  lemma SameEntriesEmpty<K(!new)>(a: seq<Entry<K>>, b: seq<Entry<K>>)
    ensures a == [] || b == [] ==> (SameEntries(a, b) <==> a == [] && b == [])
  {
    if a != [] && b == [] {
      OfKeyNonempty(a, a[0]);
      assert !SameUnderKey(a, b, a[0].key);
    }
    if b != [] && a == [] {
      OfKeyNonempty(b, b[0]);
      assert !SameUnderKey(a, b, b[0].key);
    }
  }

  lemma {:induction false} CanonOfKey<K>(es: seq<Entry<K>>, k: K)
    ensures OfKey(CanonEntries(es), k) == CanonEntries(OfKey(es, k))
  {
    hide Canon;
    if es != [] {
      CanonOfKey(es[1..], k);
      OfKeyCons(es[0], es[1..], k);
      assert es == [es[0]] + es[1..];
      var c := CanonEntries(es);
      assert c == [c[0]] + CanonEntries(es[1..]);
      OfKeyCons(c[0], CanonEntries(es[1..]), k);
      assert CanonEntries(OfKey(es, k)) == (if es[0].key == k then [c[0]] else []) + CanonEntries(OfKey(es[1..], k));
    }
  }

  /** Entries of one key are the same exactly when they have one canonical form. */
  lemma {:induction false} SameUnderKeyIffCanon<K>(a: seq<Entry<K>>, b: seq<Entry<K>>, k: K)
    ensures SameUnderKey(a, b, k) <==> OfKey(CanonEntries(a), k) == OfKey(CanonEntries(b), k)
    decreases a, 0
  {
    hide Canon, Same, OfKey, CanonEntries;
    CanonOfKey(a, k);
    CanonOfKey(b, k);
    var x, y := OfKey(a, k), OfKey(b, k);
    var c, d := CanonEntries(x), CanonEntries(y);
    forall i | 0 <= i < |x| && i < |y| ensures Same(x[i].value, y[i].value) <==> c[i] == d[i] {
      assert x[i] in a && x[i].value < x[i];
      SameIffCanon(x[i].value, y[i].value);
      assert c[i] == Entry(k, Canon(x[i].value)) && d[i] == Entry(k, Canon(y[i].value));
    }
  }

  lemma {:induction false} SameEntriesIffCanon<K(!new)>(a: seq<Entry<K>>, b: seq<Entry<K>>, less: (K, K) -> bool)
    requires StrictOrder(less)
    ensures SameEntries(a, b) <==> Sort(CanonEntries(a), less) == Sort(CanonEntries(b), less)
    decreases a, 1
  {
    hide Sort, CanonEntries, StrictOrder, OfKey, SameUnderKey;
    SortExact(CanonEntries(a), CanonEntries(b), less);
    forall k ensures SameUnderKey(a, b, k) <==> OfKey(CanonEntries(a), k) == OfKey(CanonEntries(b), k) {
      SameUnderKeyIffCanon(a, b, k);
    }
  }

  /** Two values have one encoding exactly when they are the same up to interleaving of keys and
      empty-map kind, and no encoding is a proper prefix of another. Repeated keys, misused
      negatives and any depth are included. */
  lemma {:induction false} EncodingInjective(v: Value, w: Value)
    requires |Encode(v)| < TWO_64
    ensures Encode(v) == Encode(w) <==> Same(v, w)
    ensures |Encode(w)| < TWO_64 && Encode(v) <= Encode(w) ==> Encode(v) == Encode(w)
  {
    hide Same, Canon, Emit;
    SameIffCanon(v, w);
    CanonPlain(v);
    CanonPlain(w);
    if Encode(v) == Encode(w) {
      assert Encode(v) + [] == Encode(w) + [];
      EmitInjective(Canon(v), [], Canon(w), []);
    }
    if |Encode(w)| < TWO_64 && Encode(v) <= Encode(w) {
      var suffix := Encode(w)[|Encode(v)|..];
      assert Encode(v) + suffix == Encode(w) + [];
      EmitInjective(Canon(v), suffix, Canon(w), []);
    }
  }

  // ------------------------------------------------------- byte-exact re-encoding

  /** The value at `pos` is written as the encoder writes it: every map lists its keys in
      encoder order, no unsigned key exceeds i64::MAX, and nothing is spelled `undefined`. */
  predicate StrictAt(data: bytes, pos: nat, depth: nat)
    requires pos <= |data| && depth <= MAX_DECODE_DEPTH
    decreases MAX_DECODE_DEPTH - depth, 0
  {
    ValueAt(data, pos, depth).Ok? &&
    var m, ai := data[pos] / 32, data[pos] % 32;
    var arg := ReadArgument(data, pos + 1, ai).value;
    if m == MT_ARRAY then StrictItems(data, arg.next, depth + 1, arg.value)
    else if m == MT_MAP then StrictPairs(data, arg.next, depth + 1, arg.value, [])
    else m == MT_SIMPLE ==> ai != SIMPLE_UNDEFINED
  }

  predicate StrictItems(data: bytes, pos: nat, depth: nat, count: nat)
    requires pos <= |data| && depth <= MAX_DECODE_DEPTH
    decreases MAX_DECODE_DEPTH - depth, count
  {
    count == 0 ||
    (StrictAt(data, pos, depth) && StrictItems(data, ValueAt(data, pos, depth).value.next, depth, count - 1))
  }

  /** `last` is the encoding of the key before, empty at the first one. */
  predicate StrictPairs(data: bytes, pos: nat, depth: nat, count: nat, last: bytes)
    requires pos <= |data| && depth <= MAX_DECODE_DEPTH
    decreases MAX_DECODE_DEPTH - depth, count
  {
    count == 0 ||
    (var key := ValueAt(data, pos, depth);
     && key.Ok?
     && (key.value.value.Unsigned? ==> key.value.value.n < TWO_63)
     && LengthFirst(last, data[pos..key.value.next])
     && StrictAt(data, key.value.next, depth)
     && StrictPairs(data, ValueAt(data, key.value.next, depth).value.next, depth, count - 1,
                    data[pos..key.value.next]))
  }

  /** A header the decoder accepts is the shortest one for its argument. */
  lemma {:induction false} AcceptedHeader(data: bytes, pos: nat)
    requires pos < |data| && ReadArgument(data, pos + 1, data[pos] % 32).Ok?
    ensures var arg := ReadArgument(data, pos + 1, data[pos] % 32).value;
            var h := EncodeHeader(data[pos] / 32, arg.value);
            At(data, pos, h) && arg.next == pos + |h| && data[pos] % 32 == AdditionalInfo(arg.value)
  {
    var ai := data[pos] % 32;
    var arg := ReadArgument(data, pos + 1, ai).value;
    ArgumentAccepted(data, pos + 1, ai);
    hide BigEndian;
    assert At(data, pos, [data[pos]]);
    AtConcat(data, pos, [data[pos]], BigEndian(arg.value, ArgumentWidth(ai)));
  }

  lemma {:induction false} ArgumentAccepted(data: bytes, pos: nat, ai: byte)
    requires pos <= |data| && ReadArgument(data, pos, ai).Ok?
    ensures var n := ReadArgument(data, pos, ai).value.value;
            ai == AdditionalInfo(n) && At(data, pos, BigEndian(n, ArgumentWidth(ai)))
  {
    hide FromBigEndian, BigEndian, Pow256;
    if ai > 23 {
      var octets := data[pos..pos + ArgumentWidth(ai)];
      FromBigEndianRoundTrip(octets);
      FromBigEndianBound(octets);
      Pow256Values();
    }
  }

  /** An argument is accepted exactly if it stands there in the one width the encoder uses. */
  lemma {:induction false} ArgumentExact(data: bytes, pos: nat, ai: byte, n: u64, next: nat)
    requires pos <= |data| && ai < 32
    ensures ReadArgument(data, pos, ai) == Ok(Parsed(n, next)) <==>
            ai == AdditionalInfo(n) && At(data, pos, BigEndian(n, ArgumentWidth(ai))) && next == pos + ArgumentWidth(ai)
  {
    hide ReadArgument, BigEndian, AdditionalInfo, ArgumentWidth;
    if ReadArgument(data, pos, ai).Ok? { ArgumentAccepted(data, pos, ai); }
    if ai == AdditionalInfo(n) && At(data, pos, BigEndian(n, ArgumentWidth(ai))) { ArgumentAt(data, pos, n); }
  }

  /** What stands at `pos` is `v` as the encoder prints it. */
  ghost predicate Printed(data: bytes, pos: nat, v: Value, next: nat) {
    Canon(v) == v && At(data, pos, Emit(v)) && next == pos + |Emit(v)|
  }

  /** A strict value is printed as its canonical self. */
  lemma {:induction false} StrictPrinted(data: bytes, pos: nat, depth: nat)
    requires pos <= |data| < TWO_64 && depth <= MAX_DECODE_DEPTH && StrictAt(data, pos, depth)
    ensures var r := ValueAt(data, pos, depth).value; Printed(data, pos, r.value, r.next)
    decreases MAX_DECODE_DEPTH - depth, 0
  {
    hide ValueAt, BodyAt, StrictItems, StrictPairs, ReadArgument, Emit, Canon, EncodeHeader;
    ValueAtUnfold(data, pos, depth);
    AcceptedHeader(data, pos);
    var m, ai := data[pos] / 32, data[pos] % 32;
    var arg := ReadArgument(data, pos + 1, ai).value;
    if m == MT_ARRAY {
      ArrayPrinted(data, arg.next, depth, ai, arg.value);
    } else if m == MT_MAP {
      MapPrinted(data, arg.next, depth, ai, arg.value);
    } else {
      LeafPrinted(data, arg.next, depth, m, arg.value);
    }
    var r := ValueAt(data, pos, depth).value;
    AtConcat(data, pos, EncodeHeader(m, arg.value), data[arg.next..r.next]);
  }

  lemma {:induction false} ValueAtUnfold(data: bytes, pos: nat, depth: nat)
    requires pos <= |data| && depth <= MAX_DECODE_DEPTH && ValueAt(data, pos, depth).Ok?
    ensures pos < |data| && depth < MAX_DECODE_DEPTH && ReadArgument(data, pos + 1, data[pos] % 32).Ok?
    ensures var arg := ReadArgument(data, pos + 1, data[pos] % 32).value;
            ValueAt(data, pos, depth) == BodyAt(data, arg.next, depth, data[pos] / 32, data[pos] % 32, arg.value)
  {
    hide BodyAt, ReadArgument;
  }

  lemma {:induction false} LeafPrinted(data: bytes, pos: nat, depth: nat, m: major, arg: u64)
    requires pos <= |data| < TWO_64 && depth < MAX_DECODE_DEPTH && m != MT_ARRAY && m != MT_MAP
    requires BodyAt(data, pos, depth, m, AdditionalInfo(arg), arg).Ok?
    requires m == MT_SIMPLE ==> AdditionalInfo(arg) != SIMPLE_UNDEFINED
    ensures var r := BodyAt(data, pos, depth, m, AdditionalInfo(arg), arg).value;
            Canon(r.value) == r.value && Emit(r.value) == EncodeHeader(m, arg) + data[pos..r.next]
  {
    hide ValidUtf8, ItemsAt, PairsAt, ValueAt, Lex;
    var r := BodyAt(data, pos, depth, m, AdditionalInfo(arg), arg).value;
    if m == MT_BYTE_STRING || m == MT_TEXT_STRING {
      var s := data[pos..r.next];
      assert |s| == arg && AsU64(arg) == arg;
      assert r.value == if m == MT_BYTE_STRING then ByteString(s) else TextString(s);
    } else {
      assert data[pos..r.next] == [];
      if m == MT_SIMPLE { assert BigEndian(arg, 0) == []; }
    }
  }

  lemma {:induction false} ArrayPrinted(data: bytes, pos: nat, depth: nat, ai: byte, n: u64)
    requires pos <= |data| < TWO_64 && depth < MAX_DECODE_DEPTH
    requires BodyAt(data, pos, depth, MT_ARRAY, ai, n).Ok? && StrictItems(data, pos, depth + 1, n)
    ensures var r := BodyAt(data, pos, depth, MT_ARRAY, ai, n).value;
            Canon(r.value) == r.value && Emit(r.value) == EncodeHeader(MT_ARRAY, n) + data[pos..r.next]
    decreases MAX_DECODE_DEPTH - depth - 1, n + 1
  {
    hide ItemsAt, StrictItems, EncodeHeader, CanonAll, EmitAll;
    StrictItemsPrinted(data, pos, depth + 1, n, []);
    var r := ItemsAt(data, pos, depth + 1, n, []).value;
    assert r.value[0..] == r.value;
  }

  ghost predicate PrintedItems(data: bytes, pos: nat, items: seq<Value>, next: nat) {
    CanonAll(items) == items && next <= |data| && next == pos + |EmitAll(items)| && data[pos..next] == EmitAll(items)
  }

  lemma {:induction false} StrictItemsPrinted(data: bytes, pos: nat, depth: nat, count: nat, read: seq<Value>)
    requires pos <= |data| < TWO_64 && depth <= MAX_DECODE_DEPTH
    requires ItemsAt(data, pos, depth, count, read).Ok? && StrictItems(data, pos, depth, count)
    ensures var r := ItemsAt(data, pos, depth, count, read).value;
            r.value[..|read|] == read && PrintedItems(data, pos, r.value[|read|..], r.next)
    decreases MAX_DECODE_DEPTH - depth, count
  {
    hide ValueAt, StrictAt, Canon, Emit;
    var r := ItemsAt(data, pos, depth, count, read).value;
    if count == 0 {
      assert r.value[|read|..] == [];
    } else {
      var item := ValueAt(data, pos, depth).value;
      StrictPrinted(data, pos, depth);
      StrictItemsPrinted(data, item.next, depth, count - 1, read + [item.value]);
      var rest := r.value[|read| + 1..];
      assert r.value[|read|] == (read + [item.value])[|read|] == item.value;
      assert r.value[|read|..] == [item.value] + rest;
      assert r.value[..|read|] == r.value[..|read| + 1][..|read|] == read;
      assert data[pos..r.next] == data[pos..item.next] + data[item.next..r.next];
    }
  }

  predicate LeafKey(v: Value) { v.Unsigned? || v.Negative? || v.TextString? }

  function EmitPairs(ps: seq<Pair>): bytes {
    if ps == [] then [] else Emit(ps[0].key) + Emit(ps[0].value) + EmitPairs(ps[1..])
  }

  predicate KeyInRange(v: Value) {
    (v.Unsigned? ==> v.n < TWO_63) && (v.Negative? ==> v.i < 0)
  }

  /** Keys in range and in ascending encoder order, starting above `last`; values canonical. */
  ghost predicate OrderedPairs(last: bytes, ps: seq<Pair>)
    decreases ps
  {
    ps == [] ||
    (&& KeyInRange(ps[0].key)
     && Canon(ps[0].value) == ps[0].value
     && LengthFirst(last, Emit(ps[0].key))
     && OrderedPairs(Emit(ps[0].key), ps[1..]))
  }

  lemma {:induction false} KeyPrinted(data: bytes, pos: nat, depth: nat)
    requires pos <= |data| < TWO_64 && depth <= MAX_DECODE_DEPTH
    requires ValueAt(data, pos, depth).Ok? && LeafKey(ValueAt(data, pos, depth).value.value)
    ensures var r := ValueAt(data, pos, depth).value;
            data[pos..r.next] == Emit(r.value) && (r.value.Negative? ==> r.value.i < 0)
  {
    hide ValueAt, ReadArgument, Emit, Canon, EncodeHeader, ItemsAt, PairsAt, ValidUtf8;
    ValueAtUnfold(data, pos, depth);
    AcceptedHeader(data, pos);
    var m := data[pos] / 32;
    var arg := ReadArgument(data, pos + 1, data[pos] % 32).value;
    assert m != MT_ARRAY && m != MT_MAP && m != MT_SIMPLE;
    LeafPrinted(data, arg.next, depth, m, arg.value);
    var r := ValueAt(data, pos, depth).value;
    assert data[pos..r.next] == data[pos..arg.next] + data[arg.next..r.next];
  }

  lemma {:induction false} StrictPairsPrinted(data: bytes, pos: nat, depth: nat, count: nat,
                                              read: seq<Pair>, last: bytes)
    requires pos <= |data| < TWO_64 && depth <= MAX_DECODE_DEPTH
    requires PairsAt(data, pos, depth, count, read).Ok? && StrictPairs(data, pos, depth, count, last)
    requires forall i :: 0 <= i < |PairsAt(data, pos, depth, count, read).value.value| ==>
               LeafKey(PairsAt(data, pos, depth, count, read).value.value[i].key)
    ensures var r := PairsAt(data, pos, depth, count, read).value;
            && r.value[..|read|] == read
            && OrderedPairs(last, r.value[|read|..])
            && data[pos..r.next] == EmitPairs(r.value[|read|..])
    decreases MAX_DECODE_DEPTH - depth, count
  {
    hide ValueAt, StrictAt, Canon, Emit, LengthFirst, HasKey;
    var r := PairsAt(data, pos, depth, count, read).value;
    if count == 0 {
      assert r.value[|read|..] == [];
    } else {
      var key := ValueAt(data, pos, depth).value;
      var val := ValueAt(data, key.next, depth).value;
      var p := Pair(key.value, val.value);
      StrictPrinted(data, key.next, depth);
      StrictPairsPrinted(data, val.next, depth, count - 1, read + [p], data[pos..key.next]);
      assert r.value[|read|] == r.value[..|read| + 1][|read|] == (read + [p])[|read|] == p;
      assert r.value[|read|..] == [p] + r.value[|read| + 1..];
      assert r.value[..|read|] == r.value[..|read| + 1][..|read|] == read;
      KeyPrinted(data, pos, depth);
      assert data[pos..r.next] == data[pos..key.next] + data[key.next..val.next] + data[val.next..r.next];
    }
  }

  lemma {:induction false} MapPrinted(data: bytes, pos: nat, depth: nat, ai: byte, n: u64)
    requires pos <= |data| < TWO_64 && depth < MAX_DECODE_DEPTH
    requires BodyAt(data, pos, depth, MT_MAP, ai, n).Ok? && StrictPairs(data, pos, depth + 1, n, [])
    ensures var r := BodyAt(data, pos, depth, MT_MAP, ai, n).value;
            Canon(r.value) == r.value && Emit(r.value) == EncodeHeader(MT_MAP, n) + data[pos..r.next]
    decreases MAX_DECODE_DEPTH - depth - 1, n + 1
  {
    hide PairsAt, StrictPairs, EncodeHeader, Canon, Emit, OrderedPairs, EmitPairs;
    var r := PairsAt(data, pos, depth + 1, n, []).value;
    StrictPairsPrinted(data, pos, depth + 1, n, [], []);
    assert r.value[0..] == r.value;
    if IntKeyed(r.value) {
      IntMapPrinted(r.value);
    } else {
      EmitPairsKeyLength(r.value);
      StrMapPrinted(r.value);
    }
  }

  lemma {:induction false} EmitPairsKeyLength(ps: seq<Pair>)
    requires TextKeyed(ps)
    ensures forall i :: 0 <= i < |ps| ==> |ps[i].key.text| <= |EmitPairs(ps)|
  {
    if ps != [] {
      EmitPairsKeyLength(ps[1..]);
      assert |ps[0].key.text| <= |Emit(ps[0].key)|;
      assert forall i :: 1 <= i < |ps| ==> ps[i] == ps[1..][i - 1];
    }
  }

  /** Pairs that come from typed entries are printed and ordered as those entries are. */
  lemma {:induction false} OrderedEntriesPrinted<K>(es: seq<Entry<K>>, keyBytes: K -> bytes,
                                                    keyValue: K -> Value, last: bytes)
    requires forall e :: e in es ==> Emit(keyValue(e.key)) == keyBytes(e.key)
    requires OrderedPairs(last, PairsOf(es, keyValue))
    ensures EmitEntries(es, keyBytes) == EmitPairs(PairsOf(es, keyValue))
    ensures CanonEntries(es) == es
    decreases es
  {
    hide Canon, Emit, LengthFirst;
    if es != [] {
      assert es[0] in es && forall e :: e in es[1..] ==> e in es;
      assert PairsOf(es, keyValue)[1..] == PairsOf(es[1..], keyValue);
      OrderedEntriesPrinted(es[1..], keyBytes, keyValue, keyBytes(es[0].key));
      assert es == [es[0]] + es[1..];
    }
  }

  lemma {:induction false} OrderedEntriesAscend<K>(es: seq<Entry<K>>, keyBytes: K -> bytes,
                                                   keyValue: K -> Value, last: bytes)
    requires forall e :: e in es ==> Emit(keyValue(e.key)) == keyBytes(e.key)
    requires OrderedPairs(last, PairsOf(es, keyValue))
    ensures forall i :: 0 <= i < |es| ==> LengthFirst(last, keyBytes(es[i].key))
    ensures forall i, j :: 0 <= i < j < |es| ==> LengthFirst(keyBytes(es[i].key), keyBytes(es[j].key))
    decreases es
  {
    hide Canon, Emit, LengthFirst;
    if es != [] {
      var k, rest := keyBytes(es[0].key), es[1..];
      assert es[0] in es && forall e :: e in rest ==> e in es;
      assert PairsOf(es, keyValue)[1..] == PairsOf(rest, keyValue);
      OrderedEntriesAscend(rest, keyBytes, keyValue, k);
      forall i | 0 <= i < |es| ensures LengthFirst(last, keyBytes(es[i].key)) {
        if i > 0 {
          assert es[i] == rest[i - 1];
          LengthFirstTransitive(last, k, keyBytes(es[i].key));
        }
      }
      forall i, j | 0 <= i < j < |es| ensures LengthFirst(keyBytes(es[i].key), keyBytes(es[j].key)) {
        assert es[j] == rest[j - 1];
        if i > 0 { assert es[i] == rest[i - 1]; }
      }
    }
  }

  lemma LengthFirstTransitive(a: bytes, b: bytes, c: bytes)
    requires LengthFirst(a, b) && LengthFirst(b, c)
    ensures LengthFirst(a, c)
  {
    if |a| == |b| == |c| { LexTransitive(a, b, c); }
  }

  lemma {:induction false} OrderedInRange(last: bytes, ps: seq<Pair>)
    requires OrderedPairs(last, ps)
    ensures forall i :: 0 <= i < |ps| ==> KeyInRange(ps[i].key)
    decreases ps
  {
    if ps != [] {
      hide LengthFirst, Canon, Emit;
      OrderedInRange(Emit(ps[0].key), ps[1..]);
      assert forall i :: 1 <= i < |ps| ==> ps[i] == ps[1..][i - 1];
    }
  }

  lemma {:induction false} IntMapPrinted(ps: seq<Pair>)
    requires IntKeyed(ps) && OrderedPairs([], ps)
    ensures var v := IntMap(IntEntries(ps));
            Canon(v) == v && Emit(v) == EncodeHeader(MT_MAP, AsU64(|ps|)) + EmitPairs(ps)
  {
    hide EncodeHeader, LengthFirst, OrderedPairs, Sort, EmitPairs, EmitEntries, CanonEntries;
    var es := IntEntries(ps);
    OrderedInRange([], ps);
    assert PairsOf(es, IntKeyValue) == ps;
    assert forall k :: Emit(IntKeyValue(k)) == IntKeyBytes(k);
    OrderedEntriesPrinted(es, IntKeyBytes, IntKeyValue, []);
    OrderedEntriesAscend(es, IntKeyBytes, IntKeyValue, []);
    IntKeyStrictOrder();
    assert Ascending(es, IntKeyLess);
    SortFixed(es, IntKeyLess);
  }

  lemma {:induction false} StrMapPrinted(ps: seq<Pair>)
    requires TextKeyed(ps) && ps != [] && OrderedPairs([], ps)
    requires forall i :: 0 <= i < |ps| ==> |ps[i].key.text| < TWO_64
    ensures var v := StrMap(TextEntries(ps));
            Canon(v) == v && Emit(v) == EncodeHeader(MT_MAP, AsU64(|ps|)) + EmitPairs(ps)
  {
    hide EncodeHeader, LengthFirst, OrderedPairs, Sort, EmitPairs, EmitEntries, CanonEntries, Lex, ValidUtf8;
    var es := TextEntries(ps);
    assert PairsOf(es, TextKeyValue) == ps;
    assert forall k :: Emit(TextKeyValue(k)) == TextKeyBytes(k);
    OrderedEntriesPrinted(es, TextKeyBytes, TextKeyValue, []);
    OrderedEntriesAscend(es, TextKeyBytes, TextKeyValue, []);
    TextKeyStrictOrder();
    forall i, j | 0 <= i < j < |es| ensures TextKeyLess(es[i].key, es[j].key) {
      assert es[i].key == ps[i].key.text && es[j].key == ps[j].key.text;
      TextKeyOrder(es[i].key, es[j].key);
    }
    assert Ascending(es, TextKeyLess);
    SortFixed(es, TextKeyLess);
  }

  // ---------------------------------------------- the encoder's output is strict

  lemma {:induction false} StrictHeader(data: bytes, pos: nat, depth: nat, m: major, n: u64)
    requires depth < MAX_DECODE_DEPTH && At(data, pos, EncodeHeader(m, n)) && ValueAt(data, pos, depth).Ok?
    ensures var p := pos + |EncodeHeader(m, n)|;
            StrictAt(data, pos, depth) <==>
            if m == MT_ARRAY then StrictItems(data, p, depth + 1, n)
            else if m == MT_MAP then StrictPairs(data, p, depth + 1, n, [])
            else m == MT_SIMPLE ==> AdditionalInfo(n) != SIMPLE_UNDEFINED
  {
    hide ValueAt, StrictItems, StrictPairs, EncodeHeader, ReadArgument;
    HeaderAt(data, pos, m, n);
  }

  lemma {:induction false} StrictEmit(data: bytes, pos: nat, depth: nat, v: Value)
    requires depth <= MAX_DECODE_DEPTH && |data| < TWO_64 && At(data, pos, Emit(v))
    requires Plain(v) && Fits(v, depth) && Canon(v) == v
    ensures StrictAt(data, pos, depth)
    decreases v, 2
  {
    hide ValueAt, StrictAt, EncodeHeader, EmitAll, EmitEntries, Sort, CanonEntries, DistinctKeys, ValidUtf8;
    ValueAtEmit(data, pos, depth, v);
    match v
    case Unsigned(n) => StrictHeader(data, pos, depth, MT_UNSIGNED, n);
    case Negative(i) => StrictHeader(data, pos, depth, MT_NEGATIVE, AsU64(-1 - i));
    case ByteString(s) =>
      AtConcat(data, pos, EncodeHeader(MT_BYTE_STRING, AsU64(|s|)), s);
      StrictHeader(data, pos, depth, MT_BYTE_STRING, AsU64(|s|));
    case TextString(s) =>
      AtConcat(data, pos, EncodeHeader(MT_TEXT_STRING, AsU64(|s|)), s);
      StrictHeader(data, pos, depth, MT_TEXT_STRING, AsU64(|s|));
    case Array(items) =>
      var h := EncodeHeader(MT_ARRAY, AsU64(|items|));
      EmitAllLength(items);
      AtConcat(data, pos, h, EmitAll(items));
      assert forall i :: 0 <= i < |items| ==> Canon(items[i]) == CanonAll(items)[i];
      StrictItemsEmit(data, pos + |h|, depth + 1, items);
      StrictHeader(data, pos, depth, MT_ARRAY, |items|);
    case IntMap(es) => StrictIntMap(data, pos, depth, es);
    case StrMap(es) => StrictStrMap(data, pos, depth, es);
    case Bool(b) => StrictSimple(data, pos, depth, v);
    case Null => StrictSimple(data, pos, depth, v);
  }

  lemma {:induction false} StrictSimple(data: bytes, pos: nat, depth: nat, v: Value)
    requires depth < MAX_DECODE_DEPTH && At(data, pos, Emit(v)) && (v.Bool? || v.Null?)
    requires ValueAt(data, pos, depth).Ok?
    ensures StrictAt(data, pos, depth)
  {
    hide ValueAt, StrictAt;
    var ai := if v.Null? then SIMPLE_NULL else if v.b then SIMPLE_TRUE else SIMPLE_FALSE;
    assert Emit(v) == EncodeHeader(MT_SIMPLE, ai);
    StrictHeader(data, pos, depth, MT_SIMPLE, ai);
  }

  lemma {:induction false} StrictItemsEmit(data: bytes, pos: nat, depth: nat, items: seq<Value>)
    requires depth <= MAX_DECODE_DEPTH && |data| < TWO_64 && At(data, pos, EmitAll(items))
    requires forall i :: 0 <= i < |items| ==> Plain(items[i]) && Fits(items[i], depth) && Canon(items[i]) == items[i]
    ensures StrictItems(data, pos, depth, |items|)
    decreases items, 0
  {
    hide ValueAt, StrictAt, Emit, Canon, Plain, Fits;
    if items != [] {
      AtConcat(data, pos, Emit(items[0]), EmitAll(items[1..]));
      ValueAtEmit(data, pos, depth, items[0]);
      StrictEmit(data, pos, depth, items[0]);
      assert forall i :: 1 <= i < |items| ==> items[i] == items[1..][i - 1];
      StrictItemsEmit(data, pos + |Emit(items[0])|, depth, items[1..]);
    }
  }

  ghost predicate CanonicalEntries<K>(es: seq<Entry<K>>) {
    forall i :: 0 <= i < |es| ==> Canon(es[i].value) == es[i].value
  }

  lemma EmptyFirst(s: bytes)
    requires |s| >= 1
    ensures LengthFirst([], s)
  {}

  /** A list that sorting its own canonical entries reproduces is ascending and canonical. */
  lemma {:induction false} CanonFixedEntries<K(!new)>(es: seq<Entry<K>>, less: (K, K) -> bool)
    requires StrictOrder(less) && DistinctKeys(es) && es == Sort(CanonEntries(es), less)
    ensures Ascending(es, less) && CanonicalEntries(es)
  {
    hide Sort, CanonEntries, Canon, StrictOrder;
    var cs := CanonEntries(es);
    assert DistinctKeys(cs);
    SortAscending(cs, less);
    SameMembers(cs, es);
    forall i | 0 <= i < |es| ensures Canon(es[i].value) == es[i].value {
      CanonMember(es, es[i]);
    }
  }

  lemma {:induction false} CanonMember<K>(es: seq<Entry<K>>, e: Entry<K>)
    requires e in CanonEntries(es)
    ensures Canon(e.value) == e.value
  {
    hide CanonEntries, Canon;
    var j :| 0 <= j < |es| && CanonEntries(es)[j] == e;
    CanonIdempotent(es[j].value);
  }

  lemma {:induction false} EmitEntriesKeyLength<K>(es: seq<Entry<K>>, keyBytes: K -> bytes)
    ensures forall i :: 0 <= i < |es| ==> |keyBytes(es[i].key)| <= |EmitEntries(es, keyBytes)|
  {
    if es != [] {
      EmitEntriesKeyLength(es[1..], keyBytes);
      assert forall i :: 1 <= i < |es| ==> es[i] == es[1..][i - 1];
    }
  }

  lemma {:induction false} StrictIntMap(data: bytes, pos: nat, depth: nat, es: seq<Entry<i64>>)
    requires depth < MAX_DECODE_DEPTH && |data| < TWO_64 && At(data, pos, Emit(IntMap(es)))
    requires PlainEntries(es) && Fits(IntMap(es), depth) && Canon(IntMap(es)) == IntMap(es)
    requires ValueAt(data, pos, depth).Ok?
    ensures StrictAt(data, pos, depth)
    decreases es, 1
  {
    hide ValueAt, StrictAt, EncodeHeader, EmitEntries, Sort, CanonEntries, LengthFirst, PlainEntries,
         FitsEntries, ReadableKeys, CanonicalEntries;
    var h := EncodeHeader(MT_MAP, AsU64(|es|));
    EmitEntriesLength(es, IntKeyBytes);
    AtConcat(data, pos, h, EmitEntries(es, IntKeyBytes));
    IntKeyStrictOrder();
    CanonFixedEntries(es, IntKeyLess);
    IntKeysReadable(data, depth + 1, es);
    if es != [] { EmptyFirst(IntKeyBytes(es[0].key)); }
    StrictPairsEmit(data, pos + |h|, depth + 1, es, IntKeyBytes, IntKeyValue, []);
    StrictHeader(data, pos, depth, MT_MAP, |es|);
  }

  lemma {:induction false} StrictStrMap(data: bytes, pos: nat, depth: nat, es: seq<Entry<Text>>)
    requires depth < MAX_DECODE_DEPTH && |data| < TWO_64 && At(data, pos, Emit(StrMap(es))) && es != []
    requires PlainEntries(es) && Fits(StrMap(es), depth) && Canon(StrMap(es)) == StrMap(es)
    requires ValueAt(data, pos, depth).Ok?
    ensures StrictAt(data, pos, depth)
    decreases es, 1
  {
    hide ValueAt, StrictAt, EncodeHeader, EmitEntries, Sort, CanonEntries, LengthFirst, PlainEntries,
         FitsEntries, ReadableKeys, ValidUtf8, Lex, CanonicalEntries;
    var h := EncodeHeader(MT_MAP, AsU64(|es|));
    EmitEntriesLength(es, TextKeyBytes);
    EmitEntriesKeyLength(es, TextKeyBytes);
    AtConcat(data, pos, h, EmitEntries(es, TextKeyBytes));
    TextKeyStrictOrder();
    CanonFixedEntries(es, TextKeyLess);
    forall i, j | 0 <= i < j < |es| ensures LengthFirst(TextKeyBytes(es[i].key), TextKeyBytes(es[j].key)) {
      assert TextKeyLess(es[i].key, es[j].key);
      TextKeyOrder(es[i].key, es[j].key);
    }
    TextKeysReadable(data, depth + 1, es);
    if es != [] { EmptyFirst(TextKeyBytes(es[0].key)); }
    StrictPairsEmit(data, pos + |h|, depth + 1, es, TextKeyBytes, TextKeyValue, []);
    StrictHeader(data, pos, depth, MT_MAP, |es|);
  }

  lemma {:induction false} StrictPairsEmit<K>(data: bytes, pos: nat, depth: nat, es: seq<Entry<K>>,
                                              keyBytes: K -> bytes, keyValue: K -> Value, last: bytes)
    requires depth <= MAX_DECODE_DEPTH && |data| < TWO_64 && At(data, pos, EmitEntries(es, keyBytes))
    requires PlainEntries(es) && FitsEntries(es, depth) && CanonicalEntries(es)
    requires depth < MAX_DECODE_DEPTH ==> ReadableKeys(data, depth, es, keyBytes, keyValue)
    requires forall i :: 0 <= i < |es| ==> KeyInRange(keyValue(es[i].key))
    requires es != [] ==> LengthFirst(last, keyBytes(es[0].key))
    requires forall i, j :: 0 <= i < j < |es| ==> LengthFirst(keyBytes(es[i].key), keyBytes(es[j].key))
    ensures StrictPairs(data, pos, depth, |es|, last)
    decreases es, 0
  {
    hide ValueAt, StrictAt, Emit, Canon, Plain, Fits, LengthFirst, ReadableKeys, PlainEntries, EmitEntries;
    if es != [] {
      FitsEntriesCons(es, depth);
      FitsBelowLimit(es[0].value, depth);
      FirstEntryAt(data, pos, depth, es, keyBytes, keyValue);
      var k := |keyBytes(es[0].key)|;
      assert es[0].value < es[0];
      ValueAtEmit(data, pos + k, depth, es[0].value);
      StrictEmit(data, pos + k, depth, es[0].value);
      assert forall i :: 1 <= i < |es| ==> es[i] == es[1..][i - 1];
      StrictPairsEmit(data, pos + k + |Emit(es[0].value)|, depth, es[1..], keyBytes, keyValue, keyBytes(es[0].key));
    }
  }

  lemma FitsBelowLimit(v: Value, depth: nat)
    requires Fits(v, depth)
    ensures depth < MAX_DECODE_DEPTH
  {}

  /** An octet string accepted by `check_canonical` is what encoding its value gives back
      if and only if it is strict. */
  lemma {:induction false} ReencodeExact(data: bytes)
    requires |data| < TWO_64 && CheckCanonical(data).Ok?
    ensures Encode(Decoded(data).value.value) == data <==> StrictAt(data, 0, 0)
  {
    hide ValueAt, StrictAt, Canon, Emit, WellFormed, Height, Plain, Fits;
    var v := Decoded(data).value.value;
    if StrictAt(data, 0, 0) {
      StrictPrinted(data, 0, 0);
      assert data[0..|data|] == data;
    }
    if Encode(v) == data {
      assert Encode(v) + [] == data;
      RoundTrip(v, []);
      FitsMeaning(v, 0);
      CanonPlain(v);
      assert data[0..|data|] == data;
      StrictEmit(data, 0, 0, v);
    }
  }

  /** `check_canonical` alone does not promise it: it accepts `undefined`, which comes back
      as null. */
  lemma {:induction false} ReencodeFails()
    ensures CheckCanonical([0xF7]).Ok? && Encode(Decoded([0xF7]).value.value) == [0xF6]
  {
    var data := [0xF7];
    assert data[0] / 32 == MT_SIMPLE && data[0] % 32 == SIMPLE_UNDEFINED;
    assert ReadArgument(data, 1, SIMPLE_UNDEFINED) == Ok(Parsed(23, 1));
    hide ItemsAt, PairsAt, ReadArgument;
    assert BodyAt(data, 1, 0, MT_SIMPLE, SIMPLE_UNDEFINED, 23) == Ok(Parsed(Null, 1));
    assert Decoded(data) == Ok(Parsed(Null, 1));
  }
}
