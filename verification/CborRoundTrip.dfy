/** Decoding an encoding: exactly which values survive, and what they come back as. */
module CborRoundTrip {
  import opened Bytes
  import opened Utf8
  import opened CborValue
  import opened EntrySort
  import opened CborEncode
  import opened CborDecode
  import opened Wrappers

  // -------------------------------------------------- representable at a depth

  /** Well-formed, and no deeper than the decoder follows from `depth`. */
  predicate Fits(v: Value, depth: nat) {
    depth < MAX_DECODE_DEPTH &&
    match v
    case Negative(i) => i < 0
    case Array(items) => forall i :: 0 <= i < |items| ==> Fits(items[i], depth + 1)
    case IntMap(es) => DistinctKeys(es) && FitsEntries(es, depth + 1)
    case StrMap(es) => DistinctKeys(es) && FitsEntries(es, depth + 1)
    case _ => true
  }

  predicate FitsEntries<K>(es: seq<Entry<K>>, depth: nat) {
    forall i :: 0 <= i < |es| ==> assert es[i].value < es[i]; Fits(es[i].value, depth)
  }

  lemma {:induction false} HeightAllBound(items: seq<Value>, h: nat)
    ensures HeightAll(items) <= h <==> forall i :: 0 <= i < |items| ==> Height(items[i]) <= h
  {
    if items != [] {
      HeightAllBound(items[1..], h);
      assert forall i :: 1 <= i < |items| ==> items[i] == items[1..][i - 1];
    }
  }

  lemma {:induction false} HeightEntriesBound<K>(es: seq<Entry<K>>, h: nat)
    ensures HeightEntries(es) <= h <==> forall i :: 0 <= i < |es| ==> Height(es[i].value) <= h
  {
    if es != [] {
      HeightEntriesBound(es[1..], h);
      assert forall i :: 1 <= i < |es| ==> es[i] == es[1..][i - 1];
    }
  }

  lemma {:induction false} FitsMeaning(v: Value, depth: nat)
    ensures Fits(v, depth) <==> WellFormed(v) && depth + Height(v) <= MAX_DECODE_DEPTH
  {
    if depth < MAX_DECODE_DEPTH {
      match v
      case Array(items) =>
        HeightAllBound(items, MAX_DECODE_DEPTH - depth - 1);
        forall i | 0 <= i < |items|
          ensures Fits(items[i], depth + 1) <==>
                  WellFormed(items[i]) && depth + 1 + Height(items[i]) <= MAX_DECODE_DEPTH
        {
          FitsMeaning(items[i], depth + 1);
        }
      case IntMap(es) => FitsEntriesMeaning(es, depth + 1);
      case StrMap(es) => FitsEntriesMeaning(es, depth + 1);
      case _ =>
    }
  }

  lemma {:induction false} FitsEntriesMeaning<K>(es: seq<Entry<K>>, depth: nat)
    requires depth <= MAX_DECODE_DEPTH
    ensures FitsEntries(es, depth) <==> WellFormedEntries(es) && depth + HeightEntries(es) <= MAX_DECODE_DEPTH
  {
    HeightEntriesBound(es, MAX_DECODE_DEPTH - depth);
    forall i | 0 <= i < |es|
      ensures Fits(es[i].value, depth) <==>
              WellFormed(es[i].value) && depth + Height(es[i].value) <= MAX_DECODE_DEPTH
    {
      assert es[i].value < es[i];
      FitsMeaning(es[i].value, depth);
    }
  }

  // ----------------------------------------------- the canonical form represents

  /** No string map is empty, at any depth. */
  predicate Plain(v: Value) {
    match v
    case Array(items) => forall i :: 0 <= i < |items| ==> Plain(items[i])
    case IntMap(es) => PlainEntries(es)
    case StrMap(es) => es != [] && PlainEntries(es)
    case _ => true
  }

  predicate PlainEntries<K>(es: seq<Entry<K>>) {
    forall i :: 0 <= i < |es| ==> assert es[i].value < es[i]; Plain(es[i].value)
  }

  lemma {:induction false} CanonPlain(v: Value)
    ensures Plain(Canon(v))
  {
    match v
    case Array(items) =>
      forall i | 0 <= i < |items| ensures Plain(Canon(items[i])) { CanonPlain(items[i]); }
    case IntMap(es) => CanonPlainEntries(es, IntKeyLess);
    case StrMap(es) => CanonPlainEntries(es, TextKeyLess);
    case _ =>
  }

  lemma {:induction false} CanonPlainEntries<K>(es: seq<Entry<K>>, less: (K, K) -> bool)
    ensures PlainEntries(Sort(CanonEntries(es), less))
  {
    var cs := CanonEntries(es);
    forall i | 0 <= i < |es| ensures Plain(cs[i].value) {
      assert es[i].value < es[i];
      CanonPlain(es[i].value);
    }
    var r := Sort(cs, less);
    SameMembers(r, cs);
    forall i | 0 <= i < |r| ensures Plain(r[i].value) { assert r[i] in cs; }
  }

  lemma {:induction false} CanonFits(v: Value, depth: nat)
    ensures Fits(Canon(v), depth) <==> Fits(v, depth)
  {
    hide Sort, CanonEntries, CanonAll, DistinctKeys;
    if depth < MAX_DECODE_DEPTH {
      match v
      case Array(items) =>
        forall i | 0 <= i < |items| ensures Fits(Canon(items[i]), depth + 1) <==> Fits(items[i], depth + 1) {
          CanonFits(items[i], depth + 1);
        }
      case IntMap(es) => CanonFitsEntries(es, IntKeyLess, depth + 1);
      case StrMap(es) => CanonFitsStrMap(es, depth);
      case _ =>
    }
  }

  lemma {:induction false} CanonFitsStrMap(es: seq<Entry<Text>>, depth: nat)
    requires depth < MAX_DECODE_DEPTH
    ensures Fits(Canon(StrMap(es)), depth) <==> Fits(StrMap(es), depth)
    decreases es, 1
  {
    hide Sort, CanonEntries;
    CanonFitsEntries(es, TextKeyLess, depth + 1);
  }

  lemma {:induction false} CanonFitsEntries<K>(es: seq<Entry<K>>, less: (K, K) -> bool, depth: nat)
    ensures FitsEntries(Sort(CanonEntries(es), less), depth) <==> FitsEntries(es, depth)
    ensures DistinctKeys(Sort(CanonEntries(es), less)) <==> DistinctKeys(es)
    decreases es, 0
  {
    hide Sort, CanonEntries, Canon, Fits;
    var cs := CanonEntries(es);
    forall i | 0 <= i < |es| ensures Fits(cs[i].value, depth) <==> Fits(es[i].value, depth) {
      assert es[i].value < es[i];
      CanonFits(es[i].value, depth);
    }
    PermutedFits(cs, Sort(cs, less), depth);
    SortDistinct(cs, less);
  }

  lemma PermutedFits<K>(a: seq<Entry<K>>, b: seq<Entry<K>>, depth: nat)
    requires multiset(a) == multiset(b)
    ensures FitsEntries(a, depth) <==> FitsEntries(b, depth)
  {
    hide Fits;
    SameMembers(a, b);
    assert FitsEntries(a, depth) <==> forall e :: e in a ==> Fits(e.value, depth);
    assert FitsEntries(b, depth) <==> forall e :: e in b ==> Fits(e.value, depth);
  }

  lemma {:induction false} CanonWellFormed(v: Value)
    requires WellFormed(v)
    ensures WellFormed(Canon(v))
    decreases v, 1
  {
    hide Sort, CanonEntries, CanonAll, DistinctKeys;
    match v
    case Array(items) =>
      forall i | 0 <= i < |items| ensures WellFormed(Canon(items[i])) { CanonWellFormed(items[i]); }
    case IntMap(es) => CanonWellFormedEntries(es, IntKeyLess);
    case StrMap(es) => CanonWellFormedEntries(es, TextKeyLess); NoDuplicates();
    case _ =>
  }

  lemma NoDuplicates()
    ensures DistinctKeys<i64>([])
  {}

  lemma {:induction false} CanonWellFormedEntries<K>(es: seq<Entry<K>>, less: (K, K) -> bool)
    requires WellFormedEntries(es) && DistinctKeys(es)
    ensures WellFormedEntries(Sort(CanonEntries(es), less)) && DistinctKeys(Sort(CanonEntries(es), less))
    decreases es, 0
  {
    hide Sort, CanonEntries, Canon, WellFormed;
    var cs := CanonEntries(es);
    forall i | 0 <= i < |es| ensures WellFormed(cs[i].value) {
      assert es[i].value < es[i];
      CanonWellFormed(es[i].value);
    }
    var r := Sort(cs, less);
    SameMembers(r, cs);
    forall i | 0 <= i < |r| ensures WellFormed(r[i].value) { assert r[i] in cs; }
    SortDistinct(cs, less);
  }

  // ------------------------------------------------------------ reading a header

  lemma {:induction false} HeaderAt(data: bytes, pos: nat, m: major, n: u64)
    requires At(data, pos, EncodeHeader(m, n))
    ensures pos < |data| && data[pos] / 32 == m && data[pos] % 32 == AdditionalInfo(n)
    ensures ReadArgument(data, pos + 1, AdditionalInfo(n)) == Ok(Parsed(n, pos + |EncodeHeader(m, n)|))
  {
    var first, width := m * 32 + AdditionalInfo(n), ArgumentWidth(AdditionalInfo(n));
    AtConcat(data, pos, [first], BigEndian(n, width));
    assert data[pos] == data[pos..pos + 1][0] == first;
    ArgumentAt(data, pos + 1, n);
  }

  lemma {:induction false} ArgumentAt(data: bytes, pos: nat, n: u64)
    requires At(data, pos, BigEndian(n, ArgumentWidth(AdditionalInfo(n))))
    ensures ReadArgument(data, pos, AdditionalInfo(n)) == Ok(Parsed(n, pos + ArgumentWidth(AdditionalInfo(n))))
  {
    if n > 23 {
      var width := ArgumentWidth(AdditionalInfo(n));
      ArgumentFits(n);
      BigEndianRoundTrip(n, width);
      assert FromBigEndian(data[pos..pos + width]) == n;
    }
  }

  lemma ValueAtHeader(data: bytes, pos: nat, depth: nat, m: major, n: u64)
    requires depth < MAX_DECODE_DEPTH && At(data, pos, EncodeHeader(m, n))
    ensures ValueAt(data, pos, depth) ==
            BodyAt(data, pos + |EncodeHeader(m, n)|, depth, m, AdditionalInfo(n), n)
  {
    HeaderAt(data, pos, m, n);
  }

  // --------------------------------------------------------------------- printing

  lemma {:induction false} EmitAllLength(items: seq<Value>)
    ensures |EmitAll(items)| >= |items|
  {
    if items != [] { EmitAllLength(items[1..]); }
  }

  lemma {:induction false} EmitEntriesLength<K>(es: seq<Entry<K>>, keyBytes: K -> bytes)
    ensures |EmitEntries(es, keyBytes)| >= |es|
  {
    if es != [] { EmitEntriesLength(es[1..], keyBytes); }
  }

  function IntKeyValue(k: i64): Value { if k >= 0 then Unsigned(k) else Negative(k) }

  function TextKeyValue(s: Text): Value { TextString(s) }

  function PairsOf<K>(es: seq<Entry<K>>, keyValue: K -> Value): (ps: seq<Pair>)
    ensures |ps| == |es|
    ensures forall i :: 0 <= i < |es| ==> ps[i] == Pair(keyValue(es[i].key), es[i].value)
  {
    seq(|es|, i requires 0 <= i < |es| => Pair(keyValue(es[i].key), es[i].value))
  }

  /** No entry repeats a key of another one or of a pair read before. */
  predicate NewKeys<K>(read: seq<Pair>, es: seq<Entry<K>>, keyValue: K -> Value)
    decreases es
  {
    es == [] ||
    (!HasKey(read, keyValue(es[0].key)) &&
     NewKeys(read + [Pair(keyValue(es[0].key), es[0].value)], es[1..], keyValue))
  }

  ghost predicate Injective<K(!new)>(keyValue: K -> Value) {
    forall a, b :: keyValue(a) == keyValue(b) ==> a == b
  }

  lemma {:induction false} NewKeysMeaning<K(!new)>(read: seq<Pair>, es: seq<Entry<K>>, keyValue: K -> Value)
    requires Injective(keyValue)
    ensures NewKeys(read, es, keyValue) <==>
            DistinctKeys(es) && forall e :: e in es ==> !HasKey(read, keyValue(e.key))
    decreases es
  {
    if es != [] {
      var p := Pair(keyValue(es[0].key), es[0].value);
      NewKeysMeaning(read + [p], es[1..], keyValue);
      assert es == [es[0]] + es[1..];
      DistinctCons(es[0], es[1..]);
      forall e | e in es[1..]
        ensures HasKey(read + [p], keyValue(e.key)) <==> HasKey(read, keyValue(e.key)) || e.key == es[0].key
      {
        HasKeyAppend(read, p, keyValue(e.key));
      }
    }
  }

  lemma HasKeyAppend(read: seq<Pair>, p: Pair, key: Value)
    ensures HasKey(read + [p], key) <==> HasKey(read, key) || p.key == key
  {
    assert (read + [p])[|read|] == p;
    assert forall i :: 0 <= i < |read| ==> (read + [p])[i] == read[i];
  }

  // ------------------------------------------------------- parsing what was printed

  /** The reasons for refusing a printed value: too deep, or not well formed. */
  ghost predicate Refused<T>(r: CborResult<T>, wellFormed: bool) {
    r.Err? && (r.error.DepthExceeded? || (r.error.Invalid? && !wellFormed))
  }

  /** A printed value is read back when it fits and refused when it does not. */
  ghost predicate ReadBack(data: bytes, pos: nat, depth: nat, v: Value)
    requires depth <= MAX_DECODE_DEPTH && pos <= |data|
  {
    if Fits(v, depth) then ValueAt(data, pos, depth) == Ok(Parsed(v, pos + |Emit(v)|))
    else Refused(ValueAt(data, pos, depth), WellFormed(v))
  }

  lemma {:induction false} ValueAtEmit(data: bytes, pos: nat, depth: nat, v: Value)
    requires depth <= MAX_DECODE_DEPTH && |data| < TWO_64 && Plain(v) && At(data, pos, Emit(v))
    ensures ReadBack(data, pos, depth, v)
    decreases v, 1
  {
    if depth == MAX_DECODE_DEPTH {
      assert !Fits(v, depth) && ValueAt(data, pos, depth) == Err(DepthExceeded(pos));
    } else {
      hide ReadBack, Emit;
      match v
      case Array(items) => ArrayAtEmit(data, pos, depth, items);
      case IntMap(es) => IntMapAtEmit(data, pos, depth, es);
      case StrMap(es) => StrMapAtEmit(data, pos, depth, es);
      case ByteString(s) => StringAtEmit(data, pos, depth, v);
      case TextString(s) => StringAtEmit(data, pos, depth, v);
      case _ => LeafAtEmit(data, pos, depth, v);
    }
  }

  lemma {:induction false} LeafAtEmit(data: bytes, pos: nat, depth: nat, v: Value)
    requires depth < MAX_DECODE_DEPTH && At(data, pos, Emit(v))
    requires v.Unsigned? || v.Negative? || v.Bool? || v.Null?
    ensures ReadBack(data, pos, depth, v)
  {
    hide ValueAt, BodyAt;
    var m, n := if v.Unsigned? then MT_UNSIGNED else if v.Negative? then MT_NEGATIVE else MT_SIMPLE, LeafArgument(v);
    assert Emit(v) == EncodeHeader(m, n);
    ValueAtHeader(data, pos, depth, m, n);
    BodyAtLeaf(data, pos + |Emit(v)|, depth, v);
  }

  function LeafArgument(v: Value): u64
    requires v.Unsigned? || v.Negative? || v.Bool? || v.Null?
  {
    match v
    case Unsigned(n) => n
    case Negative(i) => AsU64(-1 - i)
    case Bool(b) => if b then SIMPLE_TRUE else SIMPLE_FALSE
    case Null => SIMPLE_NULL
  }

  lemma {:induction false} BodyAtLeaf(data: bytes, pos: nat, depth: nat, v: Value)
    requires pos <= |data| && depth < MAX_DECODE_DEPTH && (v.Unsigned? || v.Negative? || v.Bool? || v.Null?)
    ensures var m := if v.Unsigned? then MT_UNSIGNED else if v.Negative? then MT_NEGATIVE else MT_SIMPLE;
            var r := BodyAt(data, pos, depth, m, AdditionalInfo(LeafArgument(v)), LeafArgument(v));
            if Fits(v, depth) then r == Ok(Parsed(v, pos)) else Refused(r, WellFormed(v))
  {}

  lemma {:induction false} BodyAtString(data: bytes, pos: nat, depth: nat, ai: byte, s: bytes)
    requires depth < MAX_DECODE_DEPTH && |data| < TWO_64 && At(data, pos, s)
    ensures BodyAt(data, pos, depth, MT_BYTE_STRING, ai, |s|) == Ok(Parsed(ByteString(s), pos + |s|))
    ensures ValidUtf8(s) ==>
              BodyAt(data, pos, depth, MT_TEXT_STRING, ai, |s|) == Ok(Parsed(TextString(s), pos + |s|))
  {}

  lemma {:induction false} StringAtEmit(data: bytes, pos: nat, depth: nat, v: Value)
    requires depth < MAX_DECODE_DEPTH && |data| < TWO_64 && At(data, pos, Emit(v))
    requires v.ByteString? || v.TextString?
    ensures ReadBack(data, pos, depth, v)
  {
    hide ValueAt, BodyAt, EncodeHeader, ValidUtf8;
    var m, s := if v.ByteString? then MT_BYTE_STRING else MT_TEXT_STRING, if v.ByteString? then v.octets else v.text;
    var h := EncodeHeader(m, AsU64(|s|));
    AtConcat(data, pos, h, s);
    assert |s| <= |data|;
    assert AsU64(|s|) == |s|;
    ValueAtHeader(data, pos, depth, m, |s|);
    BodyAtString(data, pos + |h|, depth, AdditionalInfo(|s|), s);
  }

  lemma {:induction false} ArrayAtEmit(data: bytes, pos: nat, depth: nat, items: seq<Value>)
    requires depth < MAX_DECODE_DEPTH && |data| < TWO_64
    requires Plain(Array(items)) && At(data, pos, Emit(Array(items)))
    ensures ReadBack(data, pos, depth, Array(items))
    decreases items, 1
  {
    hide ValueAt, BodyAt, ItemsAt, EmitAll;
    EmitAllLength(items);
    var h := EncodeHeader(MT_ARRAY, AsU64(|items|));
    AtConcat(data, pos, h, EmitAll(items));
    ValueAtHeader(data, pos, depth, MT_ARRAY, AsU64(|items|));
    BodyAtArray(data, pos + |h|, depth, AdditionalInfo(|items|), |items|);
    ItemsAtEmit(data, pos + |h|, depth + 1, items, []);
    assert [] + items == items;
  }

  lemma {:induction false} BodyAtArray(data: bytes, pos: nat, depth: nat, ai: byte, n: u64)
    requires depth < MAX_DECODE_DEPTH && pos <= |data| && n <= |data|
    ensures var r := ItemsAt(data, pos, depth + 1, n, []);
            BodyAt(data, pos, depth, MT_ARRAY, ai, n) ==
            if r.Err? then Err(r.error) else Ok(Parsed(Array(r.value.value), r.value.next))
  {
    hide ItemsAt;
  }

  lemma {:induction false} BodyAtMap(data: bytes, pos: nat, depth: nat, ai: byte, n: u64)
    requires depth < MAX_DECODE_DEPTH && pos <= |data| && n <= |data|
    ensures var r := PairsAt(data, pos, depth + 1, n, []);
            BodyAt(data, pos, depth, MT_MAP, ai, n) ==
            if r.Err? then Err(r.error)
            else var v := ToMap(r.value.value, r.value.next);
                 if v.Err? then Err(v.error) else Ok(Parsed(v.value, r.value.next))
  {
    hide PairsAt, ToMap;
  }

  lemma NoKeyYet<K(!new)>(es: seq<Entry<K>>, keyValue: K -> Value)
    requires Injective(keyValue)
    ensures NewKeys([], es, keyValue) <==> DistinctKeys(es)
  {
    NewKeysMeaning([], es, keyValue);
  }

  lemma {:induction false} IntMapAtEmit(data: bytes, pos: nat, depth: nat, es: seq<Entry<i64>>)
    requires depth < MAX_DECODE_DEPTH && |data| < TWO_64
    requires Plain(IntMap(es)) && At(data, pos, Emit(IntMap(es)))
    ensures ReadBack(data, pos, depth, IntMap(es))
    decreases es, 2
  {
    hide EmitEntries, ToMap, DistinctKeys;
    IntKeysReadable(data, depth + 1, es);
    IntPairsBack(es);
    MapAtEmit(data, pos, depth, IntMap(es), es, IntKeyBytes, IntKeyValue);
  }

  lemma {:induction false} StrMapAtEmit(data: bytes, pos: nat, depth: nat, es: seq<Entry<Text>>)
    requires depth < MAX_DECODE_DEPTH && |data| < TWO_64
    requires Plain(StrMap(es)) && At(data, pos, Emit(StrMap(es)))
    ensures ReadBack(data, pos, depth, StrMap(es))
    decreases es, 2
  {
    hide EmitEntries, ToMap, DistinctKeys;
    TextKeysReadable(data, depth + 1, es);
    TextPairsBack(es);
    MapAtEmit(data, pos, depth, StrMap(es), es, TextKeyBytes, TextKeyValue);
  }

  lemma {:induction false} MapAtEmit<K(!new)>(data: bytes, pos: nat, depth: nat, v: Value, es: seq<Entry<K>>,
                                              keyBytes: K -> bytes, keyValue: K -> Value)
    requires depth < MAX_DECODE_DEPTH && |data| < TWO_64 && PlainEntries(es)
    requires Emit(v) == EncodeHeader(MT_MAP, AsU64(|es|)) + EmitEntries(es, keyBytes) && At(data, pos, Emit(v))
    requires Fits(v, depth) <==> DistinctKeys(es) && FitsEntries(es, depth + 1)
    requires WellFormed(v) ==> DistinctKeys(es) && WellFormedEntries(es)
    requires forall next :: ToMap(PairsOf(es, keyValue), next) == Ok(v)
    requires Injective(keyValue)
    requires depth + 1 < MAX_DECODE_DEPTH ==> ReadableKeys(data, depth + 1, es, keyBytes, keyValue)
    ensures ReadBack(data, pos, depth, v)
    decreases es, 1
  {
    hide ValueAt, BodyAt, PairsAt, EmitEntries, ToMap, NewKeys, HasKey, Fits, Emit, EncodeHeader, Injective;
    hide DistinctKeys, FitsEntries, PlainEntries, ReadableKeys, AdditionalInfo;
    var h := EncodeHeader(MT_MAP, AsU64(|es|));
    EmitEntriesLength(es, keyBytes);
    AtConcat(data, pos, h, EmitEntries(es, keyBytes));
    assert AsU64(|es|) == |es|;
    ValueAtHeader(data, pos, depth, MT_MAP, |es|);
    BodyAtMap(data, pos + |h|, depth, AdditionalInfo(|es|), |es|);
    EntriesAtEmit(data, pos + |h|, depth + 1, es, keyBytes, keyValue, []);
    assert [] + PairsOf(es, keyValue) == PairsOf(es, keyValue);
    NoKeyYet(es, keyValue);
  }

  predicate FitsAll(items: seq<Value>, depth: nat) {
    forall i :: 0 <= i < |items| ==> Fits(items[i], depth)
  }

  ghost predicate ItemsReadBack(data: bytes, pos: nat, depth: nat, items: seq<Value>, read: seq<Value>)
    requires depth <= MAX_DECODE_DEPTH && pos <= |data|
  {
    var r := ItemsAt(data, pos, depth, |items|, read);
    if FitsAll(items, depth) then r == Ok(Parsed(read + items, pos + |EmitAll(items)|))
    else Refused(r, forall i :: 0 <= i < |items| ==> WellFormed(items[i]))
  }

  lemma {:induction false} ItemsAtEmit(data: bytes, pos: nat, depth: nat, items: seq<Value>, read: seq<Value>)
    requires depth <= MAX_DECODE_DEPTH && |data| < TWO_64 && At(data, pos, EmitAll(items))
    requires forall i :: 0 <= i < |items| ==> Plain(items[i])
    ensures ItemsReadBack(data, pos, depth, items, read)
    decreases items, 0
  {
    if items == [] {
      assert read + items == read;
    } else {
      hide ReadBack, Plain, Emit, ItemsReadBack;
      AtConcat(data, pos, Emit(items[0]), EmitAll(items[1..]));
      ValueAtEmit(data, pos, depth, items[0]);
      ItemsAtEmit(data, pos + |Emit(items[0])|, depth, items[1..], read + [items[0]]);
      ItemsReadBackCons(data, pos, depth, items, read);
    }
  }

  lemma {:induction false} ItemsReadBackCons(data: bytes, pos: nat, depth: nat, items: seq<Value>, read: seq<Value>)
    requires depth <= MAX_DECODE_DEPTH && items != []
    requires pos + |Emit(items[0])| <= |data| && ReadBack(data, pos, depth, items[0])
    requires ItemsReadBack(data, pos + |Emit(items[0])|, depth, items[1..], read + [items[0]])
    ensures ItemsReadBack(data, pos, depth, items, read)
  {
    hide ValueAt, Emit, Fits;
    assert read + [items[0]] + items[1..] == read + items;
    assert forall i :: 1 <= i < |items| ==> items[i] == items[1..][i - 1];
  }

  /** Wherever the encoding of one of the keys stands, the decoder reads that key. */
  ghost predicate ReadableKeys<K>(data: bytes, depth: nat, es: seq<Entry<K>>,
                                  keyBytes: K -> bytes, keyValue: K -> Value)
    requires depth < MAX_DECODE_DEPTH
  {
    forall e, p: nat :: e in es && At(data, p, keyBytes(e.key)) ==>
      ValueAt(data, p, depth) == Ok(Parsed(keyValue(e.key), p + |keyBytes(e.key)|))
  }

  lemma {:induction false} IntKeysReadable(data: bytes, depth: nat, es: seq<Entry<i64>>)
    ensures depth < MAX_DECODE_DEPTH ==> ReadableKeys(data, depth, es, IntKeyBytes, IntKeyValue)
  {
    hide ValueAt, EncodeHeader;
    if depth < MAX_DECODE_DEPTH {
      forall e, p: nat | e in es && At(data, p, IntKeyBytes(e.key))
        ensures ValueAt(data, p, depth) == Ok(Parsed(IntKeyValue(e.key), p + |IntKeyBytes(e.key)|))
      {
        ValueAtHeader(data, p, depth, KeyMajor(e.key), KeyArgument(e.key));
      }
    }
  }

  lemma {:induction false} TextKeysReadable(data: bytes, depth: nat, es: seq<Entry<Text>>)
    requires |data| < TWO_64
    ensures depth < MAX_DECODE_DEPTH ==> ReadableKeys(data, depth, es, TextKeyBytes, TextKeyValue)
  {
    hide ValueAt, TextKeyBytes, ValidUtf8;
    if depth < MAX_DECODE_DEPTH {
      forall e, p: nat | e in es && At(data, p, TextKeyBytes(e.key))
        ensures ValueAt(data, p, depth) == Ok(Parsed(TextKeyValue(e.key), p + |TextKeyBytes(e.key)|))
      {
        TextKeyAt(data, p, depth, e.key);
      }
    }
  }

  lemma {:induction false} TextKeyAt(data: bytes, pos: nat, depth: nat, key: Text)
    requires |data| < TWO_64 && depth < MAX_DECODE_DEPTH && At(data, pos, TextKeyBytes(key))
    ensures ValueAt(data, pos, depth) == Ok(Parsed(TextKeyValue(key), pos + |TextKeyBytes(key)|))
  {
    hide ValueAt, EncodeHeader, ValidUtf8;
    assert Emit(TextString(key)) == TextKeyBytes(key);
    StringAtEmit(data, pos, depth, TextString(key));
  }

  /** Printed entries are read back when their values fit and their keys are new. */
  ghost predicate PairsReadBack<K>(data: bytes, pos: nat, depth: nat, es: seq<Entry<K>>,
                                   keyBytes: K -> bytes, keyValue: K -> Value, read: seq<Pair>)
    requires depth <= MAX_DECODE_DEPTH && pos <= |data|
  {
    var r := PairsAt(data, pos, depth, |es|, read);
    if FitsEntries(es, depth) && NewKeys(read, es, keyValue)
    then r == Ok(Parsed(read + PairsOf(es, keyValue), pos + |EmitEntries(es, keyBytes)|))
    else Refused(r, WellFormedEntries(es) && NewKeys(read, es, keyValue))
  }

  lemma {:induction false} EntriesAtEmit<K>(data: bytes, pos: nat, depth: nat, es: seq<Entry<K>>,
                                            keyBytes: K -> bytes, keyValue: K -> Value, read: seq<Pair>)
    requires depth <= MAX_DECODE_DEPTH && |data| < TWO_64 && At(data, pos, EmitEntries(es, keyBytes))
    requires PlainEntries(es)
    requires depth < MAX_DECODE_DEPTH ==> ReadableKeys(data, depth, es, keyBytes, keyValue)
    ensures PairsReadBack(data, pos, depth, es, keyBytes, keyValue, read)
    decreases es, 0
  {
    hide ReadBack, Plain, PlainEntries, Emit, EmitEntries, PairsReadBack, ValueAt, ReadableKeys;
    EmitEntriesLength(es, keyBytes);
    if es == [] || depth == MAX_DECODE_DEPTH {
      EntriesReadBackBase(data, pos, depth, es, keyBytes, keyValue, read);
    } else {
      var e := es[0];
      var k, n := |keyBytes(e.key)|, |Emit(e.value)|;
      FirstEntryAt(data, pos, depth, es, keyBytes, keyValue);
      assert e.value < e;
      ValueAtEmit(data, pos + k, depth, e.value);
      EntriesAtEmit(data, pos + k + n, depth, es[1..], keyBytes, keyValue, read + [Pair(keyValue(e.key), e.value)]);
      PairsReadBackCons(data, pos, depth, es, keyBytes, keyValue, read);
    }
  }

  lemma {:induction false} FirstEntryAt<K>(data: bytes, pos: nat, depth: nat, es: seq<Entry<K>>,
                                           keyBytes: K -> bytes, keyValue: K -> Value)
    requires depth < MAX_DECODE_DEPTH && es != [] && At(data, pos, EmitEntries(es, keyBytes))
    requires PlainEntries(es) && ReadableKeys(data, depth, es, keyBytes, keyValue)
    ensures Plain(es[0].value) && PlainEntries(es[1..])
    ensures ReadableKeys(data, depth, es[1..], keyBytes, keyValue)
    ensures var k, n := |keyBytes(es[0].key)|, |Emit(es[0].value)|;
            && pos + k + n <= |data|
            && ValueAt(data, pos, depth) == Ok(Parsed(keyValue(es[0].key), pos + k))
            && At(data, pos, keyBytes(es[0].key))
            && At(data, pos + k, Emit(es[0].value))
            && At(data, pos + k + n, EmitEntries(es[1..], keyBytes))
  {
    hide ValueAt, Plain, Emit;
    var kb, vb := keyBytes(es[0].key), Emit(es[0].value);
    AtConcat(data, pos, kb + vb, EmitEntries(es[1..], keyBytes));
    AtConcat(data, pos, kb, vb);
    assert es[0] in es && forall e :: e in es[1..] ==> e in es;
  }

  lemma {:induction false} EntriesReadBackBase<K>(data: bytes, pos: nat, depth: nat, es: seq<Entry<K>>,
                                                  keyBytes: K -> bytes, keyValue: K -> Value, read: seq<Pair>)
    requires pos <= |data| && depth <= MAX_DECODE_DEPTH
    requires es == [] || (depth == MAX_DECODE_DEPTH && pos < |data|)
    ensures PairsReadBack(data, pos, depth, es, keyBytes, keyValue, read)
  {
    if es == [] {
      assert read + PairsOf(es, keyValue) == read;
    } else {
      assert !Fits(es[0].value, depth);
      assert PairsAt(data, pos, depth, |es|, read).Err?;
    }
  }

  lemma {:induction false} PairsReadBackCons<K>(data: bytes, pos: nat, depth: nat, es: seq<Entry<K>>,
                                                keyBytes: K -> bytes, keyValue: K -> Value, read: seq<Pair>)
    requires depth < MAX_DECODE_DEPTH && es != []
    requires var e, k := es[0], |keyBytes(es[0].key)|;
             && pos + k + |Emit(e.value)| <= |data|
             && ValueAt(data, pos, depth) == Ok(Parsed(keyValue(e.key), pos + k))
             && ReadBack(data, pos + k, depth, e.value)
             && PairsReadBack(data, pos + k + |Emit(e.value)|, depth, es[1..], keyBytes, keyValue,
                              read + [Pair(keyValue(e.key), e.value)])
    ensures PairsReadBack(data, pos, depth, es, keyBytes, keyValue, read)
  {
    hide ValueAt, Emit, Fits, HasKey;
    var p := Pair(keyValue(es[0].key), es[0].value);
    assert read + [p] + PairsOf(es[1..], keyValue) == read + PairsOf(es, keyValue);
    FitsEntriesCons(es, depth);
  }

  lemma FitsEntriesCons<K>(es: seq<Entry<K>>, depth: nat)
    requires es != []
    ensures FitsEntries(es, depth) <==> Fits(es[0].value, depth) && FitsEntries(es[1..], depth)
  {
    assert forall i :: 1 <= i < |es| ==> es[i] == es[1..][i - 1];
  }

  lemma IntPairsBack(es: seq<Entry<i64>>)
    ensures Injective(IntKeyValue)
    ensures forall pos :: ToMap(PairsOf(es, IntKeyValue), pos) == Ok(IntMap(es))
  {
    var ps := PairsOf(es, IntKeyValue);
    assert IntKeyed(ps);
    assert IntEntries(ps) == es;
  }

  lemma TextPairsBack(es: seq<Entry<Text>>)
    requires es != []
    ensures Injective(TextKeyValue)
    ensures forall pos :: ToMap(PairsOf(es, TextKeyValue), pos) == Ok(StrMap(es))
  {
    var ps := PairsOf(es, TextKeyValue);
    assert ps[0].key == TextString(es[0].key);
    assert !IntKeyed(ps) && TextKeyed(ps);
    assert TextEntries(ps) == es;
  }

  // ------------------------------------------------------------------- round trip

  /** Encoding then decoding, with anything after the encoding: a value comes back in its
      canonical form, using up exactly its encoding, if and only if its negatives are
      negative, its maps repeat no key and it nests at most 100 levels. A value that is only
      too deep is refused as too deep. The bound on the buffer is that of a 64-bit `usize`. */
  lemma {:induction false} RoundTrip(v: Value, suffix: bytes)
    requires |Encode(v) + suffix| < TWO_64
    ensures WellFormed(v) && Height(v) <= MAX_DECODE_DEPTH ==>
              Decoded(Encode(v) + suffix) == Ok(Parsed(Canon(v), |Encode(v)|))
    ensures !(WellFormed(v) && Height(v) <= MAX_DECODE_DEPTH) ==>
              Refused(Decoded(Encode(v) + suffix), WellFormed(v))
  {
    hide ValueAt, Canon, Emit, WellFormed, Height, Plain, Fits;
    var data := Encode(v) + suffix;
    assert data[0..|Encode(v)|] == Encode(v);
    CanonPlain(v);
    if WellFormed(v) { CanonWellFormed(v); }
    CanonFits(v, 0);
    FitsMeaning(v, 0);
    ValueAtEmit(data, 0, 0, Canon(v));
  }
}
