/** What the decoder can return. Its duplicate check compares keys as decoded, but unsigned
    keys are cast to i64 afterwards, so an integer map can come back with a key twice. */
module CborShape {
  import opened Bytes
  import opened Utf8
  import opened CborValue
  import opened CborEncode
  import opened CborDecode
  import opened CborRoundTrip
  import opened CborCanonical
  import opened Wrappers

  // ------------------------------------------------------- well formed but for the cast

  /** Well formed, except that an integer map may repeat a key. */
  predicate NearlyWellFormed(v: Value) {
    match v
    case Negative(i) => i < 0
    case Array(items) => forall i :: 0 <= i < |items| ==> NearlyWellFormed(items[i])
    case IntMap(es) => NearlyWellFormedEntries(es)
    case StrMap(es) => DistinctKeys(es) && NearlyWellFormedEntries(es)
    case _ => true
  }

  predicate NearlyWellFormedEntries<K>(es: seq<Entry<K>>) {
    forall i :: 0 <= i < |es| ==> assert es[i].value < es[i]; NearlyWellFormed(es[i].value)
  }

  /** Nothing nests deeper than the decoder follows from `depth`, negatives are negative, no
      string map is empty or repeats a key. */
  ghost predicate Shaped(v: Value, depth: nat) {
    depth + Height(v) <= MAX_DECODE_DEPTH && NearlyWellFormed(v) && Plain(v)
  }

  predicate DistinctPairs(ps: seq<Pair>) {
    forall i, j :: 0 <= i < j < |ps| ==> ps[i].key != ps[j].key
  }

  /** An unsigned key and a negative key that the cast makes equal. */
  predicate CastClash(ps: seq<Pair>) {
    exists i, j :: 0 <= i < |ps| && 0 <= j < |ps| &&
      ps[i].key.Unsigned? && ps[j].key.Negative? && AsI64(ps[i].key.n) == ps[j].key.i
  }

  lemma IntEntriesDistinct(ps: seq<Pair>)
    requires IntKeyed(ps) && DistinctPairs(ps)
    ensures DistinctKeys(IntEntries(ps)) <==> !CastClash(ps)
  {
    var es := IntEntries(ps);
    if CastClash(ps) {
      var i, j :| 0 <= i < |ps| && 0 <= j < |ps| &&
        ps[i].key.Unsigned? && ps[j].key.Negative? && AsI64(ps[i].key.n) == ps[j].key.i;
      assert es[i].key == es[j].key;
    }
    if !DistinctKeys(es) {
      var i, j :| 0 <= i < j < |es| && es[i].key == es[j].key;
      assert ps[i].key != ps[j].key;
    }
  }

  lemma TextEntriesDistinct(ps: seq<Pair>)
    requires TextKeyed(ps) && DistinctPairs(ps)
    ensures DistinctKeys(TextEntries(ps))
  {
    var es := TextEntries(ps);
    forall i, j | 0 <= i < j < |es| ensures es[i].key != es[j].key {
      assert ps[i].key != ps[j].key;
    }
  }

  // -------------------------------------------------------------- clashes in the octets

  /** In no map of the value at `pos`, at any depth, does the cast make two keys equal. */
  predicate ClashFreeAt(data: bytes, pos: nat, depth: nat)
    requires pos <= |data| && depth <= MAX_DECODE_DEPTH && ValueAt(data, pos, depth).Ok?
    decreases MAX_DECODE_DEPTH - depth, 0
  {
    var m := data[pos] / 32;
    var arg := ReadArgument(data, pos + 1, data[pos] % 32).value;
    if m == MT_ARRAY then ClashFreeItems(data, arg.next, depth + 1, arg.value)
    else m == MT_MAP ==> ClashFreeMap(data, arg.next, depth + 1, arg.value)
  }

  predicate ClashFreeMap(data: bytes, pos: nat, depth: nat, count: nat)
    requires pos <= |data| && depth <= MAX_DECODE_DEPTH
    decreases MAX_DECODE_DEPTH - depth, count + 1
  {
    var pairs := PairsAt(data, pos, depth, count, []);
    pairs.Ok? && !CastClash(pairs.value.value) && ClashFreePairs(data, pos, depth, count)
  }

  predicate ClashFreeItems(data: bytes, pos: nat, depth: nat, count: nat)
    requires pos <= |data| && depth <= MAX_DECODE_DEPTH
    decreases MAX_DECODE_DEPTH - depth, count
  {
    count == 0 ||
    (var item := ValueAt(data, pos, depth);
     && item.Ok?
     && ClashFreeAt(data, pos, depth)
     && ClashFreeItems(data, item.value.next, depth, count - 1))
  }

  predicate ClashFreePairs(data: bytes, pos: nat, depth: nat, count: nat)
    requires pos <= |data| && depth <= MAX_DECODE_DEPTH
    decreases MAX_DECODE_DEPTH - depth, count
  {
    count == 0 ||
    (var key := ValueAt(data, pos, depth);
     && key.Ok?
     && var val := ValueAt(data, key.value.next, depth);
     && val.Ok?
     && ClashFreeAt(data, key.value.next, depth)
     && ClashFreePairs(data, val.value.next, depth, count - 1))
  }

  // --------------------------------------------------------------------------- shape

  /** Every value returned is shaped, and it is well formed exactly when no cast clashed. */
  lemma {:induction false} DecodedShape(data: bytes, pos: nat, depth: nat)
    requires pos <= |data| && depth <= MAX_DECODE_DEPTH && ValueAt(data, pos, depth).Ok?
    ensures var v := ValueAt(data, pos, depth).value.value;
            Shaped(v, depth) && (WellFormed(v) <==> ClashFreeAt(data, pos, depth))
    decreases MAX_DECODE_DEPTH - depth, 0
  {
    ValueAtUnfold(data, pos, depth);
    hide ValueAt, ItemsAt, PairsAt, BodyAt, ReadArgument, Shaped, WellFormed;
    var m, ai := data[pos] / 32, data[pos] % 32;
    var arg := ReadArgument(data, pos + 1, ai).value;
    if m == MT_ARRAY {
      ArrayShape(data, arg.next, depth, ai, arg.value);
    } else if m == MT_MAP {
      MapShape(data, arg.next, depth, ai, arg.value);
    } else {
      LeafShape(data, arg.next, depth, m, ai, arg.value);
    }
  }

  lemma {:induction false} LeafShape(data: bytes, pos: nat, depth: nat, m: major, ai: byte, arg: u64)
    requires pos <= |data| && depth < MAX_DECODE_DEPTH && m != MT_ARRAY && m != MT_MAP
    requires BodyAt(data, pos, depth, m, ai, arg).Ok?
    ensures var v := BodyAt(data, pos, depth, m, ai, arg).value.value; Shaped(v, depth) && WellFormed(v)
  {
    hide ItemsAt, PairsAt, ValidUtf8;
  }

  lemma {:induction false} ArrayShape(data: bytes, pos: nat, depth: nat, ai: byte, arg: u64)
    requires pos <= |data| && depth < MAX_DECODE_DEPTH && BodyAt(data, pos, depth, MT_ARRAY, ai, arg).Ok?
    ensures var v := BodyAt(data, pos, depth, MT_ARRAY, ai, arg).value.value;
            Shaped(v, depth) && (WellFormed(v) <==> ClashFreeItems(data, pos, depth + 1, arg))
    decreases MAX_DECODE_DEPTH - depth - 1, arg + 1
  {
    hide ItemsAt, PairsAt, ClashFreeItems;
    var items := ItemsAt(data, pos, depth + 1, arg, []).value.value;
    ItemsShape(data, pos, depth + 1, arg, []);
    HeightAllBound(items, MAX_DECODE_DEPTH - depth - 1);
  }

  lemma {:induction false} ItemsShape(data: bytes, pos: nat, depth: nat, count: nat, read: seq<Value>)
    requires pos <= |data| && depth <= MAX_DECODE_DEPTH && ItemsAt(data, pos, depth, count, read).Ok?
    ensures var vs := ItemsAt(data, pos, depth, count, read).value.value;
            && |vs| == |read| + count && vs[..|read|] == read
            && (forall i :: |read| <= i < |vs| ==> Shaped(vs[i], depth))
            && ((forall i :: |read| <= i < |vs| ==> WellFormed(vs[i])) <==> ClashFreeItems(data, pos, depth, count))
    decreases MAX_DECODE_DEPTH - depth, count
  {
    hide ValueAt, Shaped, WellFormed, ClashFreeAt;
    if count > 0 {
      var item := ValueAt(data, pos, depth).value;
      DecodedShape(data, pos, depth);
      ItemsShape(data, item.next, depth, count - 1, read + [item.value]);
      var vs := ItemsAt(data, pos, depth, count, read).value.value;
      assert vs[..|read|] == vs[..|read| + 1][..|read|] && vs[|read|] == vs[..|read| + 1][|read|];
    }
  }

  lemma {:induction false} MapShape(data: bytes, pos: nat, depth: nat, ai: byte, arg: u64)
    requires pos <= |data| && depth < MAX_DECODE_DEPTH && BodyAt(data, pos, depth, MT_MAP, ai, arg).Ok?
    ensures var v := BodyAt(data, pos, depth, MT_MAP, ai, arg).value.value;
            Shaped(v, depth) && (WellFormed(v) <==> ClashFreeMap(data, pos, depth + 1, arg))
    decreases MAX_DECODE_DEPTH - depth - 1, arg + 1
  {
    hide PairsAt, ClashFreePairs, Shaped, WellFormed, ItemsAt, CastClash;
    var ps := PairsAt(data, pos, depth + 1, arg, []).value.value;
    PairsShape(data, pos, depth + 1, arg, []);
    if IntKeyed(ps) { IntMapShape(ps, depth); } else { TextMapShape(ps, depth); }
  }

  lemma {:induction false} ShapedEntries<K>(es: seq<Entry<K>>, depth: nat)
    requires depth < MAX_DECODE_DEPTH && forall i :: 0 <= i < |es| ==> Shaped(es[i].value, depth + 1)
    ensures depth + 1 + HeightEntries(es) <= MAX_DECODE_DEPTH && NearlyWellFormedEntries(es) && PlainEntries(es)
  {
    hide Height, NearlyWellFormed, Plain;
    HeightEntriesBound(es, MAX_DECODE_DEPTH - depth - 1);
    forall i | 0 <= i < |es|
      ensures NearlyWellFormed(es[i].value) && Plain(es[i].value) && Height(es[i].value) <= MAX_DECODE_DEPTH - depth - 1
    {
      assert Shaped(es[i].value, depth + 1);
    }
  }

  lemma {:induction false} IntMapShape(ps: seq<Pair>, depth: nat)
    requires depth < MAX_DECODE_DEPTH && IntKeyed(ps) && DistinctPairs(ps)
    requires forall i :: 0 <= i < |ps| ==> Shaped(ps[i].value, depth + 1)
    ensures Shaped(IntMap(IntEntries(ps)), depth)
    ensures WellFormed(IntMap(IntEntries(ps))) <==>
            !CastClash(ps) && forall i :: 0 <= i < |ps| ==> WellFormed(ps[i].value)
  {
    hide CastClash, DistinctPairs, DistinctKeys;
    var es := IntEntries(ps);
    assert forall i :: 0 <= i < |es| ==> es[i].value == ps[i].value;
    IntEntriesDistinct(ps);
    ShapedEntries(es, depth);
  }

  lemma {:induction false} TextMapShape(ps: seq<Pair>, depth: nat)
    requires depth < MAX_DECODE_DEPTH && !IntKeyed(ps) && TextKeyed(ps) && DistinctPairs(ps)
    requires forall i :: 0 <= i < |ps| ==> Shaped(ps[i].value, depth + 1)
    ensures Shaped(StrMap(TextEntries(ps)), depth) && !CastClash(ps)
    ensures WellFormed(StrMap(TextEntries(ps))) <==> forall i :: 0 <= i < |ps| ==> WellFormed(ps[i].value)
  {
    hide DistinctPairs, DistinctKeys, ValidUtf8;
    var es := TextEntries(ps);
    assert forall i :: 0 <= i < |es| ==> es[i].value == ps[i].value;
    TextEntriesDistinct(ps);
    ShapedEntries(es, depth);
  }

  /** The pairs of a decoded map have different keys and shaped values. */
  lemma {:induction false} PairsShape(data: bytes, pos: nat, depth: nat, count: nat, read: seq<Pair>)
    requires pos <= |data| && depth <= MAX_DECODE_DEPTH && PairsAt(data, pos, depth, count, read).Ok?
    requires DistinctPairs(read)
    ensures var ps := PairsAt(data, pos, depth, count, read).value.value;
            && |ps| == |read| + count && ps[..|read|] == read && DistinctPairs(ps)
            && (forall i :: |read| <= i < |ps| ==> Shaped(ps[i].value, depth))
            && ((forall i :: |read| <= i < |ps| ==> WellFormed(ps[i].value))
                <==> ClashFreePairs(data, pos, depth, count))
    decreases MAX_DECODE_DEPTH - depth, count
  {
    hide ValueAt, Shaped, WellFormed, ClashFreeAt, DistinctPairs;
    if count > 0 {
      var key := ValueAt(data, pos, depth).value;
      var val := ValueAt(data, key.next, depth).value;
      DecodedShape(data, key.next, depth);
      var more := read + [Pair(key.value, val.value)];
      DistinctPairsAppend(read, Pair(key.value, val.value));
      PairsShape(data, val.next, depth, count - 1, more);
      var ps := PairsAt(data, pos, depth, count, read).value.value;
      assert ps[..|read|] == ps[..|more|][..|read|] && ps[|read|] == ps[..|more|][|read|];
    }
  }

  lemma DistinctPairsAppend(read: seq<Pair>, p: Pair)
    requires DistinctPairs(read) && !HasKey(read, p.key)
    ensures DistinctPairs(read + [p])
  {}

  lemma {:induction false} AllOnes(s: bytes)
    requires forall i :: 0 <= i < |s| ==> s[i] == 255
    ensures FromBigEndian(s) == Pow256(|s|) - 1
  {
    if s != [] { AllOnes(s[..|s| - 1]); }
  }

  /** {2^64 - 1: 0, -1: 1} */
  const CLASHING: bytes := [0xA2, 0x1B, 0xFF, 0xFF, 0xFF, 0xFF, 0xFF, 0xFF, 0xFF, 0xFF, 0x00, 0x20, 0x01]

  lemma {:induction false} ClashingLeaves()
    ensures ValueAt(CLASHING, 1, 1) == Ok(Parsed(Unsigned(TWO_64 - 1), 10))
    ensures ValueAt(CLASHING, 10, 1) == Ok(Parsed(Unsigned(0), 11))
    ensures ValueAt(CLASHING, 11, 1) == Ok(Parsed(Negative(-1), 12))
    ensures ValueAt(CLASHING, 12, 1) == Ok(Parsed(Unsigned(1), 13))
  {
    hide ItemsAt, PairsAt, FromBigEndian, Pow256;
    AllOnes(CLASHING[2..10]);
    Pow256Values();
    assert ReadArgument(CLASHING, 2, 27) == Ok(Parsed(TWO_64 - 1, 10));
  }

  /** The cast does clash: keys 2^64 - 1 and -1 both come back as -1. */
  lemma {:induction false} RepeatedKeyDecoded()
    ensures var v := IntMap([Entry(-1, Unsigned(0)), Entry(-1, Unsigned(1))]);
            Decoded(CLASHING) == Ok(Parsed(v, 13)) && !WellFormed(v)
  {
    hide ValueAt, PairsAt, BodyAt, ToMap, WellFormed;
    ClashingLeaves();
    RepeatedPairs(CLASHING);
    BodyAtMap(CLASHING, 1, 0, 2, 2);
    ClashingHeader();
    ClashingMap();
  }

  lemma ClashingHeader()
    ensures Decoded(CLASHING) == BodyAt(CLASHING, 1, 0, MT_MAP, 2, 2)
  {
    hide BodyAt;
    assert CLASHING[0] / 32 == MT_MAP && CLASHING[0] % 32 == 2;
    assert ReadArgument(CLASHING, 1, 2) == Ok(Parsed(2, 1));
  }

  lemma ClashingMap()
    ensures var v := IntMap([Entry(-1, Unsigned(0)), Entry(-1, Unsigned(1))]);
            ToMap([Pair(Unsigned(TWO_64 - 1), Unsigned(0)), Pair(Negative(-1), Unsigned(1))], 13) == Ok(v) &&
            !WellFormed(v)
  {
    var ps := [Pair(Unsigned(TWO_64 - 1), Unsigned(0)), Pair(Negative(-1), Unsigned(1))];
    var es := [Entry(-1, Unsigned(0)), Entry(-1, Unsigned(1))];
    assert IntKeyed(ps) && IntEntries(ps) == es;
    assert es[0].key == es[1].key;
  }

  lemma {:induction false} RepeatedPairs(data: bytes)
    requires |data| == 13
    requires ValueAt(data, 1, 1) == Ok(Parsed(Unsigned(TWO_64 - 1), 10))
    requires ValueAt(data, 10, 1) == Ok(Parsed(Unsigned(0), 11))
    requires ValueAt(data, 11, 1) == Ok(Parsed(Negative(-1), 12))
    requires ValueAt(data, 12, 1) == Ok(Parsed(Unsigned(1), 13))
    ensures PairsAt(data, 1, 1, 2, []) ==
            Ok(Parsed([Pair(Unsigned(TWO_64 - 1), Unsigned(0)), Pair(Negative(-1), Unsigned(1))], 13))
  {
    hide ValueAt;
    var p, q := Pair(Unsigned(TWO_64 - 1), Unsigned(0)), Pair(Negative(-1), Unsigned(1));
    assert PairsAt(data, 1, 1, 2, []) == PairsAt(data, 11, 1, 1, [p]) by { assert [] + [p] == [p]; }
    assert PairsAt(data, 11, 1, 1, [p]) == PairsAt(data, 13, 1, 0, [p, q]) by { assert [p] + [q] == [p, q]; }
  }
}
