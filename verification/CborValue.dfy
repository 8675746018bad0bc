/** The values of the codec, and what makes one representable on the wire. */
module CborValue {
  import opened Bytes
  import opened Utf8

  datatype Entry<K> = Entry(key: K, value: Value)

  datatype Value =
    | Unsigned(n: u64)
    | Negative(i: i64)
    | ByteString(octets: bytes)
    | TextString(text: Text)
    | Array(items: seq<Value>)
    | IntMap(ints: seq<Entry<i64>>)
    | StrMap(strs: seq<Entry<Text>>)
    | Bool(b: bool)
    | Null

  predicate DistinctKeys<K(==)>(es: seq<Entry<K>>) {
    forall i, j :: 0 <= i < j < |es| ==> es[i].key != es[j].key
  }

  /** `Negative` holds negative numbers only and no map repeats a key, at any depth. */
  predicate WellFormed(v: Value) {
    match v
    case Negative(i) => i < 0
    case Array(items) => forall i :: 0 <= i < |items| ==> WellFormed(items[i])
    case IntMap(es) => DistinctKeys(es) && WellFormedEntries(es)
    case StrMap(es) => DistinctKeys(es) && WellFormedEntries(es)
    case _ => true
  }

  predicate WellFormedEntries<K>(es: seq<Entry<K>>) {
    forall i :: 0 <= i < |es| ==> assert es[i].value < es[i]; WellFormed(es[i].value)
  }

  function Max(a: nat, b: nat): nat { if a < b then b else a }

  /** Number of nesting levels: a leaf or an empty container is one level. */
  function Height(v: Value): (h: nat)
    ensures h >= 1
  {
    match v
    case Array(items) => 1 + HeightAll(items)
    case IntMap(es) => 1 + HeightEntries(es)
    case StrMap(es) => 1 + HeightEntries(es)
    case _ => 1
  }

  function HeightAll(items: seq<Value>): nat {
    if items == [] then 0 else Max(Height(items[0]), HeightAll(items[1..]))
  }

  function HeightEntries<K>(es: seq<Entry<K>>): nat {
    if es == [] then 0
    else assert es[0].value < es[0]; Max(Height(es[0].value), HeightEntries(es[1..]))
  }

  /** The entries with key `k`, in order. */
  function OfKey<K(==)>(es: seq<Entry<K>>, k: K): (r: seq<Entry<K>>)
    ensures forall i :: 0 <= i < |r| ==> r[i] in es && r[i].key == k
  {
    if es == [] then []
    else
      assert es == [es[0]] + es[1..];
      (if es[0].key == k then [es[0]] else []) + OfKey(es[1..], k)
  }

  /** Two values that differ at most in how the entries of different keys are interleaved, at
      every depth, and in whether an empty map is an integer map or a string map. Entries that
      share a key keep their order. */
  ghost predicate Same(v: Value, w: Value) {
    match (v, w)
    case (Array(a), Array(b)) => |a| == |b| && forall i :: 0 <= i < |a| ==> Same(a[i], b[i])
    case (IntMap(a), IntMap(b)) => SameEntries(a, b)
    case (StrMap(a), StrMap(b)) => SameEntries(a, b)
    case (IntMap(a), StrMap(b)) => a == [] && b == []
    case (StrMap(a), IntMap(b)) => a == [] && b == []
    case _ => v == w
  }

  ghost predicate SameEntries<K(!new)>(a: seq<Entry<K>>, b: seq<Entry<K>>)
    decreases a, 1
  {
    forall k :: SameUnderKey(a, b, k)
  }

  ghost predicate SameUnderKey<K>(a: seq<Entry<K>>, b: seq<Entry<K>>, k: K)
    decreases a, 0
  {
    |OfKey(a, k)| == |OfKey(b, k)| &&
    forall i :: 0 <= i < |OfKey(a, k)| ==>
      var x, y := OfKey(a, k)[i], OfKey(b, k)[i];
      assert x in a && x.value < x; Same(x.value, y.value)
  }
}
