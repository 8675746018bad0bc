/** The decoder. `ValueAt` says what the octets at an offset mean; method `DecodeValue` is the
    decoder as written, with its loops, its cursor and its call count. */
module CborDecode {
  import opened Bytes
  import opened Utf8
  import opened CborValue
  import opened CborEncode
  import opened Wrappers

  datatype CborError =
    | UnexpectedEof(offset: nat)
    | Invalid(offset: nat)
    | Unsupported(offset: nat)
    | DepthExceeded(offset: nat)

  type CborResult<T> = Result<T, CborError>

  /** Something read, and the offset after it. */
  datatype Parsed<+T> = Parsed(value: T, next: nat)

  /** A map entry before its key has been sorted into integers or text. */
  datatype Pair = Pair(key: Value, value: Value)

  const MAX_DECODE_DEPTH: nat := 100

  // ------------------------------------------------------------------ arguments

  /** The largest argument that a header narrower than `ai` announces could carry. */
  function LargestNarrower(ai: byte): u64 {
    if ai == 24 then 23 else if ai == 25 then 255 else if ai == 26 then 65535 else 0xFFFF_FFFF
  }

  /** `read_argument`: rejects arguments that would have fitted a narrower header. */
  function ReadArgument(data: bytes, pos: nat, ai: byte): (r: CborResult<Parsed<u64>>)
    requires pos <= |data|
    ensures r.Ok? ==> r.value.next == pos + ArgumentWidth(ai) <= |data|
  {
    if ai <= 23 then Ok(Parsed(ai, pos))
    else if ai <= 27 then
      var width := ArgumentWidth(ai);
      if pos + width > |data| then Err(UnexpectedEof(pos))
      else
        var val := FromBigEndian(data[pos..pos + width]);
        FromBigEndianBound(data[pos..pos + width]);
        Pow256Values();
        if val <= LargestNarrower(ai) then Err(Invalid(pos)) else Ok(Parsed(val, pos + width))
    else Err(Unsupported(pos))
  }

  // --------------------------------------------------------------------- values

  /** The value whose encoding starts at `pos`, nested `depth` levels deep. */
  function ValueAt(data: bytes, pos: nat, depth: nat): (r: CborResult<Parsed<Value>>)
    requires pos <= |data| && depth <= MAX_DECODE_DEPTH
    ensures r.Ok? ==> pos < r.value.next <= |data|
    decreases MAX_DECODE_DEPTH - depth, 0
  {
    if pos >= |data| then Err(UnexpectedEof(pos))
    else if depth >= MAX_DECODE_DEPTH then Err(DepthExceeded(pos))
    else
      var arg :- ReadArgument(data, pos + 1, data[pos] % 32);
      BodyAt(data, arg.next, depth, data[pos] / 32, data[pos] % 32, arg.value)
  }

  /** What follows a header of major type `m`, additional information `ai` and argument `arg`. */
  function BodyAt(data: bytes, pos: nat, depth: nat, m: major, ai: byte, arg: u64): (r: CborResult<Parsed<Value>>)
    requires pos <= |data| && depth < MAX_DECODE_DEPTH
    ensures r.Ok? ==> pos <= r.value.next <= |data|
    decreases MAX_DECODE_DEPTH - depth - 1, |data| + 1
  {
    if m == MT_UNSIGNED then Ok(Parsed(Unsigned(arg), pos))
    else if m == MT_NEGATIVE then
      if arg >= TWO_63 then Err(Invalid(pos)) else Ok(Parsed(Negative(-1 - arg), pos))
    else if m == MT_BYTE_STRING then
      if pos + arg >= TWO_64 then Err(Invalid(pos))
      else if pos + arg > |data| then Err(UnexpectedEof(pos))
      else Ok(Parsed(ByteString(data[pos..pos + arg]), pos + arg))
    else if m == MT_TEXT_STRING then
      if pos + arg >= TWO_64 then Err(Invalid(pos))
      else if pos + arg > |data| then Err(UnexpectedEof(pos))
      else if !ValidUtf8(data[pos..pos + arg]) then Err(Invalid(pos + arg))
      else Ok(Parsed(TextString(data[pos..pos + arg]), pos + arg))
    else if m == MT_ARRAY then
      if arg > |data| then Err(UnexpectedEof(pos))
      else
        var items :- ItemsAt(data, pos, depth + 1, arg, []);
        Ok(Parsed(Array(items.value), items.next))
    else if m == MT_MAP then
      if arg > |data| then Err(UnexpectedEof(pos))
      else
        var pairs :- PairsAt(data, pos, depth + 1, arg, []);
        var v :- ToMap(pairs.value, pairs.next);
        Ok(Parsed(v, pairs.next))
    else if m == MT_SIMPLE then
      var v :- SimpleValue(ai, pos);
      Ok(Parsed(v, pos))
    else Err(Unsupported(pos))
  }

  function SimpleValue(ai: byte, pos: nat): CborResult<Value> {
    if ai == SIMPLE_FALSE then Ok(Bool(false))
    else if ai == SIMPLE_TRUE then Ok(Bool(true))
    else if ai == SIMPLE_NULL || ai == SIMPLE_UNDEFINED then Ok(Null)
    else Err(Unsupported(pos))
  }

  /** `count` values in a row, appended to those already `read`. */
  function ItemsAt(data: bytes, pos: nat, depth: nat, count: nat, read: seq<Value>): (r: CborResult<Parsed<seq<Value>>>)
    requires pos <= |data| && depth <= MAX_DECODE_DEPTH
    ensures r.Ok? ==> pos + count <= r.value.next <= |data| && |r.value.value| == |read| + count
    decreases MAX_DECODE_DEPTH - depth, count
  {
    if count == 0 then Ok(Parsed(read, pos))
    else
      var item :- ValueAt(data, pos, depth);
      ItemsAt(data, item.next, depth, count - 1, read + [item.value])
  }

  predicate HasKey(pairs: seq<Pair>, key: Value) {
    exists i :: 0 <= i < |pairs| && pairs[i].key == key
  }

  /** `count` key-value pairs in a row, appended to those already `read`; a key that was
      read before is an error. */
  function PairsAt(data: bytes, pos: nat, depth: nat, count: nat, read: seq<Pair>): (r: CborResult<Parsed<seq<Pair>>>)
    requires pos <= |data| && depth <= MAX_DECODE_DEPTH
    ensures r.Ok? ==> pos + 2 * count <= r.value.next <= |data| && |r.value.value| == |read| + count
    decreases MAX_DECODE_DEPTH - depth, count
  {
    if count == 0 then Ok(Parsed(read, pos))
    else
      var key :- ValueAt(data, pos, depth);
      var val :- ValueAt(data, key.next, depth);
      if HasKey(read, key.value) then Err(Invalid(val.next))
      else PairsAt(data, val.next, depth, count - 1, read + [Pair(key.value, val.value)])
  }

  predicate IntKeyed(pairs: seq<Pair>) {
    forall i :: 0 <= i < |pairs| ==> pairs[i].key.Unsigned? || pairs[i].key.Negative?
  }

  predicate TextKeyed(pairs: seq<Pair>) {
    forall i :: 0 <= i < |pairs| ==> pairs[i].key.TextString?
  }

  /** Unsigned keys are cast with `as i64`. */
  function IntEntries(pairs: seq<Pair>): (es: seq<Entry<i64>>)
    requires IntKeyed(pairs)
    ensures |es| == |pairs|
  {
    seq(|pairs|, i requires 0 <= i < |pairs| =>
      Entry(if pairs[i].key.Unsigned? then AsI64(pairs[i].key.n) else pairs[i].key.i, pairs[i].value))
  }

  function TextEntries(pairs: seq<Pair>): (es: seq<Entry<Text>>)
    requires TextKeyed(pairs)
    ensures |es| == |pairs|
  {
    seq(|pairs|, i requires 0 <= i < |pairs| => Entry(pairs[i].key.text, pairs[i].value))
  }

  function ToMap(pairs: seq<Pair>, pos: nat): CborResult<Value> {
    if IntKeyed(pairs) then Ok(IntMap(IntEntries(pairs)))
    else if TextKeyed(pairs) then Ok(StrMap(TextEntries(pairs)))
    else Err(Unsupported(pos))
  }

  /** `decode`: the first value of a buffer and the octets it took. */
  function Decoded(data: bytes): CborResult<Parsed<Value>> { ValueAt(data, 0, 0) }

  /** `check_canonical`: one value and nothing after it. */
  function CheckCanonical(data: bytes): CborResult<()> {
    var p :- Decoded(data);
    if p.next != |data| then Err(Invalid(p.next)) else Ok(())
  }

  // -------------------------------------------------------------------- decoder

  /** `decode_value`: the cursor stays in the buffer, and the number of `decode_value` calls is
      at most the octets consumed, plus one when decoding fails. */
  method DecodeValue(data: bytes, pos: nat, depth: nat)
    returns (r: CborResult<Value>, next: nat, ghost calls: nat)
    requires pos <= |data| && depth <= MAX_DECODE_DEPTH
    ensures ValueAt(data, pos, depth) == if r.Ok? then Ok(Parsed(r.value, next)) else Err(r.error)
    ensures pos <= next <= |data|
    ensures calls <= next - pos + if r.Ok? then 0 else 1
    decreases MAX_DECODE_DEPTH - depth, 0
  {
    calls := 1;
    if pos >= |data| { return Err(UnexpectedEof(pos)), pos, 1; }
    if depth >= MAX_DECODE_DEPTH { return Err(DepthExceeded(pos)), pos, 1; }
    var m, ai := data[pos] / 32, data[pos] % 32;
    var a := ReadArgument(data, pos + 1, ai);
    if a.Err? { return Err(a.error), pos, 1; }
    var arg, start := a.value.value, a.value.next;
    if (m == MT_ARRAY || m == MT_MAP) && arg > |data| {
      return Err(UnexpectedEof(start)), start, 1;
    }
    if m == MT_ARRAY {
      var items;
      items, next, calls := DecodeItems(data, start, depth + 1, arg);
      r := if items.Ok? then Ok(Array(items.value)) else Err(items.error);
      calls := calls + 1;
    } else if m == MT_MAP {
      var pairs;
      pairs, next, calls := DecodePairs(data, start, depth + 1, arg);
      r := if pairs.Ok? then ToMap(pairs.value, next) else Err(pairs.error);
      calls := calls + 1;
    } else {
      var leaf := BodyAt(data, start, depth, m, ai, arg);
      r := if leaf.Ok? then Ok(leaf.value.value) else Err(leaf.error);
      next := if leaf.Ok? then leaf.value.next else start;
    }
  }

  method DecodeItems(data: bytes, pos: nat, depth: nat, count: nat)
    returns (r: CborResult<seq<Value>>, next: nat, ghost calls: nat)
    requires pos <= |data| && depth <= MAX_DECODE_DEPTH
    ensures ItemsAt(data, pos, depth, count, []) == if r.Ok? then Ok(Parsed(r.value, next)) else Err(r.error)
    ensures pos <= next <= |data|
    ensures calls <= next - pos + if r.Ok? then 0 else 1
    decreases MAX_DECODE_DEPTH - depth, 1
  {
    hide ValueAt;
    var arr := [];
    next, calls := pos, 0;
    for k := 0 to count
      invariant pos <= next <= |data| && calls <= next - pos
      invariant ItemsAt(data, pos, depth, count, []) == ItemsAt(data, next, depth, count - k, arr)
    {
      var item; ghost var n;
      item, next, n := DecodeValue(data, next, depth);
      calls := calls + n;
      if item.Err? { return Err(item.error), next, calls; }
      arr := arr + [item.value];
    }
    r := Ok(arr);
  }

  method DecodePairs(data: bytes, pos: nat, depth: nat, count: nat)
    returns (r: CborResult<seq<Pair>>, next: nat, ghost calls: nat)
    requires pos <= |data| && depth <= MAX_DECODE_DEPTH
    ensures PairsAt(data, pos, depth, count, []) == if r.Ok? then Ok(Parsed(r.value, next)) else Err(r.error)
    ensures pos <= next <= |data|
    ensures calls <= next - pos + if r.Ok? then 0 else 1
    decreases MAX_DECODE_DEPTH - depth, 1
  {
    hide ValueAt, HasKey;
    var entries := [];
    next, calls := pos, 0;
    for k := 0 to count
      invariant pos <= next <= |data| && calls <= next - pos
      invariant PairsAt(data, pos, depth, count, []) == PairsAt(data, next, depth, count - k, entries)
    {
      var key, val; ghost var n;
      key, next, n := DecodeValue(data, next, depth);
      calls := calls + n;
      if key.Err? { return Err(key.error), next, calls; }
      val, next, n := DecodeValue(data, next, depth);
      calls := calls + n;
      if val.Err? { return Err(val.error), next, calls; }
      if HasKey(entries, key.value) { return Err(Invalid(next)), next, calls; }
      entries := entries + [Pair(key.value, val.value)];
    }
    r := Ok(entries);
  }

  /** `decode`: on any n octets at most n + 1 `decode_value` calls are made. */
  method Decode(data: bytes) returns (r: CborResult<Parsed<Value>>, ghost calls: nat)
    ensures r == Decoded(data)
    ensures r.Ok? ==> calls <= r.value.next
    ensures calls <= |data| + 1
  {
    var v, next;
    v, next, calls := DecodeValue(data, 0, 0);
    r := if v.Ok? then Ok(Parsed(v.value, next)) else Err(v.error);
  }
}
