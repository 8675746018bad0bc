/** What a successful decode depends on: the octets it consumed and nothing else. */
module CborLocality {
  import opened Bytes
  import opened Utf8
  import opened CborValue
  import opened CborEncode
  import opened CborDecode
  import opened Wrappers

  predicate Agree(a: bytes, b: bytes, n: nat) {
    n <= |a| && n <= |b| && a[..n] == b[..n]
  }

  lemma AgreeSlice(a: bytes, b: bytes, n: nat, i: nat, j: nat)
    requires Agree(a, b, n) && i <= j <= n
    ensures a[i..j] == b[i..j] && Agree(a, b, j)
  {
    assert a[i..j] == a[..n][i..j] == b[..n][i..j] == b[i..j];
    assert a[..j] == a[..n][..j] == b[..n][..j] == b[..j];
  }

  lemma {:induction false} ArgumentLocal(a: bytes, b: bytes, pos: nat, ai: byte)
    requires pos <= |a| && ReadArgument(a, pos, ai).Ok? && Agree(a, b, ReadArgument(a, pos, ai).value.next)
    ensures ReadArgument(b, pos, ai) == ReadArgument(a, pos, ai)
  {
    AgreeSlice(a, b, ReadArgument(a, pos, ai).value.next, pos, pos + ArgumentWidth(ai));
  }

  lemma {:induction false} ValueLocal(a: bytes, b: bytes, pos: nat, depth: nat)
    requires pos <= |a| && depth <= MAX_DECODE_DEPTH && ValueAt(a, pos, depth).Ok?
    requires Agree(a, b, ValueAt(a, pos, depth).value.next)
    ensures ValueAt(b, pos, depth) == ValueAt(a, pos, depth)
    decreases MAX_DECODE_DEPTH - depth, 0
  {
    var next := ValueAt(a, pos, depth).value.next;
    var m, ai := a[pos] / 32, a[pos] % 32;
    var arg := ReadArgument(a, pos + 1, ai).value;
    AgreeSlice(a, b, next, pos, pos + 1);
    assert a[pos..pos + 1][0] == b[pos..pos + 1][0];
    AgreeSlice(a, b, next, arg.next, arg.next);
    ArgumentLocal(a, b, pos + 1, ai);
    BodyLocal(a, b, arg.next, depth, m, ai, arg.value);
  }

  lemma {:induction false} BodyLocal(a: bytes, b: bytes, pos: nat, depth: nat, m: major, ai: byte, arg: u64)
    requires pos <= |a| && depth < MAX_DECODE_DEPTH && BodyAt(a, pos, depth, m, ai, arg).Ok?
    requires Agree(a, b, BodyAt(a, pos, depth, m, ai, arg).value.next)
    ensures BodyAt(b, pos, depth, m, ai, arg) == BodyAt(a, pos, depth, m, ai, arg)
    decreases MAX_DECODE_DEPTH - depth - 1, |a| + 1
  {
    if m == MT_BYTE_STRING || m == MT_TEXT_STRING {
      AgreeSlice(a, b, pos + arg, pos, pos + arg);
    } else if m == MT_ARRAY {
      ItemsLocal(a, b, pos, depth + 1, arg, []);
    } else if m == MT_MAP {
      PairsLocal(a, b, pos, depth + 1, arg, []);
    }
  }

  lemma {:induction false} ItemsLocal(a: bytes, b: bytes, pos: nat, depth: nat, count: nat, read: seq<Value>)
    requires pos <= |a| && depth <= MAX_DECODE_DEPTH && ItemsAt(a, pos, depth, count, read).Ok?
    requires Agree(a, b, ItemsAt(a, pos, depth, count, read).value.next)
    ensures ItemsAt(b, pos, depth, count, read) == ItemsAt(a, pos, depth, count, read)
    decreases MAX_DECODE_DEPTH - depth, count
  {
    hide ValueAt;
    if count > 0 {
      var next := ItemsAt(a, pos, depth, count, read).value.next;
      var item := ValueAt(a, pos, depth).value;
      AgreeSlice(a, b, next, item.next, item.next);
      ValueLocal(a, b, pos, depth);
      ItemsLocal(a, b, item.next, depth, count - 1, read + [item.value]);
    }
  }

  lemma {:induction false} PairsLocal(a: bytes, b: bytes, pos: nat, depth: nat, count: nat, read: seq<Pair>)
    requires pos <= |a| && depth <= MAX_DECODE_DEPTH && PairsAt(a, pos, depth, count, read).Ok?
    requires Agree(a, b, PairsAt(a, pos, depth, count, read).value.next)
    ensures PairsAt(b, pos, depth, count, read) == PairsAt(a, pos, depth, count, read)
    decreases MAX_DECODE_DEPTH - depth, count
  {
    hide ValueAt, HasKey;
    if count > 0 {
      var next := PairsAt(a, pos, depth, count, read).value.next;
      var key := ValueAt(a, pos, depth).value;
      var val := ValueAt(a, key.next, depth).value;
      AgreeSlice(a, b, next, key.next, key.next);
      AgreeSlice(a, b, next, val.next, val.next);
      ValueLocal(a, b, pos, depth);
      ValueLocal(a, b, key.next, depth);
      PairsLocal(a, b, val.next, depth, count - 1, read + [Pair(key.value, val.value)]);
    }
  }

  /** Decoding depends on the consumed octets alone, although the array and map guards look
      at the length of the whole buffer. */
  lemma DecodeLocal(data: bytes, suffix: bytes)
    requires Decoded(data).Ok?
    ensures 1 <= Decoded(data).value.next <= |data|
    ensures Decoded(data[..Decoded(data).value.next] + suffix) == Decoded(data)
  {
    var n := Decoded(data).value.next;
    assert (data[..n] + suffix)[..n] == data[..n];
    ValueLocal(data, data[..n] + suffix, 0, 0);
  }

  // -------------------------------------------------------------------- truncation

  ghost predicate RanOut<T>(r: CborResult<T>) { r.Err? && r.error.UnexpectedEof? }

  lemma AgreeTruncated(a: bytes, n: nat, m: nat)
    requires m <= n <= |a|
    ensures Agree(a, a[..n], m)
  {}

  lemma {:induction false} ArgumentTruncated(a: bytes, n: nat, pos: nat, ai: byte)
    requires pos <= n <= |a| && ReadArgument(a, pos, ai).Ok? && n < ReadArgument(a, pos, ai).value.next
    ensures RanOut(ReadArgument(a[..n], pos, ai))
  {}

  lemma {:induction false} ValueTruncated(a: bytes, n: nat, pos: nat, depth: nat)
    requires pos <= n <= |a| && depth <= MAX_DECODE_DEPTH && ValueAt(a, pos, depth).Ok?
    requires n < ValueAt(a, pos, depth).value.next
    ensures RanOut(ValueAt(a[..n], pos, depth))
    decreases MAX_DECODE_DEPTH - depth, 0
  {
    hide ReadArgument;
    if pos < n {
      var ai := a[pos] % 32;
      var arg := ReadArgument(a, pos + 1, ai).value;
      if n < arg.next {
        ArgumentTruncated(a, n, pos + 1, ai);
      } else {
        AgreeTruncated(a, n, arg.next);
        ArgumentLocal(a, a[..n], pos + 1, ai);
        BodyTruncated(a, n, arg.next, depth, a[pos] / 32, ai, arg.value);
      }
    }
  }

  lemma {:induction false} BodyTruncated(a: bytes, n: nat, pos: nat, depth: nat, m: major, ai: byte, arg: u64)
    requires pos <= n <= |a| && depth < MAX_DECODE_DEPTH && BodyAt(a, pos, depth, m, ai, arg).Ok?
    requires n < BodyAt(a, pos, depth, m, ai, arg).value.next
    ensures RanOut(BodyAt(a[..n], pos, depth, m, ai, arg))
    decreases MAX_DECODE_DEPTH - depth - 1, |a| + 1
  {
    hide ValueAt, ItemsAt, PairsAt, ValidUtf8, ToMap;
    if m == MT_ARRAY {
      ItemsTruncated(a, n, pos, depth + 1, arg, []);
    } else if m == MT_MAP {
      PairsTruncated(a, n, pos, depth + 1, arg, []);
    }
  }

  lemma {:induction false} ItemsTruncated(a: bytes, n: nat, pos: nat, depth: nat, count: nat, read: seq<Value>)
    requires pos <= n <= |a| && depth <= MAX_DECODE_DEPTH && ItemsAt(a, pos, depth, count, read).Ok?
    requires n < ItemsAt(a, pos, depth, count, read).value.next
    ensures RanOut(ItemsAt(a[..n], pos, depth, count, read))
    decreases MAX_DECODE_DEPTH - depth, count
  {
    hide ValueAt;
    var item := ValueAt(a, pos, depth).value;
    if n < item.next {
      ValueTruncated(a, n, pos, depth);
    } else {
      AgreeTruncated(a, n, item.next);
      ValueLocal(a, a[..n], pos, depth);
      ItemsTruncated(a, n, item.next, depth, count - 1, read + [item.value]);
    }
  }

  lemma {:induction false} PairsTruncated(a: bytes, n: nat, pos: nat, depth: nat, count: nat, read: seq<Pair>)
    requires pos <= n <= |a| && depth <= MAX_DECODE_DEPTH && PairsAt(a, pos, depth, count, read).Ok?
    requires n < PairsAt(a, pos, depth, count, read).value.next
    ensures RanOut(PairsAt(a[..n], pos, depth, count, read))
    decreases MAX_DECODE_DEPTH - depth, count
  {
    hide ValueAt, HasKey;
    var key := ValueAt(a, pos, depth).value;
    if n < key.next {
      ValueTruncated(a, n, pos, depth);
    } else {
      AgreeTruncated(a, n, key.next);
      ValueLocal(a, a[..n], pos, depth);
      var val := ValueAt(a, key.next, depth).value;
      if n < val.next {
        ValueTruncated(a, n, key.next, depth);
      } else {
        AgreeTruncated(a, n, val.next);
        ValueLocal(a, a[..n], key.next, depth);
        PairsTruncated(a, n, val.next, depth, count - 1, read + [Pair(key.value, val.value)]);
      }
    }
  }

  /** Cut anywhere short of its end, what decodes is reported as ended too soon, and as
      nothing else; in particular no proper prefix decodes. */
  lemma TruncationRunsOut(data: bytes, n: nat)
    requires Decoded(data).Ok? && n < Decoded(data).value.next
    ensures RanOut(Decoded(data[..n]))
  {
    ValueTruncated(data, n, 0, 0);
  }
}
