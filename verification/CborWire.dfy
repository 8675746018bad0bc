/** The wire form in numbers: which octets stand for which value, as section 3 of RFC 8949 lays
    them down, with no reference to the constants of encoder and decoder. */
module CborWire {
  import opened Bytes
  import opened Utf8
  import opened CborValue
  import opened EntrySort
  import opened CborEncode
  import opened CborDecode
  import opened CborRoundTrip
  import opened CborCanonical
  import opened Wrappers

  /** A header, octet by octet. */
  function HeaderOctets(m: major, n: u64): bytes {
    if n < 24 then [32 * m + n]
    else if n < 0x100 then [32 * m + 24, n]
    else if n < 0x1_0000 then [32 * m + 25] + Two(n)
    else if n < 0x1_0000_0000 then [32 * m + 26] + Four(n)
    else [32 * m + 27] + Eight(n)
  }

  /** The encoder's headers are those octets. */
  lemma HeaderInNumbers(m: major, n: u64)
    ensures EncodeHeader(m, n) == HeaderOctets(m, n)
  {
    hide BigEndian, Two, Four, Eight;
    BigEndianInNumbers(n);
    if n < 24 { assert BigEndian(n, 0) == []; }
  }

  // ---------------------------------------------------------------------- values

  ghost function EncodedAll(items: seq<Value>): bytes {
    if items == [] then [] else Encode(items[0]) + EncodedAll(items[1..])
  }

  /** Integer-keyed entries: 0 to 2^63 - 1 under major type 0, -1 to -2^63 under 1. */
  ghost function EncodedInts(es: seq<Entry<i64>>): bytes {
    if es == [] then []
    else
      (if es[0].key >= 0 then HeaderOctets(0, es[0].key) else HeaderOctets(1, -1 - es[0].key))
      + Encode(es[0].value) + EncodedInts(es[1..])
  }

  /** Text-keyed entries, keys under major type 3. */
  ghost function EncodedTexts(es: seq<Entry<Text>>): bytes {
    if es == [] then []
    else HeaderOctets(3, AsU64(|es[0].key|)) + es[0].key + Encode(es[0].value) + EncodedTexts(es[1..])
  }

  lemma {:induction false} EmitAllCanon(items: seq<Value>)
    ensures EmitAll(CanonAll(items)) == EncodedAll(items)
  {
    hide Emit, Canon;
    if items != [] { EmitAllCanon(items[1..]); }
  }

  lemma {:induction false} EmitInts(es: seq<Entry<i64>>)
    ensures EmitEntries(CanonEntries(es), IntKeyBytes) == EncodedInts(es)
  {
    hide Emit, Canon, EncodeHeader, HeaderOctets;
    if es != [] {
      EmitInts(es[1..]);
      HeaderInNumbers(if es[0].key >= 0 then 0 else 1, KeyArgument(es[0].key));
    }
  }

  lemma {:induction false} EmitTexts(es: seq<Entry<Text>>)
    ensures EmitEntries(CanonEntries(es), TextKeyBytes) == EncodedTexts(es)
  {
    hide Emit, Canon, EncodeHeader, HeaderOctets, ValidUtf8;
    if es != [] {
      EmitTexts(es[1..]);
      HeaderInNumbers(3, AsU64(|es[0].key|));
    }
  }

  /** The whole wire form: major types 0 to 5, counts and lengths as arguments, sorted entries,
      and one octet each for false, true and null. */
  lemma {:induction false} WireForm(v: Value)
    ensures match v
            case Unsigned(n) => Encode(v) == HeaderOctets(0, n)
            case Negative(i) => Encode(v) == HeaderOctets(1, AsU64(-1 - i))
            case ByteString(s) => Encode(v) == HeaderOctets(2, AsU64(|s|)) + s
            case TextString(s) => Encode(v) == HeaderOctets(3, AsU64(|s|)) + s
            case Array(items) => Encode(v) == HeaderOctets(4, AsU64(|items|)) + EncodedAll(items)
            case IntMap(es) => Encode(v) == HeaderOctets(5, AsU64(|es|)) + EncodedInts(Sort(es, IntKeyLess))
            case StrMap(es) => Encode(v) == HeaderOctets(5, AsU64(|es|)) + EncodedTexts(Sort(es, TextKeyLess))
            case Bool(b) => Encode(v) == [if b then 0xF5 else 0xF4]
            case Null => Encode(v) == [0xF6]
  {
    hide EncodeHeader, HeaderOctets, EmitEntries, CanonEntries, EmitAll, CanonAll, Sort, ValidUtf8;
    match v
    case Unsigned(n) => HeaderInNumbers(0, n);
    case Negative(i) => HeaderInNumbers(1, AsU64(-1 - i));
    case ByteString(s) => HeaderInNumbers(2, AsU64(|s|));
    case TextString(s) => HeaderInNumbers(3, AsU64(|s|));
    case Array(items) =>
      HeaderInNumbers(4, AsU64(|items|));
      EmitAllCanon(items);
    case IntMap(es) =>
      HeaderInNumbers(5, AsU64(|es|));
      EncodeIntMap(es);
      EmitInts(Sort(es, IntKeyLess));
    case StrMap(es) =>
      HeaderInNumbers(5, AsU64(|es|));
      EncodeStrMap(es);
      EmitTexts(Sort(es, TextKeyLess));
    case _ =>
  }

  // ---------------------------------------------------------------------- decoding

  /** The top three bits of the first octet fix the kind of what is decoded; under major type 7
      the octet is the value; there is no major type 6. */
  lemma {:induction false} DecodedKind(data: bytes, pos: nat, depth: nat)
    requires pos <= |data| && depth <= MAX_DECODE_DEPTH && ValueAt(data, pos, depth).Ok?
    ensures var v, m := ValueAt(data, pos, depth).value.value, data[pos] / 32;
            && (v.Unsigned? <==> m == 0) && (v.Negative? <==> m == 1) && (v.ByteString? <==> m == 2)
            && (v.TextString? <==> m == 3) && (v.Array? <==> m == 4) && (v.IntMap? || v.StrMap? <==> m == 5)
            && m != 6
            && (v == Bool(false) <==> data[pos] == 0xF4) && (v == Bool(true) <==> data[pos] == 0xF5)
            && (v == Null <==> data[pos] == 0xF6 || data[pos] == 0xF7)
  {
    hide ItemsAt, PairsAt, ValidUtf8;
  }

  /** Why a header's argument is refused: it runs past the end, it would have fitted a narrower
      header, or its width is none of the four. */
  lemma {:induction false} ArgumentRefused(data: bytes, pos: nat, ai: byte)
    requires pos <= |data| && ai < 32
    ensures var r, width := ReadArgument(data, pos, ai), ArgumentWidth(ai);
            && (r == Err(UnexpectedEof(pos)) <==> 24 <= ai <= 27 && pos + width > |data|)
            && (r == Err(Invalid(pos)) <==>
                24 <= ai <= 27 && pos + width <= |data| &&
                FromBigEndian(data[pos..pos + width]) <
                  if ai == 24 then 24 else if ai == 25 then 0x100 else if ai == 26 then 0x1_0000 else 0x1_0000_0000)
            && (r == Err(Unsupported(pos)) <==> ai >= 28)
  {
    hide FromBigEndian;
  }

  /** The widths are 1, 2, 4 and 8 octets. */
  lemma Widths()
    ensures ArgumentWidth(24) == 1 && ArgumentWidth(25) == 2 && ArgumentWidth(26) == 4 && ArgumentWidth(27) == 8
  {}

  /** Why a value is refused although its header is read: by the top three bits of the first octet. */
  lemma {:induction false} BodyRefused(data: bytes, pos: nat, depth: nat)
    requires pos < |data| && depth < 100 && ReadArgument(data, pos + 1, data[pos] % 32).Ok?
    ensures var m, arg := data[pos] / 32, ReadArgument(data, pos + 1, data[pos] % 32).value;
            var r, p, n := ValueAt(data, pos, depth), arg.next, arg.value;
            && (m == 0 ==> r.Ok?)
            && (m == 1 ==> r == if n < 0x8000_0000_0000_0000 then Ok(Parsed(Negative(-1 - n), p)) else Err(Invalid(p)))
            && ((m == 2 || m == 3) && p + n < TWO_64 && p + n > |data| ==> r == Err(UnexpectedEof(p)))
            && (m == 2 && p + n < TWO_64 && p + n <= |data| ==> r.Ok?)
            && (m == 3 && p + n < TWO_64 && p + n <= |data| ==>
                if ValidUtf8(data[p..p + n]) then r.Ok? else r == Err(Invalid(p + n)))
            && ((m == 2 || m == 3) && p + n >= TWO_64 ==> r == Err(Invalid(p)))
            && ((m == 4 || m == 5) && n > |data| ==> r == Err(UnexpectedEof(p)))
            && (m == 6 ==> r == Err(Unsupported(p)))
            && (m == 7 && !(0xF4 <= data[pos] <= 0xF7) ==> r == Err(Unsupported(p)))
  {
    hide ItemsAt, PairsAt, ValidUtf8, ReadArgument;
  }

  /** Nothing left, or a hundred levels already. */
  lemma OutOfRange(data: bytes, pos: nat, depth: nat)
    requires pos <= |data| && depth <= 100
    ensures pos == |data| ==> ValueAt(data, pos, depth) == Err(UnexpectedEof(pos))
    ensures pos < |data| && depth == 100 ==> ValueAt(data, pos, depth) == Err(DepthExceeded(pos))
  {}

  /** Maps: integer keys are cast from u64 to i64, text keys are kept, a mixture is refused. */
  lemma {:induction false} MapKeys(ps: seq<Pair>, pos: nat)
    ensures IntKeyed(ps) ==>
              && ToMap(ps, pos) == Ok(IntMap(IntEntries(ps)))
              && forall i :: 0 <= i < |ps| ==>
                   && IntEntries(ps)[i].value == ps[i].value
                   && (ps[i].key.Negative? ==> IntEntries(ps)[i].key == ps[i].key.i)
                   && (ps[i].key.Unsigned? ==>
                       IntEntries(ps)[i].key ==
                       if ps[i].key.n < 0x8000_0000_0000_0000 then ps[i].key.n else ps[i].key.n - TWO_64)
    ensures !IntKeyed(ps) && TextKeyed(ps) ==> ToMap(ps, pos) == Ok(StrMap(TextEntries(ps)))
    ensures !IntKeyed(ps) && !TextKeyed(ps) ==> ToMap(ps, pos) == Err(Unsupported(pos))
  {}

  /** A key that was read before is refused after its value has been read. */
  lemma DuplicateRefused(data: bytes, pos: nat, depth: nat, count: nat, read: seq<Pair>)
    requires pos <= |data| && depth <= MAX_DECODE_DEPTH && count > 0 && ValueAt(data, pos, depth).Ok?
    requires ValueAt(data, ValueAt(data, pos, depth).value.next, depth).Ok?
    ensures var key := ValueAt(data, pos, depth).value;
            HasKey(read, key.value) ==>
              PairsAt(data, pos, depth, count, read) == Err(Invalid(ValueAt(data, key.next, depth).value.next))
  {
    hide ValueAt, HasKey;
  }

  /** `check_canonical` accepts every encoding the decoder can read back, and nothing after it. */
  lemma {:induction false} EncodingsAreCanonical(v: Value, suffix: bytes)
    requires WellFormed(v) && Height(v) <= 100 && |Encode(v) + suffix| < TWO_64
    ensures CheckCanonical(Encode(v) + suffix) == if suffix == [] then Ok(()) else Err(Invalid(|Encode(v)|))
  {
    hide WellFormed, Height, Encode, Decoded;
    RoundTrip(v, suffix);
  }
}
