/**
 * The optional fields of a BAM record (section 4.2.4 of SAMv1): each tag is
 * two id bytes, a type character and a value. The writer (`get_tag_dict_str`)
 * emits the dictionary in key order and picks the narrowest integer type;
 * the reader (`read_sam_dict`) parses tags until the buffer ends and stores
 * each into the dictionary, overwriting an earlier entry with the same id.
 */
module BamTags {
  import opened Wrappers
  import opened BamBytes

  /** A tag id: the two id characters as one 16-bit number, first character high. */
  type Tag = x: nat | x < 65536

  datatype Error =
    | FormatError  // thrown by the reader
    | Malformed    // the buffer ends inside a tag, or an array length is negative

  /** Element types of a `B` array. */
  datatype ArrayType = Int8 | UInt8 | Int16 | UInt16 | Int32 | UInt32 | Float32

  /**
   * A tag value. Integers are stored as 32-bit signed numbers whatever width
   * they were read with; floats are kept as their 32-bit pattern.
   */
  datatype TagValue =
    | Char(c: byte)
    | Int(i: int)
    | Float(bits: nat)
    | Str(s: seq<byte>)
    | Bytes(b: seq<byte>)
    | Array(elemType: ArrayType, elems: seq<int>)

  type Dict = map<Tag, TagValue>

  // Type characters.
  const TypeChar: byte := 65      // 'A'
  const TypeInt8: byte := 99      // 'c'
  const TypeUInt8: byte := 67     // 'C'
  const TypeInt16: byte := 115    // 's'
  const TypeUInt16: byte := 83    // 'S'
  const TypeInt32: byte := 105    // 'i'
  const TypeUInt32: byte := 73    // 'I'
  const TypeFloat: byte := 102    // 'f'
  const TypeString: byte := 90    // 'Z'
  const TypeHex: byte := 72       // 'H'
  const TypeArray: byte := 66     // 'B'

  const Int32Min: int := -2147483648
  const Int32Bound: int := 2147483648

  // ---------------------------------------------------------------------------
  // Tag ids
  // ---------------------------------------------------------------------------

  /** The writer's two id bytes: `tag / 256` and `tag % 256`. */
  function TagIdBytes(tag: Tag): (bs: seq<byte>)
    ensures |bs| == 2
  {
    [tag / 256, tag % 256]
  }

  /**
   * `parse_tag`: the first byte shifted up by 8, or-ed with the second byte
   * converted from a signed `char`; a second byte of 128 or more sign-extends
   * and sets the whole high byte.
   */
  function ParseTagId(b0: byte, b1: byte): (tag: Tag)
    ensures tag % 256 == b1
    ensures b1 < 128 ==> tag / 256 == b0
    ensures b1 >= 128 ==> tag / 256 == 255
  {
    if b1 >= 128 then 65280 + b1 else b0 * 256 + b1
  }

  /** Ids whose second character is ASCII round-trip. */
  lemma TagIdRoundTrip(tag: Tag)
    requires tag % 256 < 128
    ensures ParseTagId(TagIdBytes(tag)[0], TagIdBytes(tag)[1]) == tag
  {
  }

  /** A second character of 128 or more reads back with the high byte forced to 255. */
  lemma TagIdSignExtends(tag: Tag)
    requires tag % 256 >= 128
    ensures ParseTagId(TagIdBytes(tag)[0], TagIdBytes(tag)[1]) == 65280 + tag % 256
  {
  }

  // ---------------------------------------------------------------------------
  // Integer width selection
  // ---------------------------------------------------------------------------

  function Pow2(n: nat): (p: nat)
    ensures p >= 1
  {
    if n == 0 then 1 else 2 * Pow2(n - 1)
  }

  /** `std::bit_ceil`: the least power of two that is at least `x`. */
  function BitCeil(x: nat): (p: nat)
    ensures p >= 1
  {
    if x <= 1 then 1 else 2 * BitCeil((x + 1) / 2)
  }

  /** `std::countr_zero` on a 64-bit `size_t`: trailing zero bits, 64 for zero. */
  function CountrZero(x: nat): nat
  {
    if x == 0 then 64 else if x % 2 == 1 then 0 else 1 + CountrZero(x / 2)
  }

  function Abs(v: int): nat
  {
    if v < 0 then -v else v
  }

  /** `countr_zero(bit_ceil(|v| + 1) >> 1) / 8`: 0, 1, 2 or 3 for one to four significant bytes, 8 for zero. */
  function WidthClass(v: int): nat
  {
    CountrZero(BitCeil(Abs(v) + 1) / 2) / 8
  }

  lemma {:induction false} Pow2Mono(a: nat, b: nat)
    requires a < b
    ensures Pow2(a) < Pow2(b)
  {
    if b > a + 1 {
      Pow2Mono(a, b - 1);
    }
  }

  /** The exponent of the least power of two at least `x`. */
  lemma {:induction false} Bracket(x: nat) returns (m: nat)
    requires x >= 2
    ensures m >= 1 && Pow2(m - 1) < x <= Pow2(m)
    ensures BitCeil(x) == Pow2(m)
  {
    if x == 2 {
      m := 1;
    } else {
      var m' := Bracket((x + 1) / 2);
      m := m' + 1;
    }
  }

  lemma {:induction false} CountrZeroPow2(m: nat)
    ensures CountrZero(Pow2(m)) == m
  {
    if m > 0 {
      CountrZeroPow2(m - 1);
    }
  }

  lemma Pow2Values()
    ensures Pow2(8) == 256 && Pow2(16) == 65536 && Pow2(24) == 16777216 && Pow2(31) == 2147483648
  {
    assert Pow2(4) == 16;
    assert Pow2(8) == 256;
    assert Pow2(12) == 4096;
    assert Pow2(16) == 65536;
    assert Pow2(20) == 1048576;
    assert Pow2(24) == 16777216;
    assert Pow2(28) == 268435456;
  }

  /** When `2^e <= a < 2^(e+1)`, `a` lies below `2^k` exactly when `e` is below `k`. */
  lemma ExponentBelow(e: nat, a: nat, k: nat)
    requires Pow2(e) <= a < Pow2(e + 1)
    ensures a < Pow2(k) <==> e < k
  {
    if e > k {
      Pow2Mono(k, e);
    } else if e + 1 < k {
      Pow2Mono(e + 1, k);
    }
  }

  /** The width class in plain ranges of `|v|`. */
  lemma WidthClassRanges(v: int)
    requires Int32Min < v < Int32Bound
    ensures v == 0 ==> WidthClass(v) == 8
    ensures 0 < Abs(v) < 256 ==> WidthClass(v) == 0
    ensures 256 <= Abs(v) < 65536 ==> WidthClass(v) == 1
    ensures 65536 <= Abs(v) < 16777216 ==> WidthClass(v) == 2
    ensures 16777216 <= Abs(v) ==> WidthClass(v) == 3
  {
    var a := Abs(v);
    if a > 0 {
      var m := Bracket(a + 1);
      var e := m - 1;
      CountrZeroPow2(e);
      assert BitCeil(a + 1) / 2 == Pow2(e);
      assert WidthClass(v) == e / 8;
      Pow2Values();
      ExponentBelow(e, a, 8);
      ExponentBelow(e, a, 16);
      ExponentBelow(e, a, 24);
      ExponentBelow(e, a, 31);
    }
  }

  /**
   * The integer case of `get_tag_dict_str` as written: the switch on
   * `n * n + 2 * negative` picks `C`, `S`, `c`, `s` or `i` and the number of
   * value bytes. Negative values are classed by `|v|` like positive ones.
   */
  function IntTagAsWritten(v: int): (r: (byte, nat))
    requires Int32Min < v < Int32Bound
    ensures IntWidth(r.0) == r.1
    ensures r.1 == 1 <==> 0 < Abs(v) < 256
    ensures r.1 == 2 <==> 256 <= Abs(v) < 65536
    ensures r.1 == 4 <==> v == 0 || 65536 <= Abs(v)
    ensures r.0 in {TypeUInt8, TypeUInt16} ==> v > 0
    ensures r.0 in {TypeInt8, TypeInt16} ==> v < 0
  {
    WidthClassRanges(v);
    var n := WidthClass(v);
    var sel := n * n + 2 * (if v < 0 then 1 else 0);
    if sel == 0 then (TypeUInt8, 1)
    else if sel == 1 then (TypeUInt16, 2)
    else if sel == 2 then (TypeInt8, 1)
    else if sel == 3 then (TypeInt16, 2)
    else (TypeInt32, 4)
  }

  /**
   * The evidently intended selection: the same for positive values and zero,
   * but a negative value gets `c` only down to -128 and `s` only down to -32768.
   */
  function IntTag(v: int): (r: (byte, nat))
    requires Int32Min < v < Int32Bound
    ensures r.1 in {1, 2, 4} && IntWidth(r.0) == r.1
  {
    if 0 < v < 256 then (TypeUInt8, 1)
    else if 256 <= v < 65536 then (TypeUInt16, 2)
    else if -128 <= v < 0 then (TypeInt8, 1)
    else if -32768 <= v < -128 then (TypeInt16, 2)
    else (TypeInt32, 4)
  }

  /** The two selections differ exactly on `-255 .. -129` and `-65535 .. -32769`. */
  lemma IntTagAgreesOutsideTruncation(v: int)
    requires Int32Min < v < Int32Bound
    ensures IntTagAsWritten(v) == IntTag(v) <==> !(-255 <= v <= -129 || -65535 <= v <= -32769)
  {
    WidthClassRanges(v);
    if v == 0 || 0 < v < 65536 || -128 <= v < 0 || -32768 <= v <= -256 {
      assert IntTagAsWritten(v) == IntTag(v);
    } else if -255 <= v <= -129 || -65535 <= v <= -32769 {
      assert IntTagAsWritten(v).0 != IntTag(v).0;
    } else {
      assert IntTagAsWritten(v) == IntTag(v) == (TypeInt32, 4);
    }
  }

  /** The values whose width the code as written picks too narrow. */
  predicate Truncated(v: int)
  {
    -255 <= v <= -129 || -65535 <= v <= -32769
  }

  /** The integer type character and width the given variant of the writer picks. */
  function IntTagIn(variant: Variant, v: int): (r: (byte, nat))
    requires Int32Min < v < Int32Bound
    ensures variant.Intended? || !Truncated(v) ==> r == IntTag(v)
    ensures IntWidth(r.0) == r.1
  {
    IntTagAgreesOutsideTruncation(v);
    if variant.AsWritten? then IntTagAsWritten(v) else IntTag(v)
  }

  /** Reading an integer payload of the given type: signed types in two's complement; `I` is cast to 32-bit signed. */
  function ReadInt(typeId: byte, payload: seq<byte>): (v: int)
    requires typeId in {TypeInt8, TypeUInt8, TypeInt16, TypeUInt16, TypeInt32, TypeUInt32}
    requires |payload| == IntWidth(typeId)
    ensures v % Pow256(|payload|) == DecodeLE(payload)
    ensures typeId in {TypeUInt8, TypeUInt16} ==> 0 <= v < Pow256(|payload|)
    ensures typeId !in {TypeUInt8, TypeUInt16} ==> Int32Min <= v < Int32Bound
  {
    var u := DecodeLE(payload);
    if typeId == TypeUInt8 || typeId == TypeUInt16 then u
    else ToSigned(u, |payload|)
  }

  function IntWidth(typeId: byte): nat
  {
    if typeId == TypeInt8 || typeId == TypeUInt8 then 1
    else if typeId == TypeInt16 || typeId == TypeUInt16 then 2
    else 4
  }

  /** As written, -200 is stored as `c` with the truncated byte 56, and reads back as 56. */
  lemma IntTagAsWrittenTruncates()
    ensures IntTagAsWritten(-200) == (TypeInt8, 1)
    ensures ReadInt(TypeInt8, EncodeSigned(-200, 1)) == 56
  {
    WidthClassRanges(-200);
    assert EncodeSigned(-200, 1) == [56];
  }

  /** With the intended selection every 32-bit value above `INT32_MIN` reads back unchanged. */
  lemma IntTagRoundTrip(v: int)
    requires Int32Min < v < Int32Bound
    ensures IntWidth(IntTag(v).0) == IntTag(v).1
    ensures ReadInt(IntTag(v).0, EncodeSigned(v, IntTag(v).1)) == v
  {
    var (t, w) := IntTag(v);
    assert Pow256(1) == 256 && Pow256(2) == 65536 && Pow256(4) == 4294967296;
    if t == TypeUInt8 || t == TypeUInt16 {
      assert v % Pow256(w) == v;
      DecodeEncode(v, w);
    } else {
      SignedRoundTrip(v, w);
    }
  }

  // ---------------------------------------------------------------------------
  // Writing
  // ---------------------------------------------------------------------------

  function ElemWidth(t: ArrayType): nat
  {
    match t
    case Int8 => 1
    case UInt8 => 1
    case Int16 => 2
    case UInt16 => 2
    case _ => 4
  }

  function SubtypeChar(t: ArrayType): byte
  {
    match t
    case Int8 => TypeInt8
    case UInt8 => TypeUInt8
    case Int16 => TypeInt16
    case UInt16 => TypeUInt16
    case Int32 => TypeInt32
    case UInt32 => TypeUInt32
    case Float32 => TypeFloat
  }

  function SubtypeFromChar(c: byte): (r: Option<ArrayType>)
    ensures r.Some? ==> SubtypeChar(r.value) == c
  {
    if c == TypeInt8 then Some(Int8)
    else if c == TypeUInt8 then Some(UInt8)
    else if c == TypeInt16 then Some(Int16)
    else if c == TypeUInt16 then Some(UInt16)
    else if c == TypeInt32 then Some(Int32)
    else if c == TypeUInt32 then Some(UInt32)
    else if c == TypeFloat then Some(Float32)
    else None
  }

  /** The values an array element of the given type can hold; floats as their 32-bit pattern. */
  predicate InElemRange(t: ArrayType, e: int)
  {
    match t
    case Int8 => -128 <= e < 128
    case UInt8 => 0 <= e < 256
    case Int16 => -32768 <= e < 32768
    case UInt16 => 0 <= e < 65536
    case Int32 => Int32Min <= e < Int32Bound
    case UInt32 => 0 <= e < 4294967296
    case Float32 => 0 <= e < 4294967296
  }

  /** One array element as the writer stores it: its two's complement (or raw) bytes. */
  function EncodeElem(t: ArrayType, e: int): (bs: seq<byte>)
    ensures |bs| == ElemWidth(t)
  {
    EncodeSigned(e, ElemWidth(t))
  }

  /** The raw element bytes of an array. */
  function EncodeElems(t: ArrayType, elems: seq<int>): (bs: seq<byte>)
  {
    if |elems| == 0 then [] else EncodeElem(t, elems[0]) + EncodeElems(t, elems[1..])
  }

  /**
   * What the writer can represent: 32-bit values (an integer other than
   * `INT32_MIN`, whose absolute value is undefined), array elements of their
   * declared type and arrays whose length fits in 32 bits. Byte arrays are
   * not written by this model.
   */
  predicate Writable(v: TagValue)
  {
    match v
    case Char(_) => true
    case Int(i) => Int32Min < i < Int32Bound
    case Float(bits) => bits < 4294967296
    case Str(_) => true
    case Bytes(_) => false
    case Array(t, elems) => |elems| < Int32Bound && forall k :: 0 <= k < |elems| ==> InElemRange(t, elems[k])
  }

  /** The type character the writer emits for a value. */
  function TypeCharOf(variant: Variant, v: TagValue): (c: byte)
    requires Writable(v)
    ensures v.Int? <==> c in {TypeInt8, TypeUInt8, TypeInt16, TypeUInt16, TypeInt32}
    ensures v.Char? <==> c == TypeChar
    ensures v.Float? <==> c == TypeFloat
    ensures v.Str? <==> c == TypeString
    ensures v.Array? <==> c == TypeArray
  {
    match v
    case Char(_) => TypeChar
    case Int(i) => IntTagIn(variant, i).0
    case Float(_) => TypeFloat
    case Str(_) => TypeString
    case Array(_, _) => TypeArray
  }

  /** The bytes after the type character: the value, a NUL-terminated string, or subtype, length and elements. */
  function EncodePayload(variant: Variant, v: TagValue): (bs: seq<byte>)
    requires Writable(v)
    ensures v.Char? ==> |bs| == 1
    ensures v.Int? ==> |bs| == IntWidth(TypeCharOf(variant, v))
    ensures v.Float? ==> |bs| == 4
    ensures v.Str? ==> |bs| == |v.s| + 1 && bs[..|v.s|] == v.s && bs[|v.s|] == 0
    ensures v.Array? ==> |bs| == 5 + |v.elems| * ElemWidth(v.elemType) && bs[0] == SubtypeChar(v.elemType)
  {
    match v
    case Char(c) => [c]
    case Int(i) => EncodeSigned(i, IntTagIn(variant, i).1)
    case Float(bits) => EncodeLE(bits, 4)
    case Str(s) => s + [0]
    case Array(t, elems) =>
      EncodeElemsLength(t, elems);
      [SubtypeChar(t)] + EncodeSigned(|elems|, 4) + EncodeElems(t, elems)
  }

  /** One tag as the writer emits it: id, type character, then the value. */
  function EncodeEntry(variant: Variant, tag: Tag, v: TagValue): (bs: seq<byte>)
    requires Writable(v)
    ensures |bs| >= 3
  {
    TagIdBytes(tag) + [TypeCharOf(variant, v)] + EncodePayload(variant, v)
  }

  /** The tags of a dictionary from `k` upwards in ascending order: the iteration order of the source's ordered map. */
  function TagsFrom(d: Dict, k: nat): seq<Tag>
    requires k <= 65536
    decreases 65536 - k
  {
    if k == 65536 then []
    else (if k in d then [k as Tag] else []) + TagsFrom(d, k + 1)
  }

  /** `TagsFrom` lists exactly the dictionary's tags from `k` upwards. */
  lemma {:induction false} TagsFromMembers(d: Dict, k: nat)
    requires k <= 65536
    ensures forall t: Tag :: t in TagsFrom(d, k) <==> t in d && t >= k
    decreases 65536 - k
  {
    if k < 65536 {
      TagsFromMembers(d, k + 1);
    }
  }

  /** `TagsFrom` lists its tags in strictly ascending order, so each once. */
  lemma {:induction false} TagsFromSorted(d: Dict, k: nat)
    requires k <= 65536
    ensures forall i, j :: 0 <= i < j < |TagsFrom(d, k)| ==> TagsFrom(d, k)[i] < TagsFrom(d, k)[j]
    decreases 65536 - k
  {
    if k < 65536 && k in d {
      TagsFromSorted(d, k + 1);
      TagsFromMembers(d, k + 1);
      var rest := TagsFrom(d, k + 1);
      var all := TagsFrom(d, k);
      assert all == [k as Tag] + rest;
      forall i, j | 0 <= i < j < |all|
        ensures all[i] < all[j]
      {
        assert all[j] == rest[j - 1] && rest[j - 1] in rest;
        if i > 0 {
          assert all[i] == rest[i - 1];
        }
      }
    } else if k < 65536 {
      TagsFromSorted(d, k + 1);
    }
  }

  function SortedTags(d: Dict): seq<Tag>
  {
    TagsFrom(d, 0)
  }

  /** Every tag the writer visits is a key of the dictionary. */
  lemma SortedTagsInDict(d: Dict)
    ensures forall i :: 0 <= i < |SortedTags(d)| ==> SortedTags(d)[i] in d
  {
    TagsFromMembers(d, 0);
  }

  /** The writer visits every tag of the dictionary exactly once, in ascending order. */
  lemma SortedTagsSpec(d: Dict)
    ensures forall t: Tag :: t in SortedTags(d) <==> t in d
    ensures forall i, j :: 0 <= i < j < |SortedTags(d)| ==> SortedTags(d)[i] < SortedTags(d)[j]
  {
    TagsFromMembers(d, 0);
    TagsFromSorted(d, 0);
  }

  /** The writer visits no tag exactly when the dictionary is empty. */
  lemma SortedTagsEmpty(d: Dict)
    ensures SortedTags(d) == [] <==> d == map[]
  {
    SortedTagsSpec(d);
    SortedTagsInDict(d);
    assert |SortedTags(d)| > 0 ==> SortedTags(d)[0] in d;
    if d != map[] {
      var t :| t in d;
      assert t in SortedTags(d);
    }
  }

  predicate WritableDict(d: Dict)
  {
    forall t :: t in d ==> Writable(d[t])
  }

  function EncodeEntries(variant: Variant, d: Dict, tags: seq<Tag>): (bs: seq<byte>)
    requires WritableDict(d) && forall i :: 0 <= i < |tags| ==> tags[i] in d
    ensures bs == [] <==> tags == []
  {
    if |tags| == 0 then [] else EncodeEntry(variant, tags[0], d[tags[0]]) + EncodeEntries(variant, d, tags[1..])
  }

  /** The bytes `get_tag_dict_str` produces. */
  function EncodeDict(variant: Variant, d: Dict): (bs: seq<byte>)
    requires WritableDict(d)
    ensures bs == [] <==> d == map[]
  {
    SortedTagsInDict(d);
    SortedTagsEmpty(d);
    EncodeEntries(variant, d, SortedTags(d))
  }

  lemma AppendAssoc(a: seq<byte>, b: seq<byte>, c: seq<byte>)
    ensures a + (b + c) == (a + b) + c
  {
  }

  lemma EncodeEntriesStep(variant: Variant, d: Dict, tags: seq<Tag>, i: nat)
    requires WritableDict(d) && forall k :: 0 <= k < |tags| ==> tags[k] in d
    requires i < |tags|
    ensures EncodeEntries(variant, d, tags[i..]) == EncodeEntry(variant, tags[i], d[tags[i]]) + EncodeEntries(variant, d, tags[i + 1..])
  {
    assert tags[i..][1..] == tags[i + 1..];
  }

  /** One round of the writer: appending entry `i` moves the boundary between written and pending entries. */
  lemma WriterStep(variant: Variant, d: Dict, tags: seq<Tag>, i: nat, result: seq<byte>)
    requires WritableDict(d) && forall k :: 0 <= k < |tags| ==> tags[k] in d
    requires i < |tags|
    requires result + EncodeEntries(variant, d, tags[i..]) == EncodeEntries(variant, d, tags)
    ensures (result + EncodeEntry(variant, tags[i], d[tags[i]])) + EncodeEntries(variant, d, tags[i + 1..]) == EncodeEntries(variant, d, tags)
  {
    EncodeEntriesStep(variant, d, tags, i);
    AppendAssoc(result, EncodeEntry(variant, tags[i], d[tags[i]]), EncodeEntries(variant, d, tags[i + 1..]));
  }

  /** `get_tag_dict_str`: appends the entries in ascending tag order. */
  method GetTagDictStr(variant: Variant, d: Dict) returns (result: seq<byte>)
    requires WritableDict(d)
    ensures result == EncodeDict(variant, d)
  {
    var tags := SortedTags(d);
    SortedTagsInDict(d);
    result := [];
    var i := 0;
    while i < |tags|
      invariant i <= |tags|
      invariant result + EncodeEntries(variant, d, tags[i..]) == EncodeEntries(variant, d, tags)
    {
      WriterStep(variant, d, tags, i, result);
      result := result + EncodeEntry(variant, tags[i], d[tags[i]]);
      i := i + 1;
    }
    assert tags[i..] == [];
  }

  // ---------------------------------------------------------------------------
  // Reading
  // ---------------------------------------------------------------------------

  /** The position of the first zero byte, if any: where a `Z` or `H` value ends. */
  function FindNul(bs: seq<byte>): (r: Option<nat>)
    ensures r.Some? ==> r.value < |bs|
  {
    if |bs| == 0 then None
    else if bs[0] == 0 then Some(0)
    else match FindNul(bs[1..])
      case None => None
      case Some(n) => Some(n + 1)
  }

  /** `FindNul` finds the first zero byte, and finds none only when there is none. */
  lemma {:induction false} FindNulSpec(bs: seq<byte>)
    ensures FindNul(bs).Some? ==> bs[FindNul(bs).value] == 0 && forall k :: 0 <= k < FindNul(bs).value ==> bs[k] != 0
    ensures FindNul(bs).None? ==> forall k :: 0 <= k < |bs| ==> bs[k] != 0
  {
    if |bs| > 0 && bs[0] != 0 {
      FindNulSpec(bs[1..]);
      forall k | 0 < k < |bs|
        ensures bs[k] == bs[1..][k - 1]
      {
      }
    }
  }

  /** The value of a hexadecimal digit character. */
  function HexDigit(c: byte): Option<nat>
  {
    if 48 <= c <= 57 then Some(c - 48)
    else if 65 <= c <= 70 then Some(c - 55)
    else if 97 <= c <= 102 then Some(c - 87)
    else None
  }

  /**
   * `std::from_chars` on two characters in base 16: a first character that is
   * no digit is an error; otherwise the digits are read as far as they go, so
   * a non-digit second character leaves the value of the first alone.
   */
  function HexPair(c0: byte, c1: byte): (r: Result<byte, Error>)
    ensures r.Failure? <==> HexDigit(c0).None?
  {
    match HexDigit(c0)
    case None => Failure(FormatError)
    case Some(hi) =>
      match HexDigit(c1)
      case Some(lo) => Success(hi * 16 + lo)
      case None => Success(hi)
  }

  /** One pair of hex characters as the given variant of the reader decodes it. */
  function HexPairIn(variant: Variant, c0: byte, c1: byte): (r: Result<byte, Error>)
    ensures HexDigit(c1).Some? ==> r == HexPair(c0, c1)
  {
    HexPairStrictAgrees(c0, c1);
    if variant.AsWritten? then HexPair(c0, c1) else HexPairStrict(c0, c1)
  }

  /**
   * The `H` value: pairs of hex digits, one byte per pair. An odd number of
   * digits is an error, and so is a pair the variant's pair decoding rejects.
   */
  function DecodeHex(variant: Variant, str: seq<byte>): (r: Result<seq<byte>, Error>)
    ensures r.Success? ==> 2 * |r.value| == |str|
    ensures |str| % 2 == 1 ==> r.Failure?
  {
    if |str| % 2 != 0 then Failure(FormatError)
    else if |str| == 0 then Success([])
    else match HexPairIn(variant, str[0], str[1])
      case Failure(e) => Failure(e)
      case Success(b) =>
        match DecodeHex(variant, str[2..])
        case Failure(e) => Failure(e)
        case Success(rest) => Success([b] + rest)
  }

  /**
   * The reader's hex loop: after the even-length check, one pair of digits
   * per round is decoded and appended, and the first pair rejected ends it.
   */
  method ReadHexString(variant: Variant, str: seq<byte>) returns (r: Result<seq<byte>, Error>)
    ensures r == DecodeHex(variant, str)
  {
    if |str| % 2 != 0 {
      return Failure(FormatError);
    }
    var bytes: seq<byte> := [];
    var i := 0;
    assert str[i..] == str;
    assert DecodeHex(variant, str).Success? ==> bytes + DecodeHex(variant, str).value == DecodeHex(variant, str).value;
    while i < |str|
      invariant i <= |str| && i % 2 == 0
      invariant DecodeHex(variant, str[i..]).Failure? ==> DecodeHex(variant, str) == DecodeHex(variant, str[i..])
      invariant DecodeHex(variant, str[i..]).Success? ==> DecodeHex(variant, str) == Success(bytes + DecodeHex(variant, str[i..]).value)
      decreases |str| - i
    {
      var tail := str[i..];
      assert tail[2..] == str[i + 2..];
      match HexPairIn(variant, str[i], str[i + 1])
      case Failure(e) =>
        assert DecodeHex(variant, tail) == Failure(e);
        return Failure(e);
      case Success(b) =>
        var after := DecodeHex(variant, str[i + 2..]);
        assert after.Failure? ==> DecodeHex(variant, tail) == after;
        assert after.Success? ==> DecodeHex(variant, tail) == Success([b] + after.value);
        assert after.Success? ==> bytes + ([b] + after.value) == (bytes + [b]) + after.value;
        bytes := bytes + [b];
        i := i + 2;
    }
    assert str[i..] == [];
    assert DecodeHex(variant, str[i..]) == Success([]);
    assert bytes + [] == bytes;
    r := Success(bytes);
  }

  /** Upper-case hex digits of a byte. */
  function HexChar(d: nat): byte
    requires d < 16
  {
    if d < 10 then 48 + d else 55 + d
  }

  /** Hex text decodes to the bytes it spells. */
  lemma {:induction false} DecodeHexRoundTrip(variant: Variant, bs: seq<byte>)
    ensures DecodeHex(variant, HexText(bs)) == Success(bs)
  {
    if |bs| > 0 {
      var t := HexText(bs);
      assert t[2..] == HexText(bs[1..]);
      DecodeHexRoundTrip(variant, bs[1..]);
      assert [bs[0]] + bs[1..] == bs;
    }
  }

  function HexText(bs: seq<byte>): (t: seq<byte>)
    ensures |t| == 2 * |bs|
  {
    if |bs| == 0 then [] else [HexChar(bs[0] / 16), HexChar(bs[0] % 16)] + HexText(bs[1..])
  }

  /**
   * As written, a second character that is no digit is accepted: the value
   * `"1G"` decodes to the byte 1. The strict decoding rejects it.
   */
  lemma HexPairAcceptsBadSecondDigit()
    ensures HexPair(49, 71) == Success(1)
    ensures DecodeHex(AsWritten, [49, 71]) == Success([1])
    ensures DecodeHex(Intended, [49, 71]) == Failure(FormatError)
  {
    assert HexDigit(49) == Some(1) && HexDigit(71) == None;
    var str: seq<byte> := [49, 71];
    assert HexPairIn(AsWritten, str[0], str[1]) == Success(1);
    assert str[2..] == [] && DecodeHex(AsWritten, str[2..]) == Success([]);
    assert [1 as byte] + [] == [1];
  }

  /** The intended pair decoding: both characters must be hex digits. */
  function HexPairStrict(c0: byte, c1: byte): (r: Result<byte, Error>)
    ensures r.Success? <==> HexDigit(c0).Some? && HexDigit(c1).Some?
    ensures r.Success? ==> HexChar(r.value / 16) == c0 || HexChar(r.value / 16) + 32 == c0
  {
    match (HexDigit(c0), HexDigit(c1))
    case (Some(hi), Some(lo)) => Success(hi * 16 + lo)
    case _ => Failure(FormatError)
  }

  /** The strict decoding agrees with the source's on every pair of genuine hex digits. */
  lemma HexPairStrictAgrees(c0: byte, c1: byte)
    ensures HexDigit(c1).Some? ==> HexPairStrict(c0, c1) == HexPair(c0, c1)
    ensures HexDigit(c0).Some? && HexDigit(c1).None? ==> HexPairStrict(c0, c1).Failure? && HexPair(c0, c1).Success?
  {
  }

  /** One array element read back: unsigned types and floats keep the raw value, signed types are two's complement. */
  function ReadElem(t: ArrayType, bs: seq<byte>): (e: int)
    requires |bs| == ElemWidth(t)
    ensures InElemRange(t, e)
    ensures e % Pow256(|bs|) == DecodeLE(bs)
  {
    var u := DecodeLE(bs);
    if t in {UInt8, UInt16, UInt32, Float32} then u else ToSigned(u, |bs|)
  }

  /** Decoding `count` array elements of the given type. */
  function DecodeElems(t: ArrayType, bs: seq<byte>, count: nat): (elems: seq<int>)
    requires |bs| >= count * ElemWidth(t)
    ensures |elems| == count
  {
    if count == 0 then []
    else
      var w := ElemWidth(t);
      assert count * w == (count - 1) * w + w;
      [ReadElem(t, bs[..w])] + DecodeElems(t, bs[w..], count - 1)
  }

  /** The reader's element loop: `count` elements, each read at the current position, which then moves on by one width. */
  method ReadArrayElems(t: ArrayType, bs: seq<byte>, count: nat) returns (elems: seq<int>)
    requires |bs| >= count * ElemWidth(t)
    ensures elems == DecodeElems(t, bs, count)
  {
    var w := ElemWidth(t);
    elems := [];
    var rest := bs;
    var left := count;
    while left > 0
      invariant |rest| >= left * w
      invariant elems + DecodeElems(t, rest, left) == DecodeElems(t, bs, count)
      decreases left
    {
      assert left * w == (left - 1) * w + w;
      var e := ReadElem(t, rest[..w]);
      assert elems + DecodeElems(t, rest, left) == (elems + [e]) + DecodeElems(t, rest[w..], left - 1);
      elems := elems + [e];
      rest := rest[w..];
      left := left - 1;
    }
    assert elems + [] == elems;
  }

  /** `read_sam_dict_vector` after the subtype character: a 32-bit count, then that many elements. */
  function ParseArray(t: ArrayType, rest: seq<byte>): (r: Result<(TagValue, nat), Error>)
    ensures r.Success? ==> 4 <= r.value.1 <= |rest|
  {
    if |rest| < 4 then Failure(Malformed)
    else
      var count := ToSigned(DecodeLE(rest[..4]), 4);
      var w := ElemWidth(t);
      if count < 0 || |rest| < 4 + count * w then Failure(Malformed)
      else Success((Array(t, DecodeElems(t, rest[4..], count)), 4 + count * w))
  }

  /**
   * The value of one tag, read from the bytes after its type character,
   * with the number of bytes it took. Unknown type characters and unknown
   * array subtypes are format errors, as is an odd-length hex string.
   */
  function ParseValue(variant: Variant, typeId: byte, rest: seq<byte>): (r: Result<(TagValue, nat), Error>)
    ensures r.Success? ==> r.value.1 <= |rest|
  {
    if typeId == TypeChar then
      if |rest| < 1 then Failure(Malformed) else Success((Char(rest[0]), 1))
    else if typeId in {TypeInt8, TypeUInt8, TypeInt16, TypeUInt16, TypeInt32, TypeUInt32} then
      var w := IntWidth(typeId);
      if |rest| < w then Failure(Malformed) else Success((Int(ReadInt(typeId, rest[..w])), w))
    else if typeId == TypeFloat then
      if |rest| < 4 then Failure(Malformed) else Success((Float(DecodeLE(rest[..4])), 4))
    else if typeId == TypeString then
      match FindNul(rest)
      case None => Failure(Malformed)
      case Some(n) => Success((Str(rest[..n]), n + 1))
    else if typeId == TypeHex then
      match FindNul(rest)
      case None => Failure(Malformed)
      case Some(n) =>
        match DecodeHex(variant, rest[..n])
        case Failure(e) => Failure(e)
        case Success(b) => Success((Bytes(b), n + 1))
    else if typeId == TypeArray then
      if |rest| < 1 then Failure(Malformed)
      else match SubtypeFromChar(rest[0])
        case None => Failure(FormatError)
        case Some(t) =>
          match ParseArray(t, rest[1..])
          case Failure(e) => Failure(e)
          case Success((v, n)) => Success((v, 1 + n))
    else Failure(FormatError)
  }

  /** One tag read from the front of `bs`: its id, its value and the number of bytes it took. */
  function ParseEntry(variant: Variant, bs: seq<byte>): (r: Result<(Tag, TagValue, nat), Error>)
    ensures r.Success? ==> 3 <= r.value.2 <= |bs|
  {
    if |bs| < 3 then Failure(Malformed)
    else match ParseValue(variant, bs[2], bs[3..])
      case Failure(e) => Failure(e)
      case Success((v, n)) => Success((ParseTagId(bs[0], bs[1]), v, 3 + n))
  }

  /** `read_sam_dict` as a function: tags are parsed until the buffer is used up. */
  function ParseDict(variant: Variant, bs: seq<byte>, target: Dict): (r: Result<Dict, Error>)
    ensures bs == [] ==> r == Success(target)
    ensures r.Success? ==> forall t :: t in target ==> t in r.value
    decreases |bs|
  {
    if |bs| == 0 then Success(target)
    else match ParseEntry(variant, bs)
      case Failure(e) => Failure(e)
      case Success((tag, v, n)) => ParseDict(variant, bs[n..], target[tag := v])
  }

  /** A tag that does not parse ends the reader with its error. */
  lemma ParseDictStop(variant: Variant, bs: seq<byte>, target: Dict)
    requires |bs| > 0 && ParseEntry(variant, bs).Failure?
    ensures ParseDict(variant, bs, target) == Failure(ParseEntry(variant, bs).error)
  {
  }

  /** A parsed tag is stored and parsing resumes after it. */
  lemma ParseDictStep(variant: Variant, bs: seq<byte>, target: Dict)
    requires |bs| > 0 && ParseEntry(variant, bs).Success?
    ensures var (tag, v, n) := ParseEntry(variant, bs).value;
            ParseDict(variant, bs, target) == ParseDict(variant, bs[n..], target[tag := v])
  {
  }

  /**
   * `read_sam_dict`: a loop that parses one tag per round from the bytes not
   * yet read and stores it into the target dictionary.
   */
  method ReadSamDict(variant: Variant, tagStr: seq<byte>, target: Dict) returns (r: Result<Dict, Error>)
    ensures r == ParseDict(variant, tagStr, target)
  {
    var rest := tagStr;
    var dict: Dict := target;
    while |rest| > 0
      invariant ParseDict(variant, rest, dict) == ParseDict(variant, tagStr, target)
      decreases |rest|
    {
      var entry := ParseEntry(variant, rest);
      if entry.Failure? {
        ParseDictStop(variant, rest, dict);
        return Failure(entry.error);
      }
      ParseDictStep(variant, rest, dict);
      dict := dict[entry.value.0 := entry.value.1];
      rest := rest[entry.value.2..];
    }
    return Success(dict);
  }

  // ---------------------------------------------------------------------------
  // Round trip
  // ---------------------------------------------------------------------------

  /** An element within its type's range reads back unchanged. */
  lemma ElemRoundTrip(t: ArrayType, e: int)
    requires InElemRange(t, e)
    ensures ReadElem(t, EncodeElem(t, e)) == e
  {
    var w := ElemWidth(t);
    assert Pow256(1) == 256 && Pow256(2) == 65536 && Pow256(4) == 4294967296;
    if t in {UInt8, UInt16, UInt32, Float32} {
      assert e % Pow256(w) == e;
      DecodeEncode(e, w);
    } else {
      SignedRoundTrip(e, w);
    }
  }

  lemma {:induction false} EncodeElemsLength(t: ArrayType, elems: seq<int>)
    ensures |EncodeElems(t, elems)| == |elems| * ElemWidth(t)
  {
    if |elems| > 0 {
      EncodeElemsLength(t, elems[1..]);
      assert |elems| * ElemWidth(t) == (|elems| - 1) * ElemWidth(t) + ElemWidth(t);
    }
  }

  /** Decoding reads the first element from the first `ElemWidth(t)` bytes and carries on after them. */
  lemma DecodeElemsCons(t: ArrayType, head: seq<byte>, rest: seq<byte>, count: nat)
    requires |head| == ElemWidth(t) && count > 0
    requires |rest| >= (count - 1) * ElemWidth(t)
    ensures |head + rest| >= count * ElemWidth(t)
    ensures DecodeElems(t, head + rest, count) == [ReadElem(t, head)] + DecodeElems(t, rest, count - 1)
  {
    assert count * ElemWidth(t) == (count - 1) * ElemWidth(t) + ElemWidth(t);
    var bs := head + rest;
    assert bs[..ElemWidth(t)] == head;
    assert bs[ElemWidth(t)..] == rest;
  }

  /** Array elements, followed by anything, read back unchanged. */
  lemma {:induction false} ElemsRoundTrip(t: ArrayType, elems: seq<int>, more: seq<byte>)
    requires forall k :: 0 <= k < |elems| ==> InElemRange(t, elems[k])
    ensures |EncodeElems(t, elems)| == |elems| * ElemWidth(t)
    ensures DecodeElems(t, EncodeElems(t, elems) + more, |elems|) == elems
  {
    EncodeElemsLength(t, elems);
    if |elems| > 0 {
      var head := EncodeElem(t, elems[0]);
      var tail := EncodeElems(t, elems[1..]);
      ElemsRoundTrip(t, elems[1..], more);
      AppendAssoc(head, tail, more);
      DecodeElemsCons(t, head, tail + more, |elems|);
      ElemRoundTrip(t, elems[0]);
      assert [elems[0]] + elems[1..] == elems;
    }
  }

  lemma StringRoundTrip(s: seq<byte>, more: seq<byte>)
    requires forall k :: 0 <= k < |s| ==> s[k] != 0
    ensures FindNul(s + [0] + more) == Some(|s|)
  {
    var bs := s + [0] + more;
    var r := FindNul(bs);
    FindNulSpec(bs);
    assert bs[|s|] == 0;
    if r.None? {
      assert false;
    }
  }

  /**
   * What survives a write and a read: ASCII second id character, no zero
   * byte inside a string and, for the code as written, no integer in the
   * ranges its width selection truncates.
   */
  predicate RoundTrips(variant: Variant, tag: Tag, v: TagValue)
  {
    Writable(v) && tag % 256 < 128 && (v.Str? ==> forall k :: 0 <= k < |v.s| ==> v.s[k] != 0)
    && (variant.AsWritten? && v.Int? ==> !Truncated(v.i))
  }

  /** An integer parses back, under either variant, unless the code as written truncates it. */
  lemma IntValueRoundTrip(variant: Variant, i: int, more: seq<byte>)
    requires Writable(Int(i)) && (variant.AsWritten? ==> !Truncated(i))
    ensures ParseValue(variant, TypeCharOf(variant, Int(i)), EncodePayload(variant, Int(i)) + more)
         == Success((Int(i), |EncodePayload(variant, Int(i))|))
  {
    var (t, w) := IntTag(i);
    assert IntTagIn(variant, i) == (t, w);
    IntTagRoundTrip(i);
    assert (EncodePayload(variant, Int(i)) + more)[..w] == EncodeSigned(i, w);
  }

  /** The 32-bit array length reads back unchanged. */
  lemma CountRoundTrip(n: nat)
    requires n < Int32Bound
    ensures ToSigned(DecodeLE(EncodeSigned(n, 4)), 4) == n
  {
    assert Pow256(4) == 4294967296;
    SignedRoundTrip(n, 4);
  }

  /** A `B` array parses back with its subtype, its length and its elements. */
  lemma ArrayValueRoundTrip(t: ArrayType, elems: seq<int>, more: seq<byte>)
    requires Writable(Array(t, elems))
    ensures ParseArray(t, EncodeSigned(|elems|, 4) + EncodeElems(t, elems) + more)
         == Success((Array(t, elems), 4 + |EncodeElems(t, elems)|))
  {
    var payload := EncodeElems(t, elems);
    var head := EncodeSigned(|elems|, 4);
    var tail := payload + more;
    var bs := head + payload + more;
    AppendAssoc(head, payload, more);
    assert bs[..4] == head && bs[4..] == tail;
    CountRoundTrip(|elems|);
    ElemsRoundTrip(t, elems, more);
  }


  lemma FloatValueRoundTrip(variant: Variant, bits: nat, more: seq<byte>)
    requires bits < 4294967296
    ensures ParseValue(variant, TypeFloat, EncodeLE(bits, 4) + more) == Success((Float(bits), 4))
  {
    var rest := EncodeLE(bits, 4) + more;
    assert rest[..4] == EncodeLE(bits, 4);
    assert Pow256(4) == 4294967296;
    DecodeEncode(bits, 4);
  }

  lemma StrValueRoundTrip(variant: Variant, s: seq<byte>, more: seq<byte>)
    requires forall k :: 0 <= k < |s| ==> s[k] != 0
    ensures ParseValue(variant, TypeString, s + [0] + more) == Success((Str(s), |s| + 1))
  {
    var rest := s + [0] + more;
    StringRoundTrip(s, more);
    assert rest[..|s|] == s;
  }

  lemma ArrayEntryValueRoundTrip(variant: Variant, t: ArrayType, elems: seq<int>, more: seq<byte>)
    requires Writable(Array(t, elems))
    ensures ParseValue(variant, TypeArray, EncodePayload(variant, Array(t, elems)) + more)
         == Success((Array(t, elems), |EncodePayload(variant, Array(t, elems))|))
  {
    var sub := [SubtypeChar(t)];
    var counted := EncodeSigned(|elems|, 4) + EncodeElems(t, elems);
    var rest := EncodePayload(variant, Array(t, elems)) + more;
    AppendAssoc(sub, EncodeSigned(|elems|, 4), EncodeElems(t, elems));
    AppendAssoc(sub, counted, more);
    assert rest[0] == SubtypeChar(t) && rest[1..] == counted + more;
    assert SubtypeFromChar(SubtypeChar(t)) == Some(t);
    ArrayValueRoundTrip(t, elems, more);
  }

  /** Every value the writer emits, followed by anything, parses back and consumes exactly its bytes. */
  lemma ValueRoundTrip(variant: Variant, v: TagValue, more: seq<byte>)
    requires Writable(v) && (v.Str? ==> forall k :: 0 <= k < |v.s| ==> v.s[k] != 0)
    requires variant.AsWritten? && v.Int? ==> !Truncated(v.i)
    ensures ParseValue(variant, TypeCharOf(variant, v), EncodePayload(variant, v) + more) == Success((v, |EncodePayload(variant, v)|))
  {
    match v
    case Char(c) =>
      assert (EncodePayload(variant, v) + more)[0] == c;
    case Int(i) =>
      IntValueRoundTrip(variant, i, more);
    case Float(bits) =>
      FloatValueRoundTrip(variant, bits, more);
    case Str(s) =>
      StrValueRoundTrip(variant, s, more);
    case Array(t, elems) =>
      ArrayEntryValueRoundTrip(variant, t, elems, more);
  }

  /** One written tag, followed by anything, parses back to the same id and value and consumes exactly its bytes. */
  lemma EntryRoundTrip(variant: Variant, tag: Tag, v: TagValue, more: seq<byte>)
    requires RoundTrips(variant, tag, v)
    ensures ParseEntry(variant, EncodeEntry(variant, tag, v) + more) == Success((tag, v, |EncodeEntry(variant, tag, v)|))
  {
    var bs := EncodeEntry(variant, tag, v) + more;
    TagIdRoundTrip(tag);
    assert bs[0] == TagIdBytes(tag)[0] && bs[1] == TagIdBytes(tag)[1];
    assert bs[2] == TypeCharOf(variant, v);
    assert bs[3..] == EncodePayload(variant, v) + more;
    ValueRoundTrip(variant, v, more);
  }

  /**
   * As written, an `Int(-200)` entry is written as `c` with one byte and
   * reads back as `Int(56)`; the intended writer picks `s` and it reads back.
   */
  lemma IntEntryTruncatedAsWritten(tag: Tag)
    requires tag % 256 < 128
    ensures ParseEntry(AsWritten, EncodeEntry(AsWritten, tag, Int(-200))) == Success((tag, Int(56), 4))
    ensures ParseEntry(Intended, EncodeEntry(Intended, tag, Int(-200))) == Success((tag, Int(-200), 5))
  {
    IntTagAsWrittenTruncates();
    TagIdRoundTrip(tag);
    var bs := EncodeEntry(AsWritten, tag, Int(-200));
    assert bs[3..] == EncodeSigned(-200, 1) && bs[3..][..1] == bs[3..];
    EntryRoundTrip(Intended, tag, Int(-200), []);
    assert EncodeEntry(Intended, tag, Int(-200)) + [] == EncodeEntry(Intended, tag, Int(-200));
  }

  /** Every entry of the dictionary survives a write and a read. */
  predicate RoundTripDict(variant: Variant, d: Dict)
  {
    forall t :: t in d ==> RoundTrips(variant, t, d[t])
  }

  /** The dictionary after storing the values of `tags`, in order, into `target`. */
  function StoreAll(target: Dict, d: Dict, tags: seq<Tag>): Dict
    requires forall i :: 0 <= i < |tags| ==> tags[i] in d
    decreases |tags|
  {
    if |tags| == 0 then target else StoreAll(target[tags[0] := d[tags[0]]], d, tags[1..])
  }

  /** Parsing written entries stores them, in the order written, into the target. */
  lemma {:induction false} EntriesRoundTrip(variant: Variant, d: Dict, tags: seq<Tag>, target: Dict)
    requires RoundTripDict(variant, d)
    requires forall i :: 0 <= i < |tags| ==> tags[i] in d
    ensures WritableDict(d)
    ensures ParseDict(variant, EncodeEntries(variant, d, tags), target) == Success(StoreAll(target, d, tags))
    decreases |tags|
  {
    if |tags| > 0 {
      var head := EncodeEntry(variant, tags[0], d[tags[0]]);
      var tail := EncodeEntries(variant, d, tags[1..]);
      EntryRoundTrip(variant, tags[0], d[tags[0]], tail);
      assert (head + tail)[|head|..] == tail;
      EntriesRoundTrip(variant, d, tags[1..], target[tags[0] := d[tags[0]]]);
    }
  }

  /** Storing `tags` adds exactly those keys, each with its value from `d`. */
  lemma {:induction false} StoreAllCovers(target: Dict, d: Dict, tags: seq<Tag>)
    requires forall i :: 0 <= i < |tags| ==> tags[i] in d
    ensures forall t :: t in StoreAll(target, d, tags) <==> t in target || t in tags
    ensures forall t :: t in StoreAll(target, d, tags) ==>
              StoreAll(target, d, tags)[t] == (if t in tags then d[t] else target[t])
    decreases |tags|
  {
    if |tags| > 0 {
      StoreAllCovers(target[tags[0] := d[tags[0]]], d, tags[1..]);
      forall t
        ensures t in tags <==> t == tags[0] || t in tags[1..]
      {
        assert tags == [tags[0]] + tags[1..];
      }
    }
  }

  /**
   * The dictionary round trip: parsing what `get_tag_dict_str` wrote gives
   * back the dictionary, for every dictionary whose tags and values survive
   * the variant's writer and reader.
   */
  lemma DictRoundTrip(variant: Variant, d: Dict)
    requires RoundTripDict(variant, d)
    ensures WritableDict(d) && ParseDict(variant, EncodeDict(variant, d), map[]) == Success(d)
  {
    SortedTagsInDict(d);
    EntriesRoundTrip(variant, d, SortedTags(d), map[]);
    StoreSortedTags(d);
  }

  /** Storing every tag the writer visits into an empty dictionary rebuilds the dictionary. */
  lemma StoreSortedTags(d: Dict)
    ensures (SortedTagsInDict(d); StoreAll(map[], d, SortedTags(d)) == d)
  {
    SortedTagsInDict(d);
    TagsFromMembers(d, 0);
    StoreAllMembers(d, SortedTags(d));
  }

  /** Storing a list of exactly the dictionary's tags into an empty dictionary rebuilds it. */
  lemma StoreAllMembers(d: Dict, tags: seq<Tag>)
    requires forall i :: 0 <= i < |tags| ==> tags[i] in d
    requires forall t: Tag :: t in tags <==> t in d
    ensures StoreAll(map[], d, tags) == d
  {
    StoreAllCovers(map[], d, tags);
    SameEntries(StoreAll(map[], d, tags), d);
  }

  /** Two dictionaries with the same keys and the same value at each key are equal. */
  lemma SameEntries(r: Dict, d: Dict)
    requires forall t :: t in r <==> t in d
    requires forall t :: t in r ==> r[t] == d[t]
    ensures r == d
  {
    assert r.Keys == d.Keys;
  }
}
