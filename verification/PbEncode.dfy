/** What pb_encode.c writes, as a function of the field table and the message. */
module PbEncode {
  import opened Bytes
  import opened PbTypes
  import opened PbVarint

  const WT_VARINT: nat := 0
  const WT_64BIT: nat := 1
  const WT_STRING: nat := 2
  const WT_32BIT: nat := 5

  // ---- scalars ----

  /** (pb_uint64_t)i */
  function ToUint64(i: int): uint64 {
    i % TWO64
  }

  /** pb_encode_svarint's word: value << 1, complemented for a negative value. */
  function ZigZag(i: int): uint64 {
    if i < 0 then TWO64 - 1 - (2 * ToUint64(i)) % TWO64 else (2 * ToUint64(i)) % TWO64
  }

  /** The n low bytes of w, least significant first. */
  function LittleEndian(w: nat, n: nat): (s: seq<byte>)
    ensures |s| == n
  {
    if n == 0 then [] else [w % 256] + LittleEndian(w / 256, n - 1)
  }

  /** What strnlen leaves of a string buffer. */
  function CString(b: seq<byte>): (s: seq<byte>)
    ensures s <= b && 0 !in s
    ensures 0 !in b ==> s == b
  {
    if b == [] || b[0] == 0 then [] else [b[0]] + CString(b[1..])
  }

  /** The length goes out as a 64-bit word. */
  function LengthPrefixed(b: seq<byte>): seq<byte> {
    VarintBytes(|b| % TWO64) + b
  }

  function Tag(wireType: nat, tag: nat): seq<byte> {
    VarintBytes(8 * tag + wireType)
  }

  /** pb_encode_tag_for_field; None is "invalid field type". */
  function WireType(f: Field): Option<nat> {
    match f.ltype
    case Varint => Some(WT_VARINT)
    case UVarint => Some(WT_VARINT)
    case SVarint => Some(WT_VARINT)
    case Fixed32 => Some(WT_32BIT)
    case Fixed64 => Some(WT_64BIT)
    case Extension => None
    case _ => Some(WT_STRING)
  }

  function Append(a: Option<seq<byte>>, b: Option<seq<byte>>): Option<seq<byte>> {
    if a.Some? && b.Some? then Some(a.value + b.value) else None
  }

  // ---- the proto3 default check ----

  /** The byte order of the machine. */
  const BIG_ENDIAN: bool

  /** The bytes of a number in memory. */
  function Image(n: nat, size: nat): (s: seq<byte>)
    ensures |s| == size
  {
    if BIG_ENDIAN then BigEndianBytes(n, size) else LittleEndian(n, size)
  }

  /** The bytes of an array's elements in memory: numbers, and byte strings of fixed length. */
  function Images(f: Field, items: seq<Value>): seq<byte>
    requires forall v <- items :: TypedValue(f, v)
  {
    if items == [] then []
    else
      var v := items[0];
      assert TypedValue(f, v);
      (if v.Int? then Image(if v.i < 0 then v.i + 2 * HalfRange(f.dataSize) else v.i, f.dataSize)
       else if v.Word? then Image(v.w, if f.ltype.Fixed32? then 4 else 8)
       else if v.Blob? then v.b
       else []) + Images(f, items[1..])
  }

  /** What a count reads as where it takes in memory that the elements do not decide: padding, what follows
      a string's terminator, the members of a submessage, or what follows a short array. */
  const UNSEEN_IS_ZERO: (Field, seq<Value>) -> bool

  /** The first elements of an array, taken for a count, are zero. A bytes element begins with its own size. */
  predicate ReadsAsNone(f: Field, items: seq<Value>)
    requires forall v <- items :: TypedValue(f, v)
  {
    assert items != [] ==> TypedValue(f, items[0]);
    if f.ltype.SubMessage? || f.ltype.Extension? || items == [] then UNSEEN_IS_ZERO(f, items)
    else if f.ltype.PbBytes? then items[0].b == []
    else if f.ltype.PbString? then items[0].b == [] && (PB_SIZE_WIDTH == 1 || UNSEEN_IS_ZERO(f, items))
    else
      var m := Images(f, items);
      if |m| < PB_SIZE_WIDTH then UNSEEN_IS_ZERO(f, items) else forall k :: 0 <= k < PB_SIZE_WIDTH ==> m[k] == 0
  }

  /** pb_check_proto3_default_value. For a fixed-count array it takes the data for the count. */
  predicate IsProto3Default(f: Field, s: Slot)
    requires TypedSlot(f, s)
    decreases f, 1
  {
    match f.htype
    case Required => false
    case Repeated => if f.FixedCount() then ReadsAsNone(f, s.items) else s.items == []
    case OneOf => s.selected.None?
    case Optional => if f.sizeOffset != 0 then !s.has else IsZeroValue(f, s.v)
  }

  predicate IsZeroValue(f: Field, v: Value)
    requires TypedValue(f, v)
    decreases f, 0
  {
    match f.ltype
    case PbBytes => |v.b| == 0
    case PbString => CString(v.b) == []
    case FixedLengthBytes => f.dataSize == 0
    case SubMessage(fields) =>
      assert TypedMessage(fields, v.slots);
      forall i :: 0 <= i < |fields| ==> IsProto3Default(fields[i], v.slots[i])
    case Fixed32 => v.w == 0
    case Fixed64 => v.w == 0
    case _ => v.i == 0
  }

  // ---- fields and messages ----

  /** The PB_ENCODERS table: a value without its tag. */
  function EncodeValue(f: Field, v: Value): Option<seq<byte>>
    requires TypedValue(f, v)
    decreases f, 0
  {
    match f.ltype
    case Varint => Some(VarintBytes(ToUint64(v.i)))
    case UVarint => Some(VarintBytes(ToUint64(v.i)))
    case SVarint => Some(VarintBytes(ZigZag(v.i)))
    case Fixed32 => Some(LittleEndian(v.w, 4))
    case Fixed64 => Some(LittleEndian(v.w, 8))
    case PbBytes => if |v.b| + PB_BYTES_OFFSET > f.dataSize then None else Some(LengthPrefixed(v.b))
    case PbString => Some(LengthPrefixed(CString(v.b)))
    case FixedLengthBytes => Some(LengthPrefixed(v.b))
    case SubMessage(fields) =>
      var body := EncodeMessage(fields, v.slots);
      if body.Some? then Some(LengthPrefixed(body.value)) else None
    case Extension => None
  }

  function EncodeItems(f: Field, items: seq<Value>): Option<seq<byte>>
    requires forall v <- items :: TypedValue(f, v)
    decreases f, 1, |items|
  {
    if items == [] then Some([])
    else Append(EncodeValue(f, items[0]), EncodeItems(f, items[1..]))
  }

  function Tagged(f: Field, v: Value): Option<seq<byte>>
    requires TypedValue(f, v)
    decreases f, 1
  {
    if WireType(f).None? then None
    else Append(Some(Tag(WireType(f).value, f.tag)), EncodeValue(f, v))
  }

  function EncodeTaggedItems(f: Field, items: seq<Value>): Option<seq<byte>>
    requires forall v <- items :: TypedValue(f, v)
    decreases f, 2, |items|
  {
    if items == [] then Some([])
    else Append(Tagged(f, items[0]), EncodeTaggedItems(f, items[1..]))
  }

  /** encode_array: packed whenever the type allows it. */
  function EncodeArray(f: Field, items: seq<Value>): Option<seq<byte>>
    requires forall v <- items :: TypedValue(f, v)
    decreases f, 3
  {
    if items == [] then Some([])
    else if |items| > f.arraySize then None
    else if f.ltype.Packable() then
      var packed := EncodeItems(f, items);
      if packed.Some? then Some(Tag(WT_STRING, f.tag) + LengthPrefixed(packed.value)) else None
    else EncodeTaggedItems(f, items)
  }

  /** encode_basic_field, and encode_extension_field for an empty extension list. */
  function EncodeField(f: Field, s: Slot): Option<seq<byte>>
    requires TypedSlot(f, s)
    decreases f, 4
  {
    if f.ltype.Extension? then Some([])
    else
      match f.htype
      case Required => Tagged(f, s.v)
      case Optional =>
        if f.sizeOffset != 0 then (if s.has then Tagged(f, s.v) else Some([]))
        else if IsZeroValue(f, s.v) then Some([])
        else Tagged(f, s.v)
      case Repeated => EncodeArray(f, s.items)
      case OneOf => if s.selected.Some? then Tagged(f, s.selected.value) else Some([])
  }

  /** pb_encode */
  function EncodeMessage(fields: seq<Field>, slots: seq<Slot>): Option<seq<byte>>
    requires TypedMessage(fields, slots)
    decreases fields, |fields| + 1
  {
    EncodeFrom(fields, slots, 0)
  }

  /** The fields from position i on. */
  function EncodeFrom(fields: seq<Field>, slots: seq<Slot>, i: nat): Option<seq<byte>>
    requires |slots| == |fields| && i <= |fields|
    requires forall j :: 0 <= j < |fields| ==> TypedSlot(fields[j], slots[j])
    decreases fields, |fields| - i
  {
    if i == |fields| then Some([])
    else Append(EncodeField(fields[i], slots[i]), EncodeFrom(fields, slots, i + 1))
  }
}
