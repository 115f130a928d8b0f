/** Field tables of pb.h as finite trees, and the message structs they describe as abstract values. */
module PbTypes {
  import opened Bytes

  /** sizeof(pb_size_t), as the library is configured. */
  type SizeWidth = n: nat | n == 1 || n == 2 || n == 4 witness 1

  const PB_SIZE_WIDTH: SizeWidth
  const PB_SIZE_MAX: nat := if PB_SIZE_WIDTH == 1 then 0xFF else if PB_SIZE_WIDTH == 2 then 0xFFFF else 0xFFFF_FFFF
  /** offsetof(pb_bytes_array_t, bytes) */
  const PB_BYTES_OFFSET: nat
  const PB_MAX_REQUIRED_FIELDS: nat := 64

  datatype LType =
    | Varint | UVarint | SVarint | Fixed32 | Fixed64
    | PbBytes | PbString | SubMessage(fields: seq<Field>) | Extension | FixedLengthBytes
  {
    predicate Packable() {
      Varint? || UVarint? || SVarint? || Fixed32? || Fixed64?
    }
  }

  datatype HType = Required | Optional | Repeated | OneOf

  /** Tag 0 marks the end of a table, so no entry has it. */
  type FieldTag = x: nat | 0 < x < TWO32 witness 1

  /** pb_field_t. A zero size offset means has-less for an optional field, fixed-count for a repeated one. */
  datatype Field = Field(
    tag: FieldTag,
    htype: HType,
    ltype: LType,
    dataOffset: nat,
    sizeOffset: int,
    dataSize: nat,
    arraySize: nat,
    default: Option<Value>)
  {
    predicate FixedCount() {
      htype.Repeated? && sizeOffset == 0
    }

    predicate Singular() {
      htype.Optional? && sizeOffset == 0
    }
  }

  /** One datum: an integer, a 32- or 64-bit word, a byte string, or a nested struct. */
  datatype Value = Int(i: int) | Word(w: nat) | Blob(b: seq<byte>) | Msg(slots: seq<Slot>)

  /** The memory that belongs to one field. A repeated slot holds the elements counted so far; a
      member of a union holds its value only while the union's selector names its tag. */
  datatype Slot =
    | Req(v: Value)
    | Opt(has: bool, v: Value)
    | Sing(v: Value)
    | Rep(items: seq<Value>)
    | Member(selected: Option<Value>)

  // ---- C integer types by size ----

  predicate IntSize(n: nat) {
    n == 1 || n == 2 || n == 4 || n == 8
  }

  function HalfRange(size: nat): nat {
    if size == 1 then 0x80 else if size == 2 then 0x8000 else if size == 4 then TWO31 else TWO63
  }

  predicate FitsSigned(size: nat, i: int) {
    IntSize(size) && -(HalfRange(size) as int) <= i < HalfRange(size)
  }

  predicate FitsUnsigned(size: nat, i: int) {
    IntSize(size) && 0 <= i < 2 * HalfRange(size)
  }

  // ---- typed values ----

  /** v is what the C type of the field can hold (a string: what stands before its terminator). */
  predicate TypedValue(f: Field, v: Value)
    decreases f, 0
  {
    match f.ltype
    case Varint => v.Int? && FitsSigned(f.dataSize, v.i)
    case SVarint => v.Int? && FitsSigned(f.dataSize, v.i)
    case UVarint => v.Int? && FitsUnsigned(f.dataSize, v.i)
    case Fixed32 => v.Word? && v.w < TWO32
    case Fixed64 => v.Word? && v.w < TWO64
    case PbBytes => v.Blob? && |v.b| <= PB_SIZE_MAX
    case PbString => v.Blob? && |v.b| < f.dataSize && 0 !in v.b
    case FixedLengthBytes => v.Blob? && |v.b| == f.dataSize <= PB_SIZE_MAX
    case SubMessage(fields) => v.Msg? && TypedMessage(fields, v.slots)
    case Extension => v == Int(0)
  }

  predicate TypedSlot(f: Field, s: Slot)
    decreases f, 1
  {
    match f.htype
    case Required => s.Req? && TypedValue(f, s.v)
    case Optional => if f.sizeOffset != 0 then s.Opt? && (s.has ==> TypedValue(f, s.v))
      else s.Sing? && TypedValue(f, s.v)
    case Repeated => s.Rep? && (f.FixedCount() ==> |s.items| == f.arraySize) && forall v <- s.items :: TypedValue(f, v)
    case OneOf => s.Member? && (s.selected.Some? ==> TypedValue(f, s.selected.value))
  }

  predicate TypedMessage(fields: seq<Field>, slots: seq<Slot>)
    decreases fields
  {
    && |slots| == |fields|
    && (forall i :: 0 <= i < |fields| ==> TypedSlot(fields[i], slots[i]))
    && OneSelected(fields, slots)
  }

  // ---- layout: the address arithmetic of pb_field_iter_next ----

  predicate InsideUnion(prev: Field, f: Field) {
    prev.htype.OneOf? && f.htype.OneOf? && f.dataOffset == PB_SIZE_MAX
  }

  function DataOffset(fields: seq<Field>, pos: nat): nat
    requires pos < |fields|
  {
    if pos == 0 then fields[0].dataOffset
    else if InsideUnion(fields[pos - 1], fields[pos]) then DataOffset(fields, pos - 1)
    else
      var prev := fields[pos - 1];
      var prevSize := if prev.htype.Repeated? then prev.dataSize * prev.arraySize else prev.dataSize;
      DataOffset(fields, pos - 1) + prevSize + fields[pos].dataOffset
  }

  function SizeOffset(fields: seq<Field>, pos: nat): int
    requires pos < |fields|
  {
    if pos > 0 && InsideUnion(fields[pos - 1], fields[pos]) then SizeOffset(fields, pos - 1)
    else DataOffset(fields, pos) + fields[pos].sizeOffset
  }

  function RequiredBefore(fields: seq<Field>, pos: nat): nat
    requires pos <= |fields|
  {
    if pos == 0 then 0
    else RequiredBefore(fields, pos - 1) + if fields[pos - 1].htype.Required? then 1 else 0
  }

  /** Members of one union share the offset of their selector. */
  predicate SameUnion(fields: seq<Field>, i: nat, j: nat)
    requires i < |fields| && j < |fields|
  {
    fields[i].htype.OneOf? && fields[j].htype.OneOf? && SizeOffset(fields, i) == SizeOffset(fields, j)
  }

  /** A selector names at most one member. */
  predicate OneSelected(fields: seq<Field>, slots: seq<Slot>)
    requires |slots| == |fields|
  {
    forall i, j :: 0 <= i < j < |fields| && SameUnion(fields, i, j) && slots[i].Member? && slots[j].Member?
      ==> slots[i].selected.None? || slots[j].selected.None?
  }

  // ---- looking a tag up ----

  predicate Matches(f: Field, tag: nat) {
    f.tag == tag && !f.ltype.Extension?
  }

  /** No two entries answer to the same tag. */
  predicate DistinctTags(fields: seq<Field>) {
    forall i, j :: 0 <= i < j < |fields| ==> fields[i].tag != fields[j].tag
  }

  /** The first entry from position i on that answers to the tag. */
  function IndexOf(fields: seq<Field>, i: nat, tag: nat): (r: Option<nat>)
    requires i <= |fields|
    ensures r.Some? ==> i <= r.value < |fields| && Matches(fields[r.value], tag)
    ensures r.None? ==> forall j :: i <= j < |fields| ==> !Matches(fields[j], tag)
    decreases |fields| - i
  {
    if i == |fields| then None
    else if Matches(fields[i], tag) then Some(i)
    else IndexOf(fields, i + 1, tag)
  }

  // ---- default values (pb_field_set_to_default) ----

  function Zeros(n: nat): seq<byte> {
    seq(n, _ => 0)
  }

  function DefaultValue(f: Field): Value
    decreases f, 0
  {
    if f.ltype.SubMessage? then Msg(Defaults(f.ltype.fields))
    else if f.default.Some? then f.default.value
    else
      match f.ltype
      case Fixed32 => Word(0)
      case Fixed64 => Word(0)
      case PbBytes => Blob([])
      case PbString => Blob([])
      case FixedLengthBytes => Blob(Zeros(f.dataSize))
      case _ => Int(0)
  }

  function DefaultSlot(f: Field): Slot
    decreases f, 1
  {
    match f.htype
    case Required => Req(DefaultValue(f))
    case Optional => if f.sizeOffset != 0 then Opt(false, DefaultValue(f)) else Sing(DefaultValue(f))
    case Repeated => Rep([])
    case OneOf => Member(None)
  }

  function Defaults(fields: seq<Field>): (slots: seq<Slot>)
    ensures |slots| == |fields|
    ensures forall i :: 0 <= i < |fields| ==> slots[i] == DefaultSlot(fields[i])
    decreases fields
  {
    if fields == [] then [] else [DefaultSlot(fields[0])] + Defaults(fields[1..])
  }
}
