/** The two-pass encoder of pb_encode.c: every routine against the bytes PbEncode says it writes, on
    a sizing stream and on a bounded buffer alike. */
module PbEncodeStream {
  import opened Bytes
  import opened PbTypes
  import opened PbVarint
  import opened PbEncode
  import opened PbIter

  datatype EncodeError =
    | NoError | StreamFull | ArrayMaxSizeExceeded | BytesSizeExceeded | InvalidFieldType | SubmsgSizeChanged

  /** pb_ostream_t. A stream without a callback only counts. */
  class OStream {
    const writing: bool
    const buffer: array<byte>
    const maxSize: nat
    var state: nat
    var bytesWritten: nat
    var errmsg: EncodeError

    /** The last clause says that no run gets to "submsg size changed". */
    ghost predicate Valid()
      reads this
    {
      && state <= buffer.Length
      && (writing ==> bytesWritten <= maxSize && state + (maxSize - bytesWritten) <= buffer.Length)
      && errmsg != SubmsgSizeChanged
    }

    /** Everything in the buffer up to the write position. */
    ghost function Output(): seq<byte>
      requires Valid()
      reads this, buffer
    {
      buffer[..state]
    }

    /** Room for n more bytes; a sizing stream has no limit. */
    ghost predicate Fits(n: nat)
      reads this
    {
      writing ==> bytesWritten + n <= maxSize
    }

    constructor (writing: bool, buffer: array<byte>, state: nat, maxSize: nat)
      requires state <= buffer.Length && (writing ==> state + maxSize <= buffer.Length)
      ensures Valid() && this.writing == writing && this.buffer == buffer && this.maxSize == maxSize
      ensures this.state == state && bytesWritten == 0
    {
      this.writing, this.buffer, this.maxSize, this.state := writing, buffer, maxSize, state;
      bytesWritten, errmsg := 0, NoError;
    }

    method Fail(e: EncodeError) returns (ok: bool)
      requires Valid() && e != SubmsgSizeChanged
      modifies `errmsg
      ensures Valid() && !ok
    {
      if errmsg == NoError {
        errmsg := e;
      }
      return false;
    }

    /** pb_write with buf_write's copying loop. */
    method Write(data: seq<byte>) returns (ok: bool)
      requires Valid()
      modifies this, buffer
      ensures Wrote(this, Some(data), ok)
    {
      if writing {
        if bytesWritten + |data| > maxSize {
          ok := Fail(StreamFull);
          return;
        }
        var dest := state;
        state := dest + |data|;
        for i := 0 to |data|
          invariant buffer[..dest + i] == old(buffer[..state]) + data[..i]
          modifies buffer
        {
          buffer[dest + i] := data[i];
        }
      }
      bytesWritten := bytesWritten + |data|;
      return true;
    }
  }

  /** The contract of every encoding routine: it succeeds exactly when there are bytes to write and room
      for them; it then appends exactly those, or counts them; what was written before is untouched. */
  twostate predicate Wrote(s: OStream, new bytes: Option<seq<byte>>, ok: bool)
    requires old(s.Valid())
    reads s, s.buffer
  {
    && s.Valid()
    && (ok <==> bytes.Some? && old(s.Fits(|bytes.value|)))
    && old(s.Output()) <= s.Output()
    && (ok ==> s.bytesWritten == old(s.bytesWritten) + |bytes.value|)
    && (ok ==> s.Output() == old(s.Output()) + if s.writing then bytes.value else [])
  }

  // ---- scalars ----

  lemma {:induction false} VarintLength(v: nat, n: nat)
    requires v < Shl(1, 7 * n) && n > 0
    ensures |VarintBytes(v)| <= n
  {
    if v >= 128 {
      ShlScale(1, 7 * (n - 1));
      VarintLength(v / 128, n - 1);
    }
  }

  lemma {:induction false} Varint64Length(v: uint64)
    ensures |VarintBytes(v)| <= 10
  {
    ShlWords();
    ShlScale(1, 63);
    VarintLength(v, 10);
  }

  /** One turn of the loop of pb_encode_varint, as sequences: a group moves from the value to the buffer. */
  lemma {:induction false} MoveGroup(all: seq<byte>, before: seq<byte>, value: nat)
    requires value > 0 && all == before + VarintBytes(value)
    ensures |all| > |before|
    ensures value / 128 > 0 ==> all == before + [value % 128 + 128] + VarintBytes(value / 128)
    ensures value / 128 == 0 ==> all == before + [value % 128]
  {
  }

  method SetByte(buffer: array<byte>, i: nat, b: byte)
    requires i < buffer.Length
    modifies buffer
    ensures buffer[i] == b && buffer[..i] == old(buffer[..i]) && buffer[..i + 1] == old(buffer[..i]) + [b]
  {
    buffer[i] := b;
  }

  /** pb_encode_varint */
  method EncodeVarint(stream: OStream, v: uint64) returns (ok: bool)
    requires stream.Valid()
    modifies stream, stream.buffer
    ensures Wrote(stream, Some(VarintBytes(v)), ok)
  {
    if v <= 0x7F {
      ok := stream.Write([v]);
      return;
    }
    var buffer, n := FillVarint(v);
    ok := stream.Write(buffer[..n]);
  }

  /** The loop of pb_encode_varint, over its ten-byte buffer. */
  method FillVarint(v: uint64) returns (buffer: array<byte>, i: nat)
    requires v > 0
    ensures fresh(buffer) && i <= buffer.Length && buffer[..i] == VarintBytes(v)
  {
    ghost var all := VarintBytes(v);
    Varint64Length(v);
    buffer := new byte[10](_ => 0);
    var value: nat := v;
    i := 0;
    while value > 0
      invariant i <= 10 && (i == 0 ==> value > 0)
      invariant value > 0 ==> all == buffer[..i] + VarintBytes(value)
      invariant value == 0 ==> all == buffer[..i - 1] + [buffer[i - 1] % 128]
      modifies buffer
      decreases value
    {
      MoveGroup(all, buffer[..i], value);
      SetByte(buffer, i, value % 128 + 128);
      value := value / 128;
      i := i + 1;
    }
    SetByte(buffer, i - 1, buffer[i - 1] % 128);
  }

  /** pb_encode_svarint */
  method EncodeSVarint(stream: OStream, i: int) returns (ok: bool)
    requires stream.Valid()
    modifies stream, stream.buffer
    ensures Wrote(stream, Some(VarintBytes(ZigZag(i))), ok)
  {
    var shifted := (2 * ToUint64(i)) % TWO64;
    ok := EncodeVarint(stream, if i < 0 then TWO64 - 1 - shifted else shifted);
  }

  /** pb_encode_string: a length and the bytes. */
  method EncodeString(stream: OStream, data: seq<byte>) returns (ok: bool)
    requires stream.Valid()
    modifies stream, stream.buffer
    ensures Wrote(stream, Some(LengthPrefixed(data)), ok)
  {
    var n := |data| % TWO64;
    ok := EncodeVarint(stream, n);
    if ok {
      ok := stream.Write(data);
      assert old(stream.Output()) + VarintBytes(n) + data == old(stream.Output()) + LengthPrefixed(data);
    }
  }

  /** pb_encode_tag_for_field */
  method EncodeTagForField(stream: OStream, f: Field) returns (ok: bool)
    requires stream.Valid()
    modifies stream, stream.buffer
    ensures Wrote(stream, if WireType(f).Some? then Some(Tag(WireType(f).value, f.tag)) else None, ok)
  {
    var wireType := WireType(f);
    if wireType.None? {
      ok := stream.Fail(InvalidFieldType);
    } else {
      ok := EncodeVarint(stream, 8 * f.tag + wireType.value);
    }
  }

  lemma {:induction false} CStringStep(b: seq<byte>, k: nat)
    requires k < |b| && b[k] != 0
    ensures |CString(b[k..])| == 1 + |CString(b[k + 1..])|
  {
    assert b[k..][1..] == b[k + 1..];
  }

  /** The loop of pb_enc_string. */
  method StringLength(b: seq<byte>) returns (size: nat)
    ensures size == |CString(b)|
  {
    size := 0;
    while size < |b| && b[size] != 0
      invariant size <= |b| && |CString(b)| == size + |CString(b[size..])|
    {
      CStringStep(b, size);
      size := size + 1;
    }
  }

  /** done has been appended or counted since the old state. */
  twostate predicate SoFar(s: OStream, new done: seq<byte>)
    requires old(s.Valid())
    reads s, s.buffer
  {
    && s.Valid()
    && s.bytesWritten == old(s.bytesWritten) + |done|
    && s.Output() == old(s.Output()) + if s.writing then done else []
  }

  lemma {:induction false} AppendNil(e: Option<seq<byte>>)
    ensures Append(Some([]), e) == e
  {
    if e.Some? {
      assert [] + e.value == e.value;
    }
  }

  lemma {:induction false} AppendStep(done: seq<byte>, a: seq<byte>, b: Option<seq<byte>>)
    ensures Append(Some(done), Append(Some(a), b)) == Append(Some(done + a), b)
  {
    if b.Some? {
      Regroup(done, a, b.value);
    }
  }

  /** pb_encode_fixed32 and pb_encode_fixed64: the bytes of a word by shifts. */
  method EncodeFixed(stream: OStream, w: nat, n: nat) returns (ok: bool)
    requires stream.Valid()
    modifies stream, stream.buffer
    ensures Wrote(stream, Some(LittleEndian(w, n)), ok)
  {
    var bytes: seq<byte>, value := [], w;
    for i := 0 to n
      invariant LittleEndian(w, n) == bytes + LittleEndian(value, n - i)
      modifies {}
    {
      bytes, value := bytes + [value % 256], value / 256;
    }
    ok := stream.Write(bytes);
  }

  /** The PB_ENCODERS table. */
  method EncodeValueTo(stream: OStream, f: Field, v: Value) returns (ok: bool)
    requires stream.Valid() && TypedValue(f, v)
    modifies stream, stream.buffer
    ensures Wrote(stream, EncodeValue(f, v), ok)
    decreases f, 0
  {
    match f.ltype
    case Varint => ok := EncodeVarint(stream, ToUint64(v.i));
    case UVarint => ok := EncodeVarint(stream, ToUint64(v.i));
    case SVarint => ok := EncodeSVarint(stream, v.i);
    case Fixed32 => ok := EncodeFixed(stream, v.w, 4);
    case Fixed64 => ok := EncodeFixed(stream, v.w, 8);
    case PbBytes =>
      if |v.b| + PB_BYTES_OFFSET > f.dataSize {
        ok := stream.Fail(BytesSizeExceeded);
      } else {
        ok := EncodeString(stream, v.b);
      }
    case PbString =>
      var size := StringLength(v.b);
      assert v.b[..size] == CString(v.b);
      ok := EncodeString(stream, v.b[..size]);
    case FixedLengthBytes => ok := EncodeString(stream, v.b);
    case SubMessage(fields) => ok := EncodeSubmessage(stream, fields, v.slots);
    case Extension => ok := stream.Fail(InvalidFieldType);
  }

  method EncodeTagged(stream: OStream, f: Field, v: Value) returns (ok: bool)
    requires stream.Valid() && TypedValue(f, v)
    modifies stream, stream.buffer
    ensures Wrote(stream, Tagged(f, v), ok)
    decreases f, 1
  {
    ok := EncodeTagForField(stream, f);
    if ok {
      ok := EncodeValueTo(stream, f, v);
      if ok {
        Regroup(old(stream.Output()), Tag(WireType(f).value, f.tag), EncodeValue(f, v).value);
      }
    }
  }

  /** The writing loop of a packed array, and its sizing loop on a sizing stream. */
  method EncodeItemsTo(stream: OStream, f: Field, items: seq<Value>) returns (ok: bool)
    requires stream.Valid() && forall v <- items :: TypedValue(f, v)
    modifies stream, stream.buffer
    ensures Wrote(stream, EncodeItems(f, items), ok)
    decreases f, 1
  {
    ghost var all, done := EncodeItems(f, items), [];
    assert items[0..] == items;
    AppendNil(all);
    for i := 0 to |items|
      invariant all == Append(Some(done), EncodeItems(f, items[i..]))
      invariant SoFar(stream, done)
    {
      assert items[i..][0] == items[i] && items[i..][1..] == items[i + 1..];
      ok := EncodeValueTo(stream, f, items[i]);
      if !ok {
        return;
      }
      ghost var b := EncodeValue(f, items[i]).value;
      AppendStep(done, b, EncodeItems(f, items[i + 1..]));
      Regroup(old(stream.Output()), done, b);
      done := done + b;
    }
    ok := true;
  }

  method EncodeTaggedItemsTo(stream: OStream, f: Field, items: seq<Value>) returns (ok: bool)
    requires stream.Valid() && forall v <- items :: TypedValue(f, v)
    modifies stream, stream.buffer
    ensures Wrote(stream, EncodeTaggedItems(f, items), ok)
    decreases f, 2
  {
    ghost var all, done := EncodeTaggedItems(f, items), [];
    assert items[0..] == items;
    AppendNil(all);
    for i := 0 to |items|
      invariant all == Append(Some(done), EncodeTaggedItems(f, items[i..]))
      invariant SoFar(stream, done)
    {
      assert items[i..][0] == items[i] && items[i..][1..] == items[i + 1..];
      ok := EncodeTagged(stream, f, items[i]);
      if !ok {
        return;
      }
      ghost var b := Tagged(f, items[i]).value;
      AppendStep(done, b, EncodeTaggedItems(f, items[i + 1..]));
      Regroup(old(stream.Output()), done, b);
      done := done + b;
    }
    ok := true;
  }

  /** The size of a packed array: computed for fixed-width elements, counted otherwise. */
  method PackedSize(f: Field, items: seq<Value>) returns (ok: bool, size: nat)
    requires f.ltype.Packable() && forall v <- items :: TypedValue(f, v)
    ensures ok && EncodeItems(f, items).Some? && size == |EncodeItems(f, items).value|
    decreases f, 2
  {
    PackableEncodes(f, items);
    if f.ltype.Fixed32? {
      return true, 4 * |items|;
    } else if f.ltype.Fixed64? {
      return true, 8 * |items|;
    }
    var none := new byte[0];
    var sizer := new OStream(false, none, 0, 0);
    ok := EncodeItemsTo(sizer, f, items);
    size := sizer.bytesWritten;
  }

  lemma {:induction false} PackableEncodes(f: Field, items: seq<Value>)
    requires f.ltype.Packable() && forall v <- items :: TypedValue(f, v)
    ensures EncodeItems(f, items).Some?
    ensures f.ltype.Fixed32? ==> |EncodeItems(f, items).value| == 4 * |items|
    ensures f.ltype.Fixed64? ==> |EncodeItems(f, items).value| == 8 * |items|
  {
    if items != [] {
      PackableEncodes(f, items[1..]);
    }
  }

  /** encode_array */
  method EncodeArrayTo(stream: OStream, f: Field, items: seq<Value>) returns (ok: bool)
    requires stream.Valid() && forall v <- items :: TypedValue(f, v)
    modifies stream, stream.buffer
    ensures Wrote(stream, EncodeArray(f, items), ok)
    decreases f, 5
  {
    if items == [] {
      return true;
    }
    if |items| > f.arraySize {
      ok := stream.Fail(ArrayMaxSizeExceeded);
      return;
    }
    if !f.ltype.Packable() {
      ok := EncodeTaggedItemsTo(stream, f, items);
      return;
    }
    ok := EncodePackedTo(stream, f, items);
  }

  method EncodePackedTo(stream: OStream, f: Field, items: seq<Value>) returns (ok: bool)
    requires stream.Valid() && f.ltype.Packable() && items != [] && |items| <= f.arraySize
    requires forall v <- items :: TypedValue(f, v)
    modifies stream, stream.buffer
    ensures Wrote(stream, EncodeArray(f, items), ok)
    decreases f, 4
  {
    ghost var tag := Tag(WT_STRING, f.tag);
    PackableEncodes(f, items);
    ghost var packed := EncodeItems(f, items).value;
    ghost var start := stream.Output();
    ok := EncodeVarint(stream, 8 * f.tag + WT_STRING);
    if !ok {
      return;
    }
    Regroup(start, tag, LengthPrefixed(packed));
    ok := EncodePackedBody(stream, f, items);
  }

  /** The size of the elements, which a sizing pass finds, and then the elements. */
  method EncodePackedBody(stream: OStream, f: Field, items: seq<Value>) returns (ok: bool)
    requires stream.Valid() && f.ltype.Packable() && items != [] && forall v <- items :: TypedValue(f, v)
    modifies stream, stream.buffer
    ensures EncodeItems(f, items).Some? && Wrote(stream, Some(LengthPrefixed(EncodeItems(f, items).value)), ok)
    decreases f, 3
  {
    PackableEncodes(f, items);
    ghost var start := stream.Output();
    var _, size := PackedSize(f, items);
    Regroup(start, VarintBytes(size % TWO64), EncodeItems(f, items).value);
    ok := EncodeVarint(stream, size % TWO64);
    if !ok {
      return;
    }
    if !stream.writing {
      stream.bytesWritten := stream.bytesWritten + size;
      return true;
    }
    ok := EncodeItemsTo(stream, f, items);
  }

  /** encode_basic_field, and encode_extension_field for an empty extension list. */
  method EncodeFieldTo(stream: OStream, f: Field, s: Slot) returns (ok: bool)
    requires stream.Valid() && TypedSlot(f, s)
    modifies stream, stream.buffer
    ensures Wrote(stream, EncodeField(f, s), ok)
    decreases f, 6
  {
    if f.ltype.Extension? {
      return true;
    }
    match f.htype
    case Required => ok := EncodeTagged(stream, f, s.v);
    case Optional =>
      var has := if f.sizeOffset != 0 then s.has else !IsZeroValue(f, s.v);
      if has {
        ok := EncodeTagged(stream, f, s.v);
      } else {
        ok := true;
      }
    case Repeated => ok := EncodeArrayTo(stream, f, s.items);
    case OneOf =>
      if s.selected.Some? {
        ok := EncodeTagged(stream, f, s.selected.value);
      } else {
        ok := true;
      }
  }

  /** Behind start, and after count bytes, done has been appended or counted. */
  ghost predicate Behind(s: OStream, start: seq<byte>, count: nat, done: seq<byte>)
    reads s, s.buffer
  {
    s.Valid() && s.bytesWritten == count + |done| && s.Output() == start + if s.writing then done else []
  }

  method EncodeNext(stream: OStream, f: Field, s: Slot, ghost start: seq<byte>, ghost count: nat, ghost done: seq<byte>)
    returns (ok: bool)
    requires Behind(stream, start, count, done) && TypedSlot(f, s)
    modifies stream, stream.buffer
    ensures stream.Valid() && start <= stream.Output()
    ensures var b := EncodeField(f, s);
      ok <==> b.Some? && (stream.writing ==> count + |done + b.value| <= stream.maxSize)
    ensures ok ==> Behind(stream, start, count, done + EncodeField(f, s).value)
    decreases f, 7
  {
    ok := EncodeFieldTo(stream, f, s);
    if ok {
      Regroup(start, done, EncodeField(f, s).value);
    }
  }

  /** pb_encode: the do-while loop over the field iterator. */
  method EncodeMessageTo(stream: OStream, fields: seq<Field>, slots: seq<Slot>) returns (ok: bool)
    requires stream.Valid() && TypedMessage(fields, slots)
    modifies stream, stream.buffer
    ensures Wrote(stream, EncodeMessage(fields, slots), ok)
    decreases fields, 1
  {
    var iter := new FieldIter(fields);
    if fields == [] {
      return true;
    }
    ghost var all, done := EncodeMessage(fields, slots), [];
    ghost var start, count := stream.Output(), stream.bytesWritten;
    AppendNil(all);
    var more := true;
    while more
      invariant iter.Valid() && fresh(iter) && iter.fields == fields
      invariant more ==> iter.pos < |fields|
      invariant all == Append(Some(done), EncodeFrom(fields, slots, if more then iter.pos else |fields|))
      invariant Behind(stream, start, count, done)
      decreases if more then |fields| - iter.pos else 0
    {
      var i := iter.pos;
      ok := EncodeNext(stream, fields[i], slots[i], start, count, done);
      if !ok {
        return;
      }
      ghost var b := EncodeField(fields[i], slots[i]).value;
      AppendStep(done, b, EncodeFrom(fields, slots, i + 1));
      done := done + b;
      more := iter.Next();
    }
    ok := true;
  }

  /** pb_encode_submessage: size it, write the size, then write it through a substream bounded by that
      size. The second pass never differs from the first. */
  method EncodeSubmessage(stream: OStream, fields: seq<Field>, slots: seq<Slot>) returns (ok: bool)
    requires stream.Valid() && TypedMessage(fields, slots)
    modifies stream, stream.buffer
    ensures Wrote(stream, var e := EncodeMessage(fields, slots); if e.Some? then Some(LengthPrefixed(e.value))
      else None, ok)
    decreases fields, 3
  {
    var none := new byte[0];
    var substream := new OStream(false, none, 0, 0);
    ok := EncodeMessageTo(substream, fields, slots);
    if !ok {
      stream.errmsg := substream.errmsg;
      return;
    }
    var size := substream.bytesWritten;
    ghost var start := stream.Output();
    Regroup(start, VarintBytes(size % TWO64), EncodeMessage(fields, slots).value);
    ok := EncodeVarint(stream, size % TWO64);
    if !ok {
      return;
    }
    if !stream.writing {
      stream.bytesWritten := stream.bytesWritten + size;
      return;
    }
    if stream.bytesWritten + size > stream.maxSize {
      ok := stream.Fail(StreamFull);
      return;
    }
    ok := FillSubmessage(stream, fields, slots, size);
  }

  /** The second pass, through a substream of the size the first one found. */
  method FillSubmessage(stream: OStream, fields: seq<Field>, slots: seq<Slot>, size: nat) returns (ok: bool)
    requires stream.Valid() && stream.writing && stream.bytesWritten + size <= stream.maxSize
    requires TypedMessage(fields, slots) && EncodeMessage(fields, slots).Some? &&
      |EncodeMessage(fields, slots).value| == size
    modifies stream, stream.buffer
    ensures stream.Valid() && ok && stream.bytesWritten == old(stream.bytesWritten) + size
    ensures stream.Output() == old(stream.Output()) + EncodeMessage(fields, slots).value
    decreases fields, 2
  {
    var substream := new OStream(true, stream.buffer, stream.state, size);
    var status := EncodeMessageTo(substream, fields, slots);
    stream.bytesWritten := stream.bytesWritten + substream.bytesWritten;
    stream.state := substream.state;
    var changed := substream.bytesWritten != size;
    stream.errmsg := if changed then SubmsgSizeChanged else substream.errmsg;
    ok := status && !changed;
  }

  /** pb_get_encoded_size: the sizing pass alone. */
  method GetEncodedSize(fields: seq<Field>, slots: seq<Slot>) returns (ok: bool, size: nat)
    requires TypedMessage(fields, slots)
    ensures ok <==> EncodeMessage(fields, slots).Some?
    ensures ok ==> size == |EncodeMessage(fields, slots).value|
  {
    var none := new byte[0];
    var stream := new OStream(false, none, 0, 0);
    ok := EncodeMessageTo(stream, fields, slots);
    size := stream.bytesWritten;
  }

  /** pb_encode on pb_ostream_from_buffer: it succeeds exactly when the message can be encoded and the
      buffer is at least as long as the sizing pass says. */
  method EncodeToBuffer(buffer: array<byte>, fields: seq<Field>, slots: seq<Slot>) returns (ok: bool, size: nat)
    requires TypedMessage(fields, slots)
    modifies buffer
    ensures ok <==> EncodeMessage(fields, slots).Some? && |EncodeMessage(fields, slots).value| <= buffer.Length
    ensures ok ==> size == |EncodeMessage(fields, slots).value| && buffer[..size] == EncodeMessage(fields, slots).value
  {
    var stream := new OStream(true, buffer, 0, buffer.Length);
    ok := EncodeMessageTo(stream, fields, slots);
    size := stream.bytesWritten;
    if ok {
      assert buffer[..stream.state] == [] + EncodeMessage(fields, slots).value;
    }
  }
}
