/** What pb_decode may leave in memory: no input makes a struct hold more than its table has room for. */
module PbFits {
  import opened Bytes
  import opened PbTypes
  import opened PbVarint
  import opened PbEncode
  import opened PbDecode

  // ---- what a struct has room for ----

  predicate FitsValue(f: Field, v: Value)
    decreases f, 0
  {
    match f.ltype
    case Varint => v.Int? && FitsSigned(f.dataSize, v.i)
    case SVarint => v.Int? && FitsSigned(f.dataSize, v.i)
    case UVarint => v.Int? && FitsUnsigned(f.dataSize, v.i)
    case Fixed32 => v.Word? && v.w < TWO32
    case Fixed64 => v.Word? && v.w < TWO64
    case PbBytes => v.Blob? && |v.b| <= PB_SIZE_MAX && PB_BYTES_OFFSET + |v.b| <= f.dataSize
    case PbString => v.Blob? && |v.b| + 1 <= f.dataSize
    case FixedLengthBytes => v.Blob? && |v.b| == f.dataSize
    case SubMessage(fields) => v.Msg? && FitsMessage(fields, v.slots)
    case Extension => v == Int(0)
  }

  predicate FitsSlot(f: Field, s: Slot)
    decreases f, 1
  {
    match f.htype
    case Required => s.Req? && FitsValue(f, s.v)
    case Optional => if f.sizeOffset != 0 then s.Opt? && FitsValue(f, s.v) else s.Sing? && FitsValue(f, s.v)
    case Repeated => s.Rep? && |s.items| <= f.arraySize && forall v <- s.items :: FitsValue(f, v)
    case OneOf => s.Member? && (s.selected.Some? ==> FitsValue(f, s.selected.value))
  }

  /** Every field within its memory, and of each union one member at most. */
  predicate FitsMessage(fields: seq<Field>, slots: seq<Slot>)
    decreases fields
  {
    && |slots| == |fields|
    && (forall i :: 0 <= i < |fields| ==> FitsSlot(fields[i], slots[i]))
    && OneSelected(fields, slots)
  }

  /** The defaults of a table, which fresh submessages start from, fit it. */
  predicate TableFits(fields: seq<Field>)
    decreases fields
  {
    forall i :: 0 <= i < |fields| ==> FieldFits(fields[i])
  }

  predicate FieldFits(f: Field)
    decreases f
  {
    FitsSlot(f, DefaultSlot(f)) && (f.ltype.SubMessage? ==> TableFits(f.ltype.fields))
  }

  lemma {:induction false} DefaultsFit(fields: seq<Field>)
    requires TableFits(fields)
    ensures FitsMessage(fields, Defaults(fields))
  {
    assert forall i :: 0 <= i < |fields| ==> FieldFits(fields[i]);
  }

  // ---- which number is decoded ----

  /** The word of a two's complement number is congruent to it. */
  lemma {:induction false} Signed32(w: nat, i: int)
    requires 0 <= i + TWO31 < TWO32
    ensures Signed(w % TWO32, TWO31) == i <==> (w - i) % TWO32 == 0
  {
  }

  lemma {:induction false} Signed64(w: nat, i: int)
    requires 0 <= i + TWO63 < TWO64
    ensures Signed(w % TWO64, TWO63) == i <==> (w - i) % TWO64 == 0
  {
  }

  /** Which number an integer field makes of a word, if any: one of the field's range, congruent to the word
      modulo 2^64, or 2^32 below eight bytes; the word itself, unsigned; or the one it is the zigzag form of. */
  lemma {:induction false} IntOfExactly(f: Field, w: uint64, i: int)
    requires f.ltype.Varint? || f.ltype.UVarint? || f.ltype.SVarint?
    ensures f.ltype.Varint? ==> (IntOf(f, w) == Some(i) <==>
      FitsSigned(f.dataSize, i) && (w - i) % (if f.dataSize == 8 then TWO64 else TWO32) == 0)
    ensures f.ltype.UVarint? ==> (IntOf(f, w) == Some(i) <==> FitsUnsigned(f.dataSize, i) && w == i)
    ensures f.ltype.SVarint? ==> (IntOf(f, w) == Some(i) <==>
      FitsSigned(f.dataSize, i) && w == if i < 0 then -2 * i - 1 else 2 * i)
  {
    if f.ltype.Varint? && FitsSigned(f.dataSize, i) {
      if f.dataSize == 8 {
        Signed64(w, i);
        assert w % TWO64 == w;
      } else {
        Signed32(w, i);
      }
    }
  }

  // ---- what is decoded ----

  lemma {:induction false} LittleEndianBound(s: seq<byte>)
    ensures LittleEndianValue(s) < Shl(1, 8 * |s|)
  {
    if s != [] {
      LittleEndianBound(s[1..]);
      ShlScale(1, 8 * (|s| - 1));
      assert Shl(1, 8 * |s|) == 2 * Shl(1, 8 * |s| - 1);
    }
  }

  /** Memory that a value is decoded into and not reset: a submessage to merge into. */
  predicate FitsDest(f: Field, dest: Value) {
    f.ltype.SubMessage? && !f.htype.Repeated? && dest.Msg? ==> FitsMessage(f.ltype.fields, dest.slots)
  }

  lemma {:induction false} ValueFits(f: Field, dest: Value, s: seq<byte>)
    requires FieldFits(f) && FitsDest(f, dest) && DecodeValue(f, dest, s).Got?
    ensures FitsValue(f, DecodeValue(f, dest, s).value)
    decreases f, |s|, 0
  {
    if f.ltype.SubMessage? {
      var fields := f.ltype.fields;
      DefaultsFit(fields);
      var into := if f.htype.Repeated? || !dest.Msg? then Defaults(fields) else dest.slots;
      NoInitFits(fields, into, TakePrefixed(s).value);
    } else if f.ltype.Fixed32? {
      LittleEndianBound(s[..4]);
      ShlWords();
    } else if f.ltype.Fixed64? {
      LittleEndianBound(s[..8]);
      ShlWords();
    }
  }

  predicate FitItems(f: Field, items: seq<Value>) {
    |items| <= f.arraySize && forall v <- items :: FitsValue(f, v)
  }

  lemma {:induction false} PackedFits(f: Field, items: seq<Value>, s: seq<byte>)
    requires FieldFits(f) && f.ltype.Packable() && FitItems(f, items) && DecodePacked(f, items, s).Some?
    ensures FitItems(f, DecodePacked(f, items, s).value)
    decreases f, |s|, 1
  {
    if s != [] {
      var d := DecodeValue(f, Int(0), s);
      ValueFits(f, Int(0), s);
      PackedFits(f, items + [d.value], d.rest);
    }
  }

  /** A slot that fits in place of another, outside of unions. */
  lemma {:induction false} PutFits(fields: seq<Field>, slots: seq<Slot>, i: nat, s: Slot)
    requires FitsMessage(fields, slots) && i < |fields| && !fields[i].htype.OneOf? && FitsSlot(fields[i], s)
    ensures FitsMessage(fields, slots[i := s])
  {
  }

  lemma {:induction false} SelectFits(fields: seq<Field>, slots: seq<Slot>, i: nat, v: Value)
    requires FitsMessage(fields, slots) && i < |fields| && fields[i].htype.OneOf? && FitsValue(fields[i], v)
    ensures FitsMessage(fields, Select(fields, slots, i, v))
  {
    var r := Select(fields, slots, i, v);
    forall j | 0 <= j < |fields| ensures FitsSlot(fields[j], r[j]) {
      assert FitsSlot(fields[j], slots[j]);
    }
  }

  lemma {:induction false} FieldDecodedFits(fields: seq<Field>, slots: seq<Slot>, i: nat, wireType: nat, s: seq<byte>)
    requires TableFits(fields) && FitsMessage(fields, slots) && i < |fields|
    requires DecodeField(fields, slots, i, wireType, s).Got?
    ensures FitsMessage(fields, DecodeField(fields, slots, i, wireType, s).value)
    decreases fields, |s|, 0
  {
    var f := fields[i];
    assert FieldFits(f) && FitsSlot(f, slots[i]);
    if f.htype.Repeated? {
      ArrayDecodedFits(fields, slots, i, wireType, s);
    } else {
      var dest := if f.htype.OneOf? then Int(0) else Content(slots[i]);
      ValueFits(f, dest, s);
      var v := DecodeValue(f, dest, s).value;
      if f.htype.OneOf? {
        SelectFits(fields, slots, i, v);
      } else {
        PutFits(fields, slots, i,
          if f.htype.Required? then Req(v) else if f.sizeOffset != 0 then Opt(true, v) else Sing(v));
      }
    }
  }

  lemma {:induction false} ArrayDecodedFits(fields: seq<Field>, slots: seq<Slot>, i: nat, wireType: nat, s: seq<byte>)
    requires i < |fields| && FieldFits(fields[i]) && FitsMessage(fields, slots) && fields[i].htype.Repeated?
    requires DecodeField(fields, slots, i, wireType, s).Got?
    ensures FitsMessage(fields, DecodeField(fields, slots, i, wireType, s).value)
    decreases fields[i], |s|, 2
  {
    var f := fields[i];
    assert FitsSlot(f, slots[i]);
    var items := Items(slots[i]);
    if wireType == WT_STRING && f.ltype.Packable() {
      PackedFits(f, items, TakePrefixed(s).value);
      PutFits(fields, slots, i, Rep(DecodePacked(f, items, TakePrefixed(s).value).value));
    } else {
      ValueFits(f, Int(0), s);
      PutFits(fields, slots, i, Rep(items + [DecodeValue(f, Int(0), s).value]));
    }
  }

  lemma {:induction false} ArriveFits(fields: seq<Field>, p: Progress, i: nat)
    requires i < |fields| && FitsMessage(fields, p.slots) && Arrive(fields, p, i).Some?
    ensures FitsMessage(fields, Arrive(fields, p, i).value.slots)
  {
    if fields[i].FixedCount() {
      PutFits(fields, p.slots, i, Rep([]));
    }
  }

  lemma {:induction false} LoopFits(fields: seq<Field>, p: Progress, s: seq<byte>)
    requires TableFits(fields) && FitsMessage(fields, p.slots) && DecodeLoop(fields, p, s).LoopDone?
    ensures FitsMessage(fields, DecodeLoop(fields, p, s).p.slots)
    decreases fields, |s|, 1
  {
    if s != [] {
      var t := DecodeTag(s);
      if t.TagRead? {
        var at := IndexOf(fields, 0, t.tag);
        if at.None? {
          LoopFits(fields, p, SkipField(t.wireType, t.rest).rest);
        } else {
          var q := Arrive(fields, p, at.value).value;
          ArriveFits(fields, p, at.value);
          var d := DecodeField(fields, q.slots, at.value, t.wireType, t.rest);
          FieldDecodedFits(fields, q.slots, at.value, t.wireType, t.rest);
          LoopFits(fields, q.(slots := d.value), d.rest);
        }
      }
    }
  }

  /** Whatever the input: a struct that fits its table still does after pb_decode_noinit, at every depth.
      Strings leave room for their terminator, bytes stay within their buffer behind their size, blobs are
      as long as their field, integers in the range of their type, and arrays hold no more than they can. */
  lemma {:induction false} NoInitFits(fields: seq<Field>, slots: seq<Slot>, s: seq<byte>)
    requires TableFits(fields) && FitsMessage(fields, slots) && DecodeNoInit(fields, slots, s).Done?
    ensures FitsMessage(fields, DecodeNoInit(fields, slots, s).slots)
    decreases fields, |s|, 2
  {
    LoopFits(fields, Progress(slots, {}, None), s);
  }

  /** And so does whatever pb_decode makes of any input. */
  lemma {:induction false} DecodeFits(fields: seq<Field>, s: seq<byte>)
    requires TableFits(fields) && Decode(fields, s).Done?
    ensures FitsMessage(fields, Decode(fields, s).slots)
  {
    DefaultsFit(fields);
    NoInitFits(fields, Defaults(fields), s);
  }

  // ---- what fits can be sent ----

  lemma {:induction false} ValueEncodes(f: Field, v: Value)
    requires TypedValue(f, v) && FitsValue(f, v) && !f.ltype.Extension?
    ensures EncodeValue(f, v).Some? && Tagged(f, v).Some?
    decreases f, 0
  {
    if f.ltype.SubMessage? {
      FitsEncodes(f.ltype.fields, v.slots);
    }
  }

  lemma {:induction false} ItemsEncode(f: Field, items: seq<Value>)
    requires (forall v <- items :: TypedValue(f, v) && FitsValue(f, v)) && !f.ltype.Extension?
    ensures EncodeItems(f, items).Some? && EncodeTaggedItems(f, items).Some?
    decreases f, 1, |items|
  {
    if items != [] {
      ValueEncodes(f, items[0]);
      ItemsEncode(f, items[1..]);
    }
  }

  lemma {:induction false} SlotEncodes(f: Field, s: Slot)
    requires TypedSlot(f, s) && FitsSlot(f, s)
    ensures EncodeField(f, s).Some?
    decreases f, 2
  {
    if !f.ltype.Extension? {
      match s
      case Req(v) => ValueEncodes(f, v);
      case Opt(has, v) => if has { ValueEncodes(f, v); }
      case Sing(v) => ValueEncodes(f, v);
      case Rep(items) => ItemsEncode(f, items);
      case Member(sel) => if sel.Some? { ValueEncodes(f, sel.value); }
    }
  }

  lemma {:induction false} FromEncodes(fields: seq<Field>, slots: seq<Slot>, i: nat)
    requires TypedMessage(fields, slots) && FitsMessage(fields, slots) && i <= |fields|
    ensures EncodeFrom(fields, slots, i).Some?
    decreases fields, |fields| - i
  {
    if i < |fields| {
      SlotEncodes(fields[i], slots[i]);
      FromEncodes(fields, slots, i + 1);
    }
  }

  /** Every message that fits its table is encoded. */
  lemma {:induction false} FitsEncodes(fields: seq<Field>, slots: seq<Slot>)
    requires TypedMessage(fields, slots) && FitsMessage(fields, slots)
    ensures EncodeMessage(fields, slots).Some?
    decreases fields, |fields| + 1
  {
    FromEncodes(fields, slots, 0);
  }
}
