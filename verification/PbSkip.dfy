/** What pb_encode writes is read over by a peer that does not know its fields: keys carry the wire types. */
module PbSkip {
  import opened Bytes
  import opened PbTypes
  import opened PbVarint
  import opened PbEncode
  import opened PbDecode
  import opened PbRoundTrip

  // ---- keys ----

  /** The wire types of the encoding format, by what a field holds. */
  function KeyDigit(t: LType): nat {
    if t.Varint? || t.UVarint? || t.SVarint? then 0
    else if t.Fixed64? then 1
    else if t.Fixed32? then 5
    else 2
  }

  /** The key before a value, and before a packed array. */
  lemma {:induction false} KeyOfField(f: Field, v: Value, items: seq<Value>)
    requires TypedValue(f, v) && !f.ltype.Extension? && forall w <- items :: TypedValue(f, w)
    ensures EncodeValue(f, v).Some? ==>
      Tagged(f, v) == Some(VarintBytes(8 * f.tag + KeyDigit(f.ltype)) + EncodeValue(f, v).value)
    ensures KeyDigit(f.ltype) != 2 && items != [] && EncodeArray(f, items).Some? ==>
      EncodeArray(f, items).value == VarintBytes(8 * f.tag + 2) + LengthPrefixed(EncodeItems(f, items).value)
    ensures KeyDigit(f.ltype) == 2 && items != [] && EncodeArray(f, items).Some? ==>
      EncodeArray(f, items) == EncodeTaggedItems(f, items)
  {
  }

  /** Which has-less scalars are left out: zeros and nothing else. */
  lemma {:induction false} OmittedExactly(f: Field, v: Value)
    requires f.Singular() && TypedValue(f, v) && !f.ltype.SubMessage? && !f.ltype.Extension?
    requires f.ltype.FixedLengthBytes? ==> f.dataSize > 0
    ensures
      var zero := v == Int(0) || v == Word(0) || v == Blob([]) || (f.ltype.PbString? && CString(v.b) == []);
      EncodeField(f, Sing(v)) == Some([]) <==> zero
  {
    assert VarintBytes(8 * f.tag + KeyDigit(f.ltype)) != [];
    KeyOfField(f, v, []);
  }

  /** Fixed-width words go out low byte first. */
  lemma {:induction false} FixedBytes(w: nat, n: nat, k: nat)
    requires k < n
    ensures LittleEndian(w, n)[k] == Shr(w, 8 * k) % 256
  {
    if k > 0 {
      FixedBytes(w / 256, n - 1, k - 1);
      ShrByte(w);
      ShrTwice(w, 8, 8 * (k - 1));
    }
  }

  lemma {:induction false} ShrByte(w: nat)
    ensures Shr(w, 8) == w / 256
  {
    assert Shr(w, 8) == Shr(w / 2, 7) == Shr(w / 4, 6);
    assert Shr(w / 4, 6) == Shr(w / 8, 5) == Shr(w / 16, 4);
    ShrNibble(w / 16);
  }

  lemma {:induction false} ShrNibble(w: nat)
    ensures Shr(w, 4) == w / 16
  {
    assert Shr(w, 4) == Shr(w / 2, 3) == Shr(w / 4, 2);
    assert Shr(w / 4, 2) == Shr(w / 8, 1) == Shr(w / 16, 0);
  }

  lemma {:induction false} ShrTwice(w: nat, a: nat, b: nat)
    ensures Shr(w, a + b) == Shr(Shr(w, a), b)
  {
    if a > 0 {
      ShrTwice(w / 2, a - 1, b);
    }
  }

  // ---- skipping ----

  lemma {:induction false} SkipsVarint(v: nat, rest: seq<byte>)
    ensures SkipVarint(VarintBytes(v) + rest) == Got((), rest)
  {
    EncodingHead(v, rest);
    if v >= 128 {
      SkipsVarint(v / 128, rest);
    }
  }

  lemma {:induction false} SkipsValue(f: Field, v: Value, rest: seq<byte>)
    requires TypedValue(f, v) && !f.ltype.Extension?
    requires EncodeValue(f, v).Some? && |EncodeValue(f, v).value| < TWO32
    ensures SkipField(WireType(f).value, EncodeValue(f, v).value + rest) == Got((), rest)
  {
    match f.ltype
    case Fixed32 => TakeAppend(EncodeValue(f, v).value, rest);
    case Fixed64 => TakeAppend(EncodeValue(f, v).value, rest);
    case PbBytes => PrefixedRoundTrip(v.b, rest);
    case PbString => PrefixedRoundTrip(CString(v.b), rest);
    case FixedLengthBytes => PrefixedRoundTrip(v.b, rest);
    case SubMessage(fields) => PrefixedRoundTrip(EncodeMessage(fields, v.slots).value, rest);
    case Varint => SkipsVarint(ToUint64(v.i), rest);
    case UVarint => SkipsVarint(ToUint64(v.i), rest);
    case SVarint => SkipsVarint(ZigZag(v.i), rest);
    case Extension =>
  }

  /** An unknown field of any other wire type ends the message with an error. */
  lemma {:induction false} OthersRefused(other: seq<Field>, p: Progress, s: seq<byte>)
    requires |p.slots| == |other| && s != [] && DecodeTag(s).TagRead? && Unknown(other, DecodeTag(s).tag)
    requires var w := DecodeTag(s).wireType; w != 0 && w != 1 && w != 2 && w != 5
    ensures DecodeLoop(other, p, s) == LoopError
  {
    if other != [] || DecodeTag(s).tag != 0 {
      UnknownStep(other, p, s);
    }
  }

  /** The table has no entry for a tag. */
  predicate Unknown(other: seq<Field>, tag: nat) {
    IndexOf(other, 0, tag).None?
  }

  lemma {:induction false} SkipsKeyed(other: seq<Field>, p: Progress, tag: nat, wireType: nat, body: seq<byte>,
    rest: seq<byte>)
    requires |p.slots| == |other| && 0 < tag < 0x2000_0000 && wireType < 8 && Unknown(other, tag)
    requires SkipField(wireType, body + rest) == Got((), rest)
    ensures DecodeLoop(other, p, Tag(wireType, tag) + body + rest) == DecodeLoop(other, p, rest)
  {
    TagRoundTrip(tag, wireType, body + rest);
    Regroup(Tag(wireType, tag), body, rest);
    UnknownStep(other, p, Tag(wireType, tag) + (body + rest));
  }

  lemma {:induction false} SkipsTagged(other: seq<Field>, p: Progress, f: Field, v: Value, rest: seq<byte>)
    requires |p.slots| == |other| && f.tag < 0x2000_0000 && Unknown(other, f.tag)
    requires TypedValue(f, v) && Tagged(f, v).Some? && |Tagged(f, v).value| < TWO32
    ensures DecodeLoop(other, p, Tagged(f, v).value + rest) == DecodeLoop(other, p, rest)
  {
    SkipsValue(f, v, rest);
    SkipsKeyed(other, p, f.tag, WireType(f).value, EncodeValue(f, v).value, rest);
  }

  lemma {:induction false} SkipsItems(other: seq<Field>, p: Progress, f: Field, items: seq<Value>, rest: seq<byte>)
    requires |p.slots| == |other| && f.tag < 0x2000_0000 && Unknown(other, f.tag)
    requires forall v <- items :: TypedValue(f, v)
    requires EncodeTaggedItems(f, items).Some? && |EncodeTaggedItems(f, items).value| < TWO32
    ensures DecodeLoop(other, p, EncodeTaggedItems(f, items).value + rest) == DecodeLoop(other, p, rest)
    decreases |items|
  {
    if items == [] {
      assert EncodeTaggedItems(f, items).value + rest == rest;
    } else {
      var head, tail := Tagged(f, items[0]).value, EncodeTaggedItems(f, items[1..]).value;
      assert EncodeTaggedItems(f, items) == Append(Tagged(f, items[0]), EncodeTaggedItems(f, items[1..]));
      Regroup(head, tail, rest);
      SkipsTagged(other, p, f, items[0], tail + rest);
      SkipsItems(other, p, f, items[1..], rest);
    }
  }

  lemma {:induction false} SkipsArray(other: seq<Field>, p: Progress, f: Field, items: seq<Value>, rest: seq<byte>)
    requires |p.slots| == |other| && f.tag < 0x2000_0000 && Unknown(other, f.tag)
    requires forall v <- items :: TypedValue(f, v)
    requires EncodeArray(f, items).Some? && |EncodeArray(f, items).value| < TWO32
    ensures DecodeLoop(other, p, EncodeArray(f, items).value + rest) == DecodeLoop(other, p, rest)
  {
    if items == [] {
      assert EncodeArray(f, items).value + rest == rest;
    } else if f.ltype.Packable() {
      var packed := EncodeItems(f, items).value;
      PrefixedRoundTrip(packed, rest);
      SkipsKeyed(other, p, f.tag, WT_STRING, LengthPrefixed(packed), rest);
    } else {
      SkipsItems(other, p, f, items, rest);
    }
  }

  lemma {:induction false} SkipsField(other: seq<Field>, p: Progress, f: Field, s: Slot, rest: seq<byte>)
    requires |p.slots| == |other| && f.tag < 0x2000_0000 && (f.ltype.Extension? || Unknown(other, f.tag))
    requires TypedSlot(f, s) && EncodeField(f, s).Some? && |EncodeField(f, s).value| < TWO32
    ensures DecodeLoop(other, p, EncodeField(f, s).value + rest) == DecodeLoop(other, p, rest)
  {
    if EncodeField(f, s).value == [] {
      assert EncodeField(f, s).value + rest == rest;
    } else {
      match s
      case Req(v) => SkipsTagged(other, p, f, v, rest);
      case Opt(_, v) => SkipsTagged(other, p, f, v, rest);
      case Sing(v) => SkipsTagged(other, p, f, v, rest);
      case Rep(items) => SkipsArray(other, p, f, items, rest);
      case Member(sel) => SkipsTagged(other, p, f, sel.value, rest);
    }
  }

  /** None of the fields that write anything is known to the other table. */
  predicate Foreign(other: seq<Field>, fields: seq<Field>) {
    forall i :: 0 <= i < |fields| ==> fields[i].ltype.Extension? || Unknown(other, fields[i].tag)
  }

  lemma {:induction false} SkipsFrom(other: seq<Field>, p: Progress, fields: seq<Field>, slots: seq<Slot>, i: nat)
    requires |p.slots| == |other| && WellFormed(fields) && TypedMessage(fields, slots) && Foreign(other, fields) &&
      i <= |fields|
    requires EncodeFrom(fields, slots, i).Some? && |EncodeFrom(fields, slots, i).value| < TWO32
    ensures DecodeLoop(other, p, EncodeFrom(fields, slots, i).value) == LoopDone(p, [], false)
    decreases |fields| - i
  {
    if i < |fields| {
      FromFirst(fields, slots, i);
      assert WellFormedField(fields[i]) && TypedSlot(fields[i], slots[i]);
      SkipsField(other, p, fields[i], slots[i], EncodeFrom(fields, slots, i + 1).value);
      SkipsFrom(other, p, fields, slots, i + 1);
    }
  }

  /** An encoding read under a table that knows none of its fields: all of it is consumed, and the struct
      is left as it was. It is refused only for what the other table requires. */
  lemma {:induction false} EncodingIsSkippable(other: seq<Field>, before: seq<Slot>, fields: seq<Field>,
    slots: seq<Slot>)
    requires WellFormed(fields) && TypedMessage(fields, slots) && Foreign(other, fields) && |before| == |other|
    requires EncodeMessage(fields, slots).Some? && |EncodeMessage(fields, slots).value| < TWO32
    ensures var p := Progress(before, {}, None);
      DecodeLoop(other, p, EncodeMessage(fields, slots).value) == LoopDone(p, [], false)
    ensures DecodeNoInit(other, before, EncodeMessage(fields, slots).value)
      == if RequiredBefore(other, |other|) == 0 then Done(before, [], false) else Error
  {
    SkipsFrom(other, Progress(before, {}, None), fields, slots, 0);
    if RequiredBefore(other, |other|) > 0 {
      var seen: set<nat> := {};
      assert 0 !in seen && !RequiredSeen(other, seen);
    }
  }
}
