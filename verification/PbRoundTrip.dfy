/** pb_decode undoes pb_encode. */
module PbRoundTrip {
  import opened Bytes
  import opened PbTypes
  import opened PbVarint
  import opened PbEncode
  import opened PbDecode

  /** What the round trip asks of a table: distinct tags below 2^29, and has-less fields that default to zero. */
  predicate WellFormed(fields: seq<Field>)
    decreases fields
  {
    && DistinctTags(fields)
    && forall i :: 0 <= i < |fields| ==> WellFormedField(fields[i])
  }

  predicate WellFormedField(f: Field)
    decreases f
  {
    && f.tag < 0x2000_0000
    && (f.Singular() ==> f.default.None?)
    && (f.ltype.Extension? ==> f.Singular())
    && (f.ltype.SubMessage? ==> WellFormed(f.ltype.fields))
  }

  // ---- what decoding gives back ----

  function ReceivedValue(f: Field, v: Value): Value
    requires TypedValue(f, v)
    decreases f, 0
  {
    match f.ltype
    case SubMessage(fields) => Msg(Received(fields, v.slots))
    case _ => v
  }

  /** What is absent holds its default, and so does a has-less value that the encoder finds zero. */
  function ReceivedSlot(f: Field, s: Slot): Slot
    requires TypedSlot(f, s)
    decreases f, 1
  {
    match s
    case Req(v) => Req(ReceivedValue(f, v))
    case Opt(has, v) => if has then Opt(true, ReceivedValue(f, v)) else Opt(false, DefaultValue(f))
    case Sing(v) => Sing(if IsZeroValue(f, v) then DefaultValue(f) else ReceivedValue(f, v))
    case Rep(items) => Rep(seq(|items|, k requires 0 <= k < |items| => ReceivedValue(f, items[k])))
    case Member(sel) => if sel.Some? then Member(Some(ReceivedValue(f, sel.value))) else s
  }

  function Received(fields: seq<Field>, slots: seq<Slot>): (r: seq<Slot>)
    requires TypedMessage(fields, slots)
    ensures |r| == |fields|
    decreases fields
  {
    seq(|fields|, i requires 0 <= i < |fields| => ReceivedSlot(fields[i], slots[i]))
  }

  // ---- scalars ----

  lemma {:induction false} ToUint64Range(i: int)
    requires -(TWO63 as int) <= i < TWO63
    ensures ToUint64(i) == if i < 0 then i + TWO64 else i
  {
  }

  lemma {:induction false} IntRoundTrip(f: Field, i: int)
    requires f.ltype.Varint? || f.ltype.UVarint? || f.ltype.SVarint?
    requires TypedValue(f, Int(i))
    ensures IntOf(f, if f.ltype.SVarint? then ZigZag(i) else ToUint64(i)) == Some(i)
  {
    if f.ltype.Varint? {
      ToUint64Range(i);
    } else if f.ltype.SVarint? {
      ZigZagRoundTrip(i);
    }
  }

  lemma {:induction false} ZigZagRoundTrip(i: int)
    requires -(TWO63 as int) <= i < TWO63
    ensures ZigZag(i) == if i < 0 then -2 * i - 1 else 2 * i
    ensures UnZigZag(ZigZag(i)) == i
  {
    ToUint64Range(i);
    if i < 0 {
      assert 2 * ToUint64(i) == TWO64 + (2 * i + TWO64);
      assert 2 * ToUint64(i) % TWO64 == 2 * i + TWO64;
    }
  }

  lemma {:induction false} LittleEndianRoundTrip(w: nat, n: nat, bound: nat)
    requires n in {0, 1, 2, 3, 4, 5, 6, 7, 8} && w < Shl(1, 8 * n)
    ensures LittleEndianValue(LittleEndian(w, n)) == w
  {
    if n > 0 {
      assert LittleEndian(w, n)[1..] == LittleEndian(w / 256, n - 1);
      Shl8(n - 1);
      LittleEndianRoundTrip(w / 256, n - 1, bound);
    }
  }

  lemma {:induction false} Shl8(n: nat)
    ensures Shl(1, 8 * (n + 1)) == 256 * Shl(1, 8 * n)
  {
    var m := 8 * n;
    ShlScale(1, m);
    assert Shl(1, m + 8) == 2 * Shl(1, m + 7);
  }

  lemma {:induction false} TakeAppend(b: seq<byte>, rest: seq<byte>)
    ensures Take(|b|, b + rest) == Got(b, rest)
  {
    assert (b + rest)[..|b|] == b && (b + rest)[|b|..] == rest;
  }

  lemma {:induction false} Varint32Inverts(v: nat, rest: seq<byte>)
    requires v < TWO32
    ensures Varint32(VarintBytes(v) + rest) == Got(v, rest)
  {
    Varint32OfEncoding(v, rest);
    Accepts32Small(v, rest);
  }

  lemma {:induction false} PrefixedRoundTrip(b: seq<byte>, rest: seq<byte>)
    requires |b| < TWO32
    ensures Varint32(LengthPrefixed(b) + rest) == Got(|b|, b + rest)
    ensures TakePrefixed(LengthPrefixed(b) + rest) == Got(b, rest)
  {
    assert LengthPrefixed(b) + rest == VarintBytes(|b|) + (b + rest);
    Varint32Inverts(|b|, b + rest);
    TakeAppend(b, rest);
  }

  lemma {:induction false} ScalarRoundTrip(f: Field, v: Value, dest: Value, rest: seq<byte>)
    requires TypedValue(f, v) && !f.ltype.SubMessage?
    requires EncodeValue(f, v).Some? && |EncodeValue(f, v).value| < TWO32
    ensures DecodeValue(f, dest, EncodeValue(f, v).value + rest) == Got(v, rest)
  {
    var b := EncodeValue(f, v).value;
    match f.ltype
    case Fixed32 =>
      TakeAppend(b, rest);
      ShlWords();
      LittleEndianRoundTrip(v.w, 4, 0);
    case Fixed64 =>
      TakeAppend(b, rest);
      ShlWords();
      LittleEndianRoundTrip(v.w, 8, 0);
    case PbBytes => PrefixedRoundTrip(v.b, rest); TakeAppend(v.b, rest);
    case PbString => PrefixedRoundTrip(v.b, rest); TakeAppend(v.b, rest);
    case FixedLengthBytes => PrefixedRoundTrip(v.b, rest); TakeAppend(v.b, rest);
      if v.b == [] {
        assert v.b + rest == rest && Zeros(0) == [];
      }
    case Varint => IntRoundTrip(f, v.i); Varint64Inverts(ToUint64(v.i), rest);
    case UVarint => IntRoundTrip(f, v.i); Varint64Inverts(ToUint64(v.i), rest);
    case SVarint => IntRoundTrip(f, v.i); Varint64Inverts(ZigZag(v.i), rest);
    case _ =>
  }

  // ---- values, fields and messages ----

  /** The memory a value is decoded into is fresh: defaults, where it is a submessage. */
  predicate Fresh(f: Field, dest: Value) {
    f.ltype.SubMessage? ==> f.htype.Repeated? || !dest.Msg? || dest.slots == Defaults(f.ltype.fields)
  }

  lemma {:induction false} ValueRoundTrip(f: Field, v: Value, dest: Value, rest: seq<byte>)
    requires TypedValue(f, v) && WellFormedField(f) && Fresh(f, dest)
    requires EncodeValue(f, v).Some? && |EncodeValue(f, v).value| < TWO32
    ensures DecodeValue(f, dest, EncodeValue(f, v).value + rest) == Got(ReceivedValue(f, v), rest)
    decreases f, 0
  {
    if f.ltype.SubMessage? {
      var body := EncodeMessage(f.ltype.fields, v.slots).value;
      PrefixedRoundTrip(body, rest);
      MessageRoundTrip(f.ltype.fields, v.slots);
    } else {
      ScalarRoundTrip(f, v, dest, rest);
    }
  }

  /** The struct and the bookkeeping after the first i fields have been received. */
  predicate At(fields: seq<Field>, slots: seq<Slot>, i: nat, p: Progress)
    requires TypedMessage(fields, slots) && i <= |fields|
  {
    && p.slots == Received(fields, slots)[..i] + Defaults(fields)[i..]
    && p.seen == SeenBefore(fields, i)
    && (p.fixedField.Some? ==> p.fixedField.value < i)
    && FixedComplete(fields, p)
  }

  lemma {:induction false} AtSlot(fields: seq<Field>, slots: seq<Slot>, i: nat, p: Progress, j: nat)
    requires TypedMessage(fields, slots) && i <= |fields| && At(fields, slots, i, p) && j < |fields|
    ensures |p.slots| == |fields|
    ensures p.slots[j] == if j < i then ReceivedSlot(fields[j], slots[j]) else DefaultSlot(fields[j])
  {
  }

  lemma {:induction false} OneSlotMore(fields: seq<Field>, slots: seq<Slot>, i: nat, s: seq<Slot>)
    requires TypedMessage(fields, slots) && i < |fields| && s == Received(fields, slots)[..i] + Defaults(fields)[i..]
    ensures s[i := ReceivedSlot(fields[i], slots[i])] == Received(fields, slots)[..i + 1] + Defaults(fields)[i + 1..]
    ensures s[i] == DefaultSlot(fields[i])
  {
  }

  function SeenBefore(fields: seq<Field>, i: nat): set<nat>
    requires i <= |fields|
  {
    if i == 0 then {}
    else if fields[i - 1].htype.Required? && RequiredBefore(fields, i - 1) < PB_MAX_REQUIRED_FIELDS then
      SeenBefore(fields, i - 1) + {RequiredBefore(fields, i - 1)}
    else SeenBefore(fields, i - 1)
  }

  lemma {:induction false} SeenBeforeIsAll(fields: seq<Field>, i: nat, k: nat)
    requires i <= |fields| && k < RequiredBefore(fields, i) && k < PB_MAX_REQUIRED_FIELDS
    ensures k in SeenBefore(fields, i)
  {
    if k < RequiredBefore(fields, i - 1) {
      SeenBeforeIsAll(fields, i - 1, k);
    }
  }

  /** Decoding a tag of field i goes to its decoder. */
  lemma {:induction false} TagStep(fields: seq<Field>, p: Progress, i: nat, wireType: nat, rest: seq<byte>)
    requires WellFormed(fields) && i < |fields| == |p.slots| && !fields[i].ltype.Extension? && wireType < 8
    ensures DecodeLoop(fields, p, Tag(wireType, fields[i].tag) + rest) ==
      match Arrive(fields, p, i) {
        case None => LoopError
        case Some(q) =>
          match DecodeField(fields, q.slots, i, wireType, rest) {
            case Fail => LoopError
            case Got(slots, r) => DecodeLoop(fields, q.(slots := slots), r)
          }
      }
  {
    TagRoundTrip(fields[i].tag, wireType, rest);
    LookUp(fields, i);
    KnownStep(fields, p, Tag(wireType, fields[i].tag) + rest, i);
  }

  lemma {:induction false} TagRoundTrip(tag: nat, wireType: nat, rest: seq<byte>)
    requires 0 < tag < 0x2000_0000 && wireType < 8
    ensures Tag(wireType, tag) + rest != [] && DecodeTag(Tag(wireType, tag) + rest) == TagRead(wireType, tag, rest)
  {
    Varint32Inverts(8 * tag + wireType, rest);
    assert (8 * tag + wireType) / 8 == tag && (8 * tag + wireType) % 8 == wireType;
  }

  lemma {:induction false} LookUp(fields: seq<Field>, i: nat)
    requires DistinctTags(fields) && i < |fields| && !fields[i].ltype.Extension?
    ensures IndexOf(fields, 0, fields[i].tag) == Some(i)
  {
    assert Matches(fields[i], fields[i].tag);
  }

  /** Arriving is idempotent, so a field's first tag may be taken as already arrived at. */
  lemma {:induction false} ArriveFirst(fields: seq<Field>, p: Progress, i: nat, q: Progress, wireType: nat,
    rest: seq<byte>)
    requires WellFormed(fields) && i < |fields| == |p.slots| && !fields[i].ltype.Extension? && wireType < 8
    requires Arrive(fields, p, i) == Some(q) && Arrive(fields, q, i) == Some(q)
    ensures DecodeLoop(fields, p, Tag(wireType, fields[i].tag) + rest)
      == DecodeLoop(fields, q, Tag(wireType, fields[i].tag) + rest)
  {
    TagStep(fields, p, i, wireType, rest);
    TagStep(fields, q, i, wireType, rest);
  }

  /** A packed run of elements. */
  lemma {:induction false} PackedRoundTrip(f: Field, a: seq<Value>, items: seq<Value>)
    requires WellFormedField(f) && f.ltype.Packable() && forall v <- items :: TypedValue(f, v)
    requires EncodeItems(f, items).Some? && |EncodeItems(f, items).value| < TWO32 && |a| + |items| <= f.arraySize
    ensures DecodePacked(f, a, EncodeItems(f, items).value) == Some(a + items)
    decreases |items|
  {
    if items == [] {
      assert a + items == a;
    } else {
      var head, tail := EncodeValue(f, items[0]).value, EncodeItems(f, items[1..]).value;
      ScalarRoundTrip(f, items[0], Int(0), tail);
      EncodedNonempty(f, items[0]);
      PackedRoundTrip(f, a + [items[0]], items[1..]);
      assert a + [items[0]] + items[1..] == a + items;
    }
  }

  lemma {:induction false} EncodedNonempty(f: Field, v: Value)
    requires TypedValue(f, v) && EncodeValue(f, v).Some?
    ensures EncodeValue(f, v).value != []
  {
  }

  /** One separately tagged element. */
  lemma {:induction false} ItemRoundTrip(fields: seq<Field>, p: Progress, i: nat, v: Value, rest: seq<byte>)
    requires WellFormed(fields) && i < |fields| == |p.slots| && fields[i].htype.Repeated? && !fields[i].ltype.Packable()
    requires TypedValue(fields[i], v) && Tagged(fields[i], v).Some? && |Tagged(fields[i], v).value| < TWO32
    requires |Items(p.slots[i])| < fields[i].arraySize && Arrive(fields, p, i) == Some(p)
    ensures DecodeLoop(fields, p, Tagged(fields[i], v).value + rest)
      == DecodeLoop(fields, WithItems(p, i, [ReceivedValue(fields[i], v)]), rest)
    decreases fields, 1
  {
    var f := fields[i];
    var wt, b := WireType(f).value, EncodeValue(f, v).value;
    assert Tagged(f, v).value + rest == Tag(wt, f.tag) + (b + rest);
    ItemBody(fields, p.slots, i, v, wt, rest);
    TagStep(fields, p, i, wt, b + rest);
  }

  lemma {:induction false} ItemBody(fields: seq<Field>, slots: seq<Slot>, i: nat, v: Value, wireType: nat,
    rest: seq<byte>)
    requires WellFormed(fields) && i < |fields| == |slots| && fields[i].htype.Repeated? && !fields[i].ltype.Packable()
    requires TypedValue(fields[i], v) && EncodeValue(fields[i], v).Some? && |EncodeValue(fields[i], v).value| < TWO32
    requires |Items(slots[i])| < fields[i].arraySize
    ensures DecodeField(fields, slots, i, wireType, EncodeValue(fields[i], v).value + rest)
      == Got(slots[i := Rep(Items(slots[i]) + [ReceivedValue(fields[i], v)])], rest)
    decreases fields, 0
  {
    assert WellFormedField(fields[i]);
    ValueRoundTrip(fields[i], v, Int(0), rest);
  }

  /** A run of separately tagged elements. */
  lemma {:induction false} TaggedItemsRoundTrip(fields: seq<Field>, p: Progress, i: nat, items: seq<Value>,
    rest: seq<byte>)
    requires WellFormed(fields) && i < |fields| == |p.slots| && fields[i].htype.Repeated? && !fields[i].ltype.Packable()
    requires forall v <- items :: TypedValue(fields[i], v)
    requires EncodeTaggedItems(fields[i], items).Some? && |EncodeTaggedItems(fields[i], items).value| < TWO32
    requires |Items(p.slots[i])| + |items| <= fields[i].arraySize
    requires p.slots[i].Rep? && Arrive(fields, p, i) == Some(p)
    ensures DecodeLoop(fields, p, EncodeTaggedItems(fields[i], items).value + rest)
      == DecodeLoop(fields, WithItems(p, i, ReceivedItems(fields[i], items)), rest)
    decreases fields, 2, |items|
  {
    var f := fields[i];
    if items == [] {
      assert EncodeTaggedItems(f, items).value + rest == rest;
      assert ReceivedItems(f, items) == [];
      WithItemsNil(p, i);
    } else {
      assert EncodeTaggedItems(f, items) == Append(Tagged(f, items[0]), EncodeTaggedItems(f, items[1..]));
      var more := EncodeTaggedItems(f, items[1..]).value + rest;
      assert EncodeTaggedItems(f, items).value + rest == Tagged(f, items[0]).value + more;
      ItemRoundTrip(fields, p, i, items[0], more);
      var q := WithItems(p, i, [ReceivedValue(f, items[0])]);
      TaggedItemsRoundTrip(fields, q, i, items[1..], rest);
      ReceivedItemsCons(f, items);
      WithItemsTwice(p, i, [ReceivedValue(f, items[0])], ReceivedItems(f, items[1..]));
    }
  }

  lemma {:induction false} ReceivedItemsCons(f: Field, items: seq<Value>)
    requires items != [] && forall v <- items :: TypedValue(f, v)
    ensures ReceivedItems(f, items) == [ReceivedValue(f, items[0])] + ReceivedItems(f, items[1..])
  {
  }

  lemma {:induction false} WithItemsNil(p: Progress, i: nat)
    requires i < |p.slots| && p.slots[i].Rep?
    ensures WithItems(p, i, []) == p
  {
    assert p.slots[i].items + [] == p.slots[i].items;
  }

  lemma {:induction false} WithItemsTwice(p: Progress, i: nat, a: seq<Value>, b: seq<Value>)
    requires i < |p.slots|
    ensures WithItems(WithItems(p, i, a), i, b) == WithItems(p, i, a + b)
  {
    assert (Items(p.slots[i]) + a) + b == Items(p.slots[i]) + (a + b);
  }

  function ReceivedItems(f: Field, items: seq<Value>): seq<Value>
    requires forall v <- items :: TypedValue(f, v)
  {
    seq(|items|, k requires 0 <= k < |items| => ReceivedValue(f, items[k]))
  }

  function WithItems(p: Progress, i: nat, items: seq<Value>): Progress
    requires i < |p.slots|
  {
    p.(slots := p.slots[i := Rep(Items(p.slots[i]) + items)])
  }

  /** A field that writes nothing already holds what is received, which is the default. */
  lemma {:induction false} AbsentRoundTrip(fields: seq<Field>, slots: seq<Slot>, i: nat, p: Progress)
    requires WellFormed(fields) && TypedMessage(fields, slots) && i < |fields|
    requires At(fields, slots, i, p) && EncodeField(fields[i], slots[i]) == Some([])
    ensures At(fields, slots, i + 1, p)
  {
    var f, s := fields[i], slots[i];
    assert TypedSlot(f, s) && WellFormedField(f);
    NotRequired(f, s);
    if f.htype.Repeated? {
      ArrayNonempty(f, s.items);
    }
    assert ReceivedSlot(f, s) == DefaultSlot(f);
    OneSlotMore(fields, slots, i, p.slots);
    assert p.slots[i := DefaultSlot(f)] == p.slots;
    assert SeenBefore(fields, i + 1) == SeenBefore(fields, i);
  }

  /** A required field always writes something. */
  lemma {:induction false} NotRequired(f: Field, s: Slot)
    requires TypedSlot(f, s) && WellFormedField(f) && EncodeField(f, s) == Some([])
    ensures !f.htype.Required?
  {
  }

  lemma {:induction false} ArrayNonempty(f: Field, items: seq<Value>)
    requires forall v <- items :: TypedValue(f, v)
    requires EncodeArray(f, items).Some?
    ensures EncodeArray(f, items).value == [] <==> items == []
  {
    if items != [] && !f.ltype.Packable() {
      assert EncodeArray(f, items) == Append(Tagged(f, items[0]), EncodeTaggedItems(f, items[1..]));
    }
  }

  /** The state on arriving at field i, before its value is decoded. */
  lemma {:induction false} ArriveAt(fields: seq<Field>, slots: seq<Slot>, i: nat, p: Progress) returns (q: Progress)
    requires WellFormed(fields) && TypedMessage(fields, slots) && i < |fields| && At(fields, slots, i, p)
    ensures Arrive(fields, p, i) == Some(q) && Arrive(fields, q, i) == Some(q) && |q.slots| == |fields|
    ensures q.slots == p.slots && q.seen == SeenBefore(fields, i + 1)
    ensures q.fixedField == if fields[i].FixedCount() then Some(i) else p.fixedField
  {
    q := Arrive(fields, p, i).value;
    assert p.slots[i] == DefaultSlot(fields[i]);
    assert q.slots == p.slots;
    assert q.seen == SeenBefore(fields, i + 1);
    assert Arrive(fields, q, i).value.seen == q.seen;
  }

  /** v is what a field that is present as a single value holds. */
  predicate Present(s: Slot, v: Value) {
    match s
    case Req(w) => v == w
    case Opt(has, w) => has && v == w
    case Sing(w) => v == w
    case Rep(_) => false
    case Member(sel) => sel == Some(v)
  }

  lemma {:induction false} DefaultIsFresh(f: Field)
    ensures Fresh(f, Content(DefaultSlot(f)))
  {
    if f.ltype.SubMessage? {
      assert DefaultValue(f) == Msg(Defaults(f.ltype.fields));
    }
  }

  /** Decoding that value into the defaults stores the slot received. */
  lemma {:induction false} SingleValue(fields: seq<Field>, slots: seq<Slot>, i: nat, p: Progress, v: Value,
    wireType: nat, rest: seq<byte>)
    requires WellFormed(fields) && TypedMessage(fields, slots) && i < |fields| && At(fields, slots, i, p)
    requires Present(slots[i], v) && TypedValue(fields[i], v) && (fields[i].Singular() ==> !IsZeroValue(fields[i], v))
    requires EncodeValue(fields[i], v).Some? && |EncodeValue(fields[i], v).value| < TWO32
    ensures DecodeField(fields, p.slots, i, wireType, EncodeValue(fields[i], v).value + rest)
      == Got(p.slots[i := ReceivedSlot(fields[i], slots[i])], rest)
    decreases fields, 1
  {
    var f := fields[i];
    assert TypedSlot(f, slots[i]) && WellFormedField(f);
    assert p.slots[i] == DefaultSlot(f);
    DefaultIsFresh(f);
    var dest := if f.htype.OneOf? then Int(0) else Content(p.slots[i]);
    ValueRoundTrip(f, v, dest, rest);
    if f.htype.OneOf? {
      SelectFirst(fields, slots, i, p, ReceivedValue(f, v));
    }
  }

  /** A field written as one tagged value. */
  lemma {:induction false} SingleRoundTrip(fields: seq<Field>, slots: seq<Slot>, i: nat, p: Progress, v: Value,
    rest: seq<byte>) returns (q: Progress)
    requires WellFormed(fields) && TypedMessage(fields, slots) && i < |fields| && At(fields, slots, i, p)
    requires Present(slots[i], v) && TypedValue(fields[i], v) && (fields[i].Singular() ==> !IsZeroValue(fields[i], v))
    requires Tagged(fields[i], v).Some? && |Tagged(fields[i], v).value| < TWO32
    ensures At(fields, slots, i + 1, q)
    ensures DecodeLoop(fields, p, Tagged(fields[i], v).value + rest) == DecodeLoop(fields, q, rest)
    decreases fields, 2
  {
    var f := fields[i];
    var wt, b := WireType(f).value, EncodeValue(f, v).value;
    assert Tagged(f, v).value + rest == Tag(wt, f.tag) + (b + rest);
    var a := ArriveAt(fields, slots, i, p);
    TagStep(fields, p, i, wt, b + rest);
    SingleValue(fields, slots, i, p, v, wt, rest);
    q := a.(slots := p.slots[i := ReceivedSlot(f, slots[i])]);
    assert TypedSlot(f, slots[i]);
    AfterField(fields, slots, i, p, q);
  }

  /** Selecting member i deselects nothing: earlier members of its union are not selected, later ones not yet. */
  lemma {:induction false} SelectFirst(fields: seq<Field>, slots: seq<Slot>, i: nat, p: Progress, v: Value)
    requires WellFormed(fields) && TypedMessage(fields, slots) && i < |fields| && At(fields, slots, i, p)
    requires fields[i].htype.OneOf? && slots[i].Member? && slots[i].selected.Some?
    ensures Select(fields, p.slots, i, v) == p.slots[i := Member(Some(v))]
  {
    forall j | 0 <= j < |fields| && j != i && SameUnion(fields, i, j)
      ensures p.slots[j] == Member(None)
    {
      assert TypedSlot(fields[j], slots[j]);
      AtSlot(fields, slots, i, p, j);
      if j < i {
        assert SameUnion(fields, j, i);
      }
    }
  }

  /** A repeated field with elements. */
  lemma {:induction false} ArrayRoundTrip(fields: seq<Field>, slots: seq<Slot>, i: nat, p: Progress, rest: seq<byte>)
    returns (q: Progress)
    requires WellFormed(fields) && TypedMessage(fields, slots) && i < |fields| && At(fields, slots, i, p)
    requires fields[i].htype.Repeated? && slots[i].Rep? && slots[i].items != []
    requires (forall v <- slots[i].items :: TypedValue(fields[i], v)) && EncodeArray(fields[i], slots[i].items).Some?
    requires |EncodeArray(fields[i], slots[i].items).value| < TWO32
    ensures At(fields, slots, i + 1, q)
    ensures DecodeLoop(fields, p, EncodeArray(fields[i], slots[i].items).value + rest) == DecodeLoop(fields, q, rest)
    decreases fields, 3
  {
    var f, items := fields[i], slots[i].items;
    var a := ArriveAt(fields, slots, i, p);
    assert p.slots[i] == Rep([]) && WellFormedField(f);
    q := WithItems(a, i, ReceivedItems(f, items));
    assert [] + ReceivedItems(f, items) == ReceivedItems(f, items);
    if f.ltype.Packable() {
      PackedField(fields, p, i, items, a, rest);
    } else {
      UnpackedField(fields, p, i, items, a, rest);
    }
    AfterField(fields, slots, i, p, q);
  }

  /** An unpacked field as a whole. */
  lemma {:induction false} UnpackedField(fields: seq<Field>, p: Progress, i: nat, items: seq<Value>, a: Progress,
    rest: seq<byte>)
    requires WellFormed(fields) && i < |fields| == |p.slots| && fields[i].htype.Repeated? && !fields[i].ltype.Packable()
    requires items != [] && (forall v <- items :: TypedValue(fields[i], v)) && EncodeArray(fields[i], items).Some?
    requires |EncodeArray(fields[i], items).value| < TWO32
    requires Arrive(fields, p, i) == Some(a) && Arrive(fields, a, i) == Some(a) && |a.slots| == |fields|
    requires a.slots[i] == Rep([])
    ensures DecodeLoop(fields, p, EncodeArray(fields[i], items).value + rest)
      == DecodeLoop(fields, WithItems(a, i, ReceivedItems(fields[i], items)), rest)
    decreases fields, 2, |items| + 1
  {
    var f := fields[i];
    assert EncodeTaggedItems(f, items) == Append(Tagged(f, items[0]), EncodeTaggedItems(f, items[1..]));
    var more := EncodeTaggedItems(f, items[1..]).value + rest;
    assert EncodeArray(f, items).value + rest == Tag(WireType(f).value, f.tag)
      + (EncodeValue(f, items[0]).value + more);
    ArriveFirst(fields, p, i, a, WireType(f).value, EncodeValue(f, items[0]).value + more);
    TaggedItemsRoundTrip(fields, a, i, items, rest);
  }

  /** A packed field as a whole. */
  lemma {:induction false} PackedField(fields: seq<Field>, p: Progress, i: nat, items: seq<Value>, a: Progress,
    rest: seq<byte>)
    requires WellFormed(fields) && i < |fields| == |p.slots| && fields[i].htype.Repeated? && fields[i].ltype.Packable()
    requires items != [] && (forall v <- items :: TypedValue(fields[i], v)) && EncodeArray(fields[i], items).Some?
    requires |EncodeArray(fields[i], items).value| < TWO32
    requires Arrive(fields, p, i) == Some(a) && |a.slots| == |fields| && a.slots[i] == Rep([])
    ensures DecodeLoop(fields, p, EncodeArray(fields[i], items).value + rest)
      == DecodeLoop(fields, WithItems(a, i, ReceivedItems(fields[i], items)), rest)
  {
    var f := fields[i];
    assert WellFormedField(f);
    var b := EncodeItems(f, items).value;
    assert EncodeArray(f, items).value + rest == Tag(WT_STRING, f.tag) + (LengthPrefixed(b) + rest);
    TagStep(fields, p, i, WT_STRING, LengthPrefixed(b) + rest);
    PackedBody(fields, a.slots, i, items, rest);
    assert [] + ReceivedItems(f, items) == ReceivedItems(f, items);
  }

  lemma {:induction false} PackedBody(fields: seq<Field>, slots: seq<Slot>, i: nat, items: seq<Value>, rest: seq<byte>)
    requires WellFormed(fields) && i < |fields| == |slots| && fields[i].htype.Repeated? && fields[i].ltype.Packable()
    requires items != [] && (forall v <- items :: TypedValue(fields[i], v)) && EncodeItems(fields[i], items).Some?
    requires |EncodeItems(fields[i], items).value| < TWO32 && |items| <= fields[i].arraySize
    requires slots[i] == Rep([])
    ensures DecodeField(fields, slots, i, WT_STRING, LengthPrefixed(EncodeItems(fields[i], items).value) + rest)
      == Got(slots[i := Rep(ReceivedItems(fields[i], items))], rest)
  {
    var f := fields[i];
    assert WellFormedField(f);
    PrefixedRoundTrip(EncodeItems(f, items).value, rest);
    PackedRoundTrip(f, [], items);
    assert [] + items == items == ReceivedItems(f, items);
  }

  lemma {:induction false} AfterField(fields: seq<Field>, slots: seq<Slot>, i: nat, p: Progress, q: Progress)
    requires WellFormed(fields) && TypedMessage(fields, slots) && i < |fields| && At(fields, slots, i, p)
    requires q.slots == p.slots[i := ReceivedSlot(fields[i], slots[i])] && q.seen == SeenBefore(fields, i + 1)
    requires q.fixedField == if fields[i].FixedCount() then Some(i) else p.fixedField
    ensures At(fields, slots, i + 1, q)
  {
    assert TypedSlot(fields[i], slots[i]);
    OneSlotMore(fields, slots, i, p.slots);
  }

  lemma {:induction false} FieldRoundTrip(fields: seq<Field>, slots: seq<Slot>, i: nat, p: Progress, rest: seq<byte>)
    returns (q: Progress)
    requires WellFormed(fields) && TypedMessage(fields, slots) && i < |fields| && At(fields, slots, i, p)
    requires EncodeField(fields[i], slots[i]).Some? && |EncodeField(fields[i], slots[i]).value| < TWO32
    ensures At(fields, slots, i + 1, q)
    ensures DecodeLoop(fields, p, EncodeField(fields[i], slots[i]).value + rest) == DecodeLoop(fields, q, rest)
    decreases fields, 4
  {
    var f, s := fields[i], slots[i];
    assert TypedSlot(f, s);
    if EncodeField(f, s).value == [] {
      AbsentRoundTrip(fields, slots, i, p);
      assert [] + rest == rest;
      q := p;
    } else {
      match s
      case Req(v) => q := SingleRoundTrip(fields, slots, i, p, v, rest);
      case Opt(_, v) => q := SingleRoundTrip(fields, slots, i, p, v, rest);
      case Sing(v) => q := SingleRoundTrip(fields, slots, i, p, v, rest);
      case Rep(_) => q := ArrayRoundTrip(fields, slots, i, p, rest);
      case Member(sel) => q := SingleRoundTrip(fields, slots, i, p, sel.value, rest);
    }
  }

  lemma {:induction false} LoopRoundTrip(fields: seq<Field>, slots: seq<Slot>, i: nat, p: Progress)
    returns (q: Progress)
    requires WellFormed(fields) && TypedMessage(fields, slots) && i <= |fields| && At(fields, slots, i, p)
    requires EncodeFrom(fields, slots, i).Some? && |EncodeFrom(fields, slots, i).value| < TWO32
    ensures At(fields, slots, |fields|, q)
    ensures DecodeLoop(fields, p, EncodeFrom(fields, slots, i).value) == LoopDone(q, [], false)
    decreases fields, 5, 1 + |fields| - i
  {
    if i == |fields| {
      NothingLeft(fields, slots, p);
      q := p;
    } else {
      q := NextRoundTrip(fields, slots, i, p);
      q := LoopRoundTrip(fields, slots, i + 1, q);
    }
  }

  lemma {:induction false} NothingLeft(fields: seq<Field>, slots: seq<Slot>, p: Progress)
    requires TypedMessage(fields, slots) && |p.slots| == |fields|
    ensures EncodeFrom(fields, slots, |fields|) == Some([]) && DecodeLoop(fields, p, []) == LoopDone(p, [], false)
  {
  }

  lemma {:induction false} NextRoundTrip(fields: seq<Field>, slots: seq<Slot>, i: nat, p: Progress)
    returns (q: Progress)
    requires WellFormed(fields) && TypedMessage(fields, slots) && i < |fields| && At(fields, slots, i, p)
    requires EncodeFrom(fields, slots, i).Some? && |EncodeFrom(fields, slots, i).value| < TWO32
    ensures At(fields, slots, i + 1, q)
    ensures EncodeFrom(fields, slots, i + 1).Some? && |EncodeFrom(fields, slots, i + 1).value| < TWO32
    ensures DecodeLoop(fields, p, EncodeFrom(fields, slots, i).value)
      == DecodeLoop(fields, q, EncodeFrom(fields, slots, i + 1).value)
    decreases fields, 5, 0
  {
    FromFirst(fields, slots, i);
    q := FieldRoundTrip(fields, slots, i, p, EncodeFrom(fields, slots, i + 1).value);
  }

  lemma {:induction false} FromFirst(fields: seq<Field>, slots: seq<Slot>, i: nat)
    requires TypedMessage(fields, slots) && i < |fields| && EncodeFrom(fields, slots, i).Some?
    ensures EncodeField(fields[i], slots[i]).Some? && EncodeFrom(fields, slots, i + 1).Some?
    ensures EncodeFrom(fields, slots, i).value
      == EncodeField(fields[i], slots[i]).value + EncodeFrom(fields, slots, i + 1).value
  {
  }

  /** Decoding what was encoded, into fresh memory, succeeds, takes all of it and gives back the message. */
  lemma {:induction false} MessageRoundTrip(fields: seq<Field>, slots: seq<Slot>)
    requires WellFormed(fields) && TypedMessage(fields, slots)
    requires EncodeMessage(fields, slots).Some? && |EncodeMessage(fields, slots).value| < TWO32
    ensures DecodeNoInit(fields, Defaults(fields), EncodeMessage(fields, slots).value)
      == Done(Received(fields, slots), [], false)
    decreases fields, 6
  {
    var p := Progress(Defaults(fields), {}, None);
    AtStart(fields, slots);
    var q := LoopRoundTrip(fields, slots, 0, p);
    AtEnd(fields, slots, q);
  }

  lemma {:induction false} AtStart(fields: seq<Field>, slots: seq<Slot>)
    requires TypedMessage(fields, slots)
    ensures At(fields, slots, 0, Progress(Defaults(fields), {}, None))
    ensures EncodeFrom(fields, slots, 0) == EncodeMessage(fields, slots)
  {
  }

  /** With every field received, the message is as received and nothing is missing. */
  lemma {:induction false} AtEnd(fields: seq<Field>, slots: seq<Slot>, q: Progress)
    requires TypedMessage(fields, slots) && At(fields, slots, |fields|, q)
    ensures q.slots == Received(fields, slots) && FixedComplete(fields, q) && RequiredSeen(fields, q.seen)
  {
    forall k: nat | k < RequiredBefore(fields, |fields|) && k < PB_MAX_REQUIRED_FIELDS ensures k in q.seen {
      SeenBeforeIsAll(fields, |fields|, k);
    }
    assert q.slots == Received(fields, slots);
  }

  // ---- the message itself: only what is absent holds its default ----

  function CanonValue(f: Field, v: Value): Value
    requires TypedValue(f, v)
    decreases f, 0
  {
    match f.ltype
    case SubMessage(fields) => Msg(Canon(fields, v.slots))
    case _ => v
  }

  function CanonSlot(f: Field, s: Slot): Slot
    requires TypedSlot(f, s)
    decreases f, 1
  {
    match s
    case Req(v) => Req(CanonValue(f, v))
    case Opt(has, v) => if has then Opt(true, CanonValue(f, v)) else Opt(false, DefaultValue(f))
    case Sing(v) => Sing(CanonValue(f, v))
    case Rep(items) => Rep(seq(|items|, k requires 0 <= k < |items| => CanonValue(f, items[k])))
    case Member(sel) => if sel.Some? then Member(Some(CanonValue(f, sel.value))) else s
  }

  function Canon(fields: seq<Field>, slots: seq<Slot>): (r: seq<Slot>)
    requires TypedMessage(fields, slots)
    ensures |r| == |fields|
    decreases fields
  {
    seq(|fields|, i requires 0 <= i < |fields| => CanonSlot(fields[i], slots[i]))
  }

  function CanonItems(f: Field, items: seq<Value>): seq<Value>
    requires forall v <- items :: TypedValue(f, v)
  {
    seq(|items|, k requires 0 <= k < |items| => CanonValue(f, items[k]))
  }

  lemma {:induction false} CanonItemsCons(f: Field, items: seq<Value>)
    requires items != [] && forall v <- items :: TypedValue(f, v)
    ensures CanonItems(f, items) == [CanonValue(f, items[0])] + CanonItems(f, items[1..])
  {
  }

  // ---- what is lost ----

  /** A has-less value that is found zero holds no element of a fixed-count array, however deep in has-less
      submessages: none was mistaken for a count of zero. */
  predicate NoneMistaken(f: Field, v: Value)
    requires TypedValue(f, v)
    decreases f, 0
  {
    f.ltype.SubMessage? ==>
      TypedMessage(f.ltype.fields, v.slots) &&
      forall i :: 0 <= i < |f.ltype.fields| ==> NoneMistakenIn(f.ltype.fields[i], v.slots[i])
  }

  predicate NoneMistakenIn(f: Field, s: Slot)
    requires TypedSlot(f, s)
    decreases f, 1
  {
    (f.FixedCount() ==> s.items == []) && (f.Singular() ==> NoneMistaken(f, s.v))
  }

  /** Every has-less submessage that the encoder finds zero is so. */
  predicate Kept(fields: seq<Field>, slots: seq<Slot>)
    requires TypedMessage(fields, slots)
    decreases fields
  {
    forall i :: 0 <= i < |fields| ==> SlotKept(fields[i], slots[i])
  }

  predicate ValueKept(f: Field, v: Value)
    requires TypedValue(f, v)
    decreases f, 0
  {
    f.ltype.SubMessage? ==> Kept(f.ltype.fields, v.slots)
  }

  predicate SlotKept(f: Field, s: Slot)
    requires TypedSlot(f, s)
    decreases f, 1
  {
    match s
    case Req(v) => ValueKept(f, v)
    case Opt(has, v) => has ==> ValueKept(f, v)
    case Sing(v) => if IsZeroValue(f, v) then NoneMistaken(f, v) else ValueKept(f, v)
    case Rep(items) => forall k :: 0 <= k < |items| ==> ValueKept(f, items[k])
    case Member(sel) => sel.Some? ==> ValueKept(f, sel.value)
  }

  /** A has-less value found zero is its field's default exactly when no count was mistaken in it. */
  lemma {:induction false} ZeroIsDefault(f: Field, v: Value)
    requires WellFormedField(f) && f.Singular() && TypedValue(f, v) && IsZeroValue(f, v)
    ensures CanonValue(f, v) == DefaultValue(f) <==> NoneMistaken(f, v)
    decreases f, 0
  {
    match f.ltype
    case SubMessage(fields) =>
      assert TypedMessage(fields, v.slots);
      forall i | 0 <= i < |fields|
        ensures CanonSlot(fields[i], v.slots[i]) == DefaultSlot(fields[i]) <==> NoneMistakenIn(fields[i], v.slots[i])
      {
        assert IsProto3Default(fields[i], v.slots[i]) && WellFormedField(fields[i]);
        ZeroSlot(fields[i], v.slots[i]);
      }
      SameSlots(Canon(fields, v.slots), Defaults(fields));
    case PbString => assert v.b == CString(v.b);
    case FixedLengthBytes => assert v.b == Zeros(0);
    case _ =>
  }

  lemma {:induction false} SameSlots(a: seq<Slot>, b: seq<Slot>)
    requires |a| == |b|
    ensures a == b <==> forall i :: 0 <= i < |a| ==> a[i] == b[i]
  {
  }

  lemma {:induction false} ZeroSlot(f: Field, s: Slot)
    requires WellFormedField(f) && TypedSlot(f, s) && IsProto3Default(f, s)
    ensures CanonSlot(f, s) == DefaultSlot(f) <==> NoneMistakenIn(f, s)
    decreases f, 1
  {
    if f.Singular() {
      ZeroIsDefault(f, s.v);
    } else if f.htype.Repeated? {
      assert |CanonSlot(f, s).items| == |s.items|;
    }
  }

  lemma {:induction false} KeptValue(f: Field, v: Value)
    requires WellFormedField(f) && TypedValue(f, v)
    ensures ReceivedValue(f, v) == CanonValue(f, v) <==> ValueKept(f, v)
    decreases f, 0
  {
    if f.ltype.SubMessage? {
      KeptExactly(f.ltype.fields, v.slots);
    }
  }

  lemma {:induction false} KeptSlot(f: Field, s: Slot)
    requires WellFormedField(f) && TypedSlot(f, s)
    ensures ReceivedSlot(f, s) == CanonSlot(f, s) <==> SlotKept(f, s)
    decreases f, 2
  {
    match s
    case Req(v) => KeptValue(f, v);
    case Opt(has, v) => if has { KeptValue(f, v); }
    case Sing(v) => if IsZeroValue(f, v) { ZeroIsDefault(f, v); } else { KeptValue(f, v); }
    case Rep(items) =>
      KeptItems(f, items);
      assert ReceivedSlot(f, s) == Rep(ReceivedItems(f, items)) && CanonSlot(f, s) == Rep(CanonItems(f, items));
    case Member(sel) => if sel.Some? { KeptValue(f, sel.value); }
  }

  lemma {:induction false} KeptItems(f: Field, items: seq<Value>)
    requires WellFormedField(f) && forall v <- items :: TypedValue(f, v)
    ensures ReceivedItems(f, items) == CanonItems(f, items) <==> forall k :: 0 <= k < |items| ==> ValueKept(f, items[k])
    decreases f, 1
  {
    var a, b := ReceivedItems(f, items), CanonItems(f, items);
    forall k | 0 <= k < |items| ensures a[k] == b[k] <==> ValueKept(f, items[k]) {
      KeptValue(f, items[k]);
    }
    assert a == b <==> forall k :: 0 <= k < |items| ==> a[k] == b[k];
  }

  /** What decoding gives back is the message exactly when no count was mistaken. */
  lemma {:induction false} KeptExactly(fields: seq<Field>, slots: seq<Slot>)
    requires WellFormed(fields) && TypedMessage(fields, slots)
    ensures Received(fields, slots) == Canon(fields, slots) <==> Kept(fields, slots)
    decreases fields
  {
    var a, b := Received(fields, slots), Canon(fields, slots);
    forall i | 0 <= i < |fields| ensures a[i] == b[i] <==> SlotKept(fields[i], slots[i]) {
      assert TypedSlot(fields[i], slots[i]) && WellFormedField(fields[i]);
      KeptSlot(fields[i], slots[i]);
    }
    SameSlots(a, b);
  }

  /** pb_decode after pb_encode, for every well-formed table and every message it can hold: it gives the
      message back if and only if no fixed-count array was mistaken for an empty one. */
  lemma {:induction false} DecodeInvertsEncode(fields: seq<Field>, slots: seq<Slot>)
    requires WellFormed(fields) && TypedMessage(fields, slots)
    requires EncodeMessage(fields, slots).Some? && |EncodeMessage(fields, slots).value| < TWO32
    ensures Decode(fields, EncodeMessage(fields, slots).value) == Done(Received(fields, slots), [], false)
    ensures Decode(fields, EncodeMessage(fields, slots).value) == Done(Canon(fields, slots), [], false) <==>
      Kept(fields, slots)
  {
    MessageRoundTrip(fields, slots);
    KeptExactly(fields, slots);
  }

  lemma {:induction false} ZeroImage(n: nat, k: nat)
    requires k < n
    ensures Image(0, n)[k] == 0
  {
    if BIG_ENDIAN {
      ZeroBigEndian(n, k);
    } else {
      ZeroLittleEndian(n, k);
    }
  }

  lemma {:induction false} ZeroBigEndian(n: nat, k: nat)
    requires k < n
    ensures BigEndianBytes(0, n)[k] == 0
  {
    if k < n - 1 {
      ZeroBigEndian(n - 1, k);
    }
  }

  lemma {:induction false} ZeroLittleEndian(n: nat, k: nat)
    requires k < n
    ensures LittleEndian(0, n)[k] == 0
  {
    if k > 0 {
      ZeroLittleEndian(n - 1, k - 1);
    }
  }

  /** An array of 32-bit words that begins with 0 reads as empty, however many more there are. */
  lemma {:induction false} ZeroReadsAsNone(f: Field, items: seq<Value>)
    requires f.ltype.Fixed32? && (forall v <- items :: TypedValue(f, v)) && items != [] && items[0] == Word(0)
    ensures ReadsAsNone(f, items)
  {
    var m := Images(f, items);
    assert m == Image(0, 4) + Images(f, items[1..]);
    forall k | 0 <= k < PB_SIZE_WIDTH ensures m[k] == 0 {
      ZeroImage(4, k);
    }
  }

  /** A fixed-count array of two 32-bit words. */
  const PAIR: Field := Field(1, Repeated, Fixed32, 0, 0, 4, 2, None)
  /** A has-less submessage that holds nothing else. */
  const HOLDER: Field := Field(1, Optional, SubMessage([PAIR]), 0, 0, 8, 1, None)

  /** {0, 5} */
  const LOST: Value := Msg([Rep([Word(0), Word(5)])])

  lemma {:induction false} LostIsZero()
    ensures WellFormedField(HOLDER) && TypedSlot(HOLDER, Sing(LOST)) && IsZeroValue(HOLDER, LOST)
    ensures !SlotKept(HOLDER, Sing(LOST))
  {
    assert WellFormedField(PAIR) && WellFormed([PAIR]);
    assert TypedSlot(PAIR, Rep([Word(0), Word(5)])) && TypedMessage([PAIR], LOST.slots);
    ZeroReadsAsNone(PAIR, [Word(0), Word(5)]);
    assert IsProto3Default(PAIR, LOST.slots[0]);
    assert !NoneMistakenIn(HOLDER.ltype.fields[0], LOST.slots[0]);
  }

  /** The input at which the round trip fails: {0, 5} in a has-less submessage. The 0 is taken for the
      count, nothing is written, and the 5 is lost. */
  lemma {:induction false} CountMistaken()
    ensures WellFormed([HOLDER]) && TypedMessage([HOLDER], [Sing(LOST)])
    ensures EncodeMessage([HOLDER], [Sing(LOST)]) == Some([])
    ensures Decode([HOLDER], []) == Done(Defaults([HOLDER]), [], false)
    ensures Defaults([HOLDER]) != Canon([HOLDER], [Sing(LOST)]) && !Kept([HOLDER], [Sing(LOST)])
  {
    LostIsZero();
    OneField([HOLDER], [Sing(LOST)]);
  }

  /** A message of one has-less field, found zero but not kept. */
  lemma {:induction false} OneField(fields: seq<Field>, slots: seq<Slot>)
    requires |fields| == |slots| == 1 && slots[0].Sing? && TypedSlot(fields[0], slots[0]) && WellFormedField(fields[0])
    requires IsZeroValue(fields[0], slots[0].v) && !SlotKept(fields[0], slots[0])
    ensures WellFormed(fields) && TypedMessage(fields, slots) && EncodeMessage(fields, slots) == Some([])
    ensures Decode(fields, []) == Done(Defaults(fields), [], false)
    ensures Defaults(fields) != Canon(fields, slots) && !Kept(fields, slots)
  {
    var none: seq<byte> := [];
    assert none + none == none;
    assert EncodeFrom(fields, slots, 1) == Some(none) && EncodeField(fields[0], slots[0]) == Some(none);
    DecodeInvertsEncode(fields, slots);
    assert Received(fields, slots)[0] == DefaultSlot(fields[0]);
    assert Received(fields, slots) == Defaults(fields);
  }

  /** No fixed-count array (or none of submessages) is directly inside a has-less submessage. */
  predicate CountsApart(fields: seq<Field>, ofMessages: bool)
    decreases fields
  {
    forall i :: 0 <= i < |fields| ==> FieldApart(fields[i], ofMessages)
  }

  predicate FieldApart(f: Field, ofMessages: bool)
    decreases f
  {
    f.ltype.SubMessage? ==>
      && CountsApart(f.ltype.fields, ofMessages)
      && (f.Singular() ==> forall i :: 0 <= i < |f.ltype.fields| ==> InsideApart(f.ltype.fields[i], ofMessages))
  }

  predicate InsideApart(g: Field, ofMessages: bool) {
    g.FixedCount() ==> ofMessages && !g.ltype.SubMessage?
  }

  lemma {:induction false} ApartValue(f: Field, v: Value)
    requires TypedValue(f, v) && FieldApart(f, false)
    ensures ValueKept(f, v) && (f.Singular() ==> NoneMistaken(f, v))
    decreases f, 0
  {
    if f.ltype.SubMessage? {
      var fields := f.ltype.fields;
      assert TypedMessage(fields, v.slots);
      ApartIsKept(fields, v.slots);
      if f.Singular() {
        forall i | 0 <= i < |fields| ensures NoneMistakenIn(fields[i], v.slots[i]) {
          assert InsideApart(fields[i], false) && FieldApart(fields[i], false) && TypedSlot(fields[i], v.slots[i]);
          if fields[i].Singular() {
            ApartValue(fields[i], v.slots[i].v);
          }
        }
      }
    }
  }

  lemma {:induction false} ApartSlot(f: Field, s: Slot)
    requires TypedSlot(f, s) && FieldApart(f, false)
    ensures SlotKept(f, s)
    decreases f, 1
  {
    match s
    case Req(v) => ApartValue(f, v);
    case Opt(has, v) => if has { ApartValue(f, v); }
    case Sing(v) => ApartValue(f, v);
    case Rep(items) => forall k | 0 <= k < |items| ensures ValueKept(f, items[k]) { ApartValue(f, items[k]); }
    case Member(sel) => if sel.Some? { ApartValue(f, sel.value); }
  }

  /** Then nothing can be mistaken: every message of such a table is given back. */
  lemma {:induction false} ApartIsKept(fields: seq<Field>, slots: seq<Slot>)
    requires TypedMessage(fields, slots) && CountsApart(fields, false)
    ensures Kept(fields, slots)
    decreases fields
  {
    forall i | 0 <= i < |fields| ensures SlotKept(fields[i], slots[i]) {
      ApartSlot(fields[i], slots[i]);
    }
  }

  // ---- the canonical value loses nothing that goes on the wire ----

  lemma {:induction false} CanonValueSame(f: Field, v: Value)
    requires TypedValue(f, v) && WellFormedField(f) && FieldApart(f, true)
    ensures TypedValue(f, CanonValue(f, v)) && EncodeValue(f, CanonValue(f, v)) == EncodeValue(f, v)
    ensures f.Singular() ==> IsZeroValue(f, CanonValue(f, v)) == IsZeroValue(f, v)
    decreases f, 0
  {
    match f.ltype
    case SubMessage(fields) =>
      assert TypedMessage(fields, v.slots);
      CanonSameEncoding(fields, v.slots);
      var c := Canon(fields, v.slots);
      forall i | 0 <= i < |fields|
        ensures f.Singular() ==> IsProto3Default(fields[i], c[i]) == IsProto3Default(fields[i], v.slots[i])
      {
        assert TypedSlot(fields[i], v.slots[i]) && WellFormedField(fields[i]) && FieldApart(fields[i], true);
        assert f.Singular() ==> InsideApart(fields[i], true);
        CanonSlotSame(fields[i], v.slots[i]);
      }
    case _ =>
  }

  lemma {:induction false} CanonSlotSame(f: Field, s: Slot)
    requires TypedSlot(f, s) && WellFormedField(f) && FieldApart(f, true)
    ensures TypedSlot(f, CanonSlot(f, s)) && EncodeField(f, CanonSlot(f, s)) == EncodeField(f, s)
    ensures InsideApart(f, true) ==> IsProto3Default(f, CanonSlot(f, s)) == IsProto3Default(f, s)
    decreases f, 2
  {
    match s
    case Req(v) => CanonValueSame(f, v);
    case Opt(has, v) => if has { CanonValueSame(f, v); }
    case Sing(v) => CanonValueSame(f, v);
    case Rep(items) =>
      CanonItemsSame(f, items);
      assert CanonSlot(f, s) == Rep(CanonItems(f, items));
      assert !f.ltype.SubMessage? ==> CanonItems(f, items) == items;
    case Member(sel) => if sel.Some? { CanonValueSame(f, sel.value); }
  }

  lemma {:induction false} CanonItemsSame(f: Field, items: seq<Value>)
    requires WellFormedField(f) && FieldApart(f, true) && forall v <- items :: TypedValue(f, v)
    ensures |CanonItems(f, items)| == |items| && forall v <- CanonItems(f, items) :: TypedValue(f, v)
    ensures EncodeItems(f, CanonItems(f, items)) == EncodeItems(f, items)
    ensures EncodeTaggedItems(f, CanonItems(f, items)) == EncodeTaggedItems(f, items)
    decreases f, 1, |items|
  {
    if items != [] {
      CanonValueSame(f, items[0]);
      CanonItemsSame(f, items[1..]);
      CanonItemsCons(f, items);
      var c := CanonItems(f, items);
      assert c[1..] == CanonItems(f, items[1..]);
      assert Tagged(f, c[0]) == Tagged(f, items[0]);
    }
  }

  /** Encoding the message again, what is absent at its default, writes the same bytes. */
  lemma {:induction false} CanonSameEncoding(fields: seq<Field>, slots: seq<Slot>)
    requires WellFormed(fields) && CountsApart(fields, true) && TypedMessage(fields, slots)
    ensures TypedMessage(fields, Canon(fields, slots))
    ensures EncodeMessage(fields, Canon(fields, slots)) == EncodeMessage(fields, slots)
    decreases fields
  {
    var c := Canon(fields, slots);
    forall i | 0 <= i < |fields|
      ensures TypedSlot(fields[i], c[i]) && EncodeField(fields[i], c[i]) == EncodeField(fields[i], slots[i])
    {
      CanonSlotSame(fields[i], slots[i]);
    }
    CanonSelects(fields, slots);
    SameFieldsSameBytes(fields, slots, c, 0);
  }

  lemma {:induction false} CanonSelects(fields: seq<Field>, slots: seq<Slot>)
    requires TypedMessage(fields, slots)
    ensures OneSelected(fields, Canon(fields, slots))
  {
  }

  lemma {:induction false} SameFieldsSameBytes(fields: seq<Field>, a: seq<Slot>, b: seq<Slot>, i: nat)
    requires |a| == |b| == |fields| && i <= |fields|
    requires forall j :: 0 <= j < |fields| ==>
      TypedSlot(fields[j], a[j]) && TypedSlot(fields[j], b[j]) &&
        EncodeField(fields[j], a[j]) == EncodeField(fields[j], b[j])
    ensures EncodeFrom(fields, a, i) == EncodeFrom(fields, b, i)
    decreases |fields| - i
  {
    if i < |fields| {
      SameFieldsSameBytes(fields, a, b, i + 1);
    }
  }
}
