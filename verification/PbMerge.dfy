/** Decoding a concatenation into a struct is decoding its parts one after the other into it. */
module PbMerge {
  import opened Bytes
  import opened PbTypes
  import opened PbVarint
  import opened PbEncode
  import opened PbDecode
  import opened PbRoundTrip

  // ---- a successful read does not look beyond what it consumes ----

  function More<T>(p: Parse<T>, x: seq<byte>): Parse<T> {
    if p.Got? then Got(p.value, p.rest + x) else Fail
  }

  lemma {:induction false} Cons(s: seq<byte>, x: seq<byte>)
    requires s != []
    ensures (s + x)[0] == s[0] && (s + x)[1..] == s[1..] + x
  {
  }

  lemma {:induction false} Varint64FromLocal(s: seq<byte>, n: nat, acc: uint64, x: seq<byte>)
    requires Varint64From(s, n, acc).Got?
    ensures Varint64From(s + x, n, acc) == More(Varint64From(s, n, acc), x)
  {
    Cons(s, x);
    if s[0] >= 128 {
      Varint64FromLocal(s[1..], n + 7, OrField64(acc, s[0], n), x);
    }
  }

  lemma {:induction false} Varint32FromLocal(s: seq<byte>, n: nat, acc: uint32, x: seq<byte>)
    requires Varint32From(s, n, acc).Got?
    ensures Varint32From(s + x, n, acc) == More(Varint32From(s, n, acc), x)
  {
    Cons(s, x);
    if s[0] >= 128 {
      Varint32FromLocal(s[1..], (n + 7) % 256, Varint32Step(s[0], n, acc).value, x);
    }
  }

  lemma {:induction false} Varint32Local(s: seq<byte>, x: seq<byte>)
    requires Varint32(s).Got?
    ensures Varint32(s + x) == More(Varint32(s), x)
  {
    Cons(s, x);
    if s[0] >= 128 {
      Varint32FromLocal(s[1..], 7, s[0] % 128, x);
    }
  }

  lemma {:induction false} TakeLocal(n: nat, s: seq<byte>, x: seq<byte>)
    requires n <= |s|
    ensures (s + x)[..n] == s[..n] && (s + x)[n..] == s[n..] + x
    ensures Take(n, s + x) == More(Take(n, s), x)
  {
    assert (s + x)[..n] == s[..n] && (s + x)[n..] == s[n..] + x;
  }

  lemma {:induction false} TakePrefixedLocal(s: seq<byte>, x: seq<byte>)
    requires TakePrefixed(s).Got?
    ensures TakePrefixed(s + x) == More(TakePrefixed(s), x)
  {
    Varint32Local(s, x);
    TakeLocal(Varint32(s).value, Varint32(s).rest, x);
  }

  lemma {:induction false} SkipVarintLocal(s: seq<byte>, x: seq<byte>)
    requires SkipVarint(s).Got?
    ensures SkipVarint(s + x) == More(SkipVarint(s), x)
  {
    Cons(s, x);
    if s[0] >= 128 {
      SkipVarintLocal(s[1..], x);
    }
  }

  lemma {:induction false} SkipFieldLocal(wireType: nat, s: seq<byte>, x: seq<byte>)
    requires SkipField(wireType, s).Got?
    ensures SkipField(wireType, s + x) == More(SkipField(wireType, s), x)
  {
    if wireType == WT_VARINT {
      SkipVarintLocal(s, x);
    } else if wireType == WT_STRING {
      TakePrefixedLocal(s, x);
    } else {
      TakeLocal(if wireType == WT_64BIT then 8 else 4, s, x);
    }
  }

  lemma {:induction false} BlobLocal(f: Field, dest: Value, s: seq<byte>, x: seq<byte>)
    requires f.ltype.PbBytes? || f.ltype.PbString? || f.ltype.FixedLengthBytes?
    requires DecodeValue(f, dest, s).Got?
    ensures DecodeValue(f, dest, s + x) == More(DecodeValue(f, dest, s), x)
  {
    Varint32Local(s, x);
    if Varint32(s).value <= |Varint32(s).rest| {
      TakeLocal(Varint32(s).value, Varint32(s).rest, x);
    }
  }

  lemma {:induction false} DecodeValueLocal(f: Field, dest: Value, s: seq<byte>, x: seq<byte>)
    requires DecodeValue(f, dest, s).Got?
    ensures DecodeValue(f, dest, s + x) == More(DecodeValue(f, dest, s), x)
  {
    match f.ltype
    case Fixed32 => TakeLocal(4, s, x);
    case Fixed64 => TakeLocal(8, s, x);
    case PbBytes => BlobLocal(f, dest, s, x);
    case PbString => BlobLocal(f, dest, s, x);
    case FixedLengthBytes => BlobLocal(f, dest, s, x);
    case SubMessage(_) => TakePrefixedLocal(s, x);
    case Varint => Varint64FromLocal(s, 0, 0, x);
    case UVarint => Varint64FromLocal(s, 0, 0, x);
    case SVarint => Varint64FromLocal(s, 0, 0, x);
    case Extension =>
  }

  lemma {:induction false} DecodeFieldLocal(fields: seq<Field>, slots: seq<Slot>, i: nat, wireType: nat, s: seq<byte>,
    x: seq<byte>)
    requires |slots| == |fields| && i < |fields| && DecodeField(fields, slots, i, wireType, s).Got?
    ensures DecodeField(fields, slots, i, wireType, s + x) == More(DecodeField(fields, slots, i, wireType, s), x)
  {
    var f := fields[i];
    if f.htype.Repeated? && wireType == WT_STRING && f.ltype.Packable() {
      TakePrefixedLocal(s, x);
    } else {
      var dest := if f.htype.Required? || f.htype.Optional? then Content(slots[i]) else Int(0);
      DecodeValueLocal(f, dest, s, x);
    }
  }

  // ---- the decoding loop ----

  /** A run that ended at the end of its input goes on with what is appended; one that ended at a zero
      tag leaves what is appended unread. */
  lemma {:induction false} LoopLocal(fields: seq<Field>, p: Progress, a: seq<byte>, b: seq<byte>)
    requires |p.slots| == |fields| && DecodeLoop(fields, p, a).LoopDone?
    ensures var r := DecodeLoop(fields, p, a);
      DecodeLoop(fields, p, a + b) == if r.zeroTag then LoopDone(r.p, r.rest + b, true) else DecodeLoop(fields, r.p, b)
    decreases |a|
  {
    if a == [] {
      assert a + b == b;
    } else {
      Varint32Local(a, b);
      var t := DecodeTag(a);
      if t.TagRead? {
        var at := IndexOf(fields, 0, t.tag);
        if at.None? {
          SkipFieldLocal(t.wireType, t.rest, b);
          LoopLocal(fields, p, SkipField(t.wireType, t.rest).rest, b);
        } else {
          var q := Arrive(fields, p, at.value).value;
          DecodeFieldLocal(fields, q.slots, at.value, t.wireType, t.rest, b);
          var d := DecodeField(fields, q.slots, at.value, t.wireType, t.rest);
          LoopLocal(fields, q.(slots := d.value), d.rest, b);
        }
      }
    }
  }

  /** No bookkeeping outlives a field: neither required nor fixed-count fields at the top level. */
  predicate Mergeable(fields: seq<Field>) {
    forall f <- fields :: !f.htype.Required? && !f.FixedCount()
  }

  lemma {:induction false} LoopKeepsNoBooks(fields: seq<Field>, p: Progress, s: seq<byte>)
    requires |p.slots| == |fields| && Mergeable(fields) && p.seen == {} && p.fixedField.None?
    requires DecodeLoop(fields, p, s).LoopDone?
    ensures DecodeLoop(fields, p, s).p.seen == {} && DecodeLoop(fields, p, s).p.fixedField.None?
    decreases |s|
  {
    if s != [] {
      var t := DecodeTag(s);
      if t.TagRead? {
        var at := IndexOf(fields, 0, t.tag);
        if at.None? {
          LoopKeepsNoBooks(fields, p, SkipField(t.wireType, t.rest).rest);
        } else {
          assert fields[at.value] in fields;
          var d := DecodeField(fields, p.slots, at.value, t.wireType, t.rest);
          LoopKeepsNoBooks(fields, p.(slots := d.value), d.rest);
        }
      }
    }
  }

  lemma {:induction false} NothingRequired(fields: seq<Field>, n: nat)
    requires Mergeable(fields) && n <= |fields|
    ensures RequiredBefore(fields, n) == 0
  {
    if n > 0 {
      assert fields[n - 1] in fields;
      NothingRequired(fields, n - 1);
    }
  }

  /** One input after the other into the same struct. */
  function DecodeBoth(fields: seq<Field>, slots: seq<Slot>, a: seq<byte>, b: seq<byte>): Outcome {
    match DecodeNoInit(fields, slots, a)
    case Error => Error
    case Done(mid, _, _) => DecodeNoInit(fields, mid, b)
  }

  /** A tag byte of field number 0 and an unknown wire type: no table decodes it. */
  const BAD_INPUT: seq<byte> := [7]

  lemma {:induction false} BadInputFails(fields: seq<Field>, slots: seq<Slot>)
    requires DistinctTags(fields)
    ensures DecodeNoInit(fields, slots, BAD_INPUT) == Error
  {
    if |slots| == |fields| {
      assert DecodeTag(BAD_INPUT) == TagRead(7, 0, []);
      assert IndexOf(fields, 0, 0).None?;
    }
  }

  // ---- where a read stops at a zero tag, told from the input and the table alone ----

  /** How far a value of the given type reaches: 4 or 8 bytes, one varint, or a length and that many bytes. */
  function ValueEnd(t: LType, s: seq<byte>): (p: Parse<()>)
    ensures p.Got? ==> |p.rest| < |s|
  {
    if t.Fixed32? then Discard(Take(4, s))
    else if t.Fixed64? then Discard(Take(8, s))
    else if t.Varint? || t.UVarint? || t.SVarint? then SkipVarint(s)
    else if t.Extension? then Fail
    else Discard(TakePrefixed(s))
  }

  function FieldEnd(f: Field, wireType: nat, s: seq<byte>): (p: Parse<()>)
    ensures p.Got? ==> |p.rest| < |s|
  {
    if f.htype.Repeated? && wireType == WT_STRING && f.ltype.Packable() then Discard(TakePrefixed(s))
      else ValueEnd(f.ltype, s)
  }

  /** Walking from tag to tag, the walk meets a zero tag. No value is looked at. */
  predicate StopsAtZeroTag(fields: seq<Field>, a: seq<byte>)
    decreases |a|
  {
    a != [] &&
    var t := DecodeTag(a);
    t.TagEnd? ||
    (t.TagRead? &&
     var at := IndexOf(fields, 0, t.tag);
     var next := if at.None? then SkipField(t.wireType, t.rest) else FieldEnd(fields[at.value], t.wireType, t.rest);
     next.Got? && StopsAtZeroTag(fields, next.rest))
  }

  lemma {:induction false} VarintEnds(s: seq<byte>, n: nat, acc: uint64)
    requires Varint64From(s, n, acc).Got?
    ensures SkipVarint(s) == Got((), Varint64From(s, n, acc).rest)
  {
    if s[0] >= 128 {
      VarintEnds(s[1..], n + 7, OrField64(acc, s[0], n));
    }
  }

  lemma {:induction false} ValueEnds(f: Field, dest: Value, s: seq<byte>)
    requires DecodeValue(f, dest, s).Got?
    ensures ValueEnd(f.ltype, s) == Got((), DecodeValue(f, dest, s).rest)
  {
    match f.ltype
    case Fixed32 =>
    case Fixed64 =>
    case PbBytes =>
    case PbString =>
    case FixedLengthBytes => assert Take(0, Varint32(s).rest) == Got([], Varint32(s).rest);
    case SubMessage(_) =>
    case Extension =>
    case _ => VarintEnds(s, 0, 0);
  }

  lemma {:induction false} FieldEnds(fields: seq<Field>, slots: seq<Slot>, i: nat, wireType: nat, s: seq<byte>)
    requires |slots| == |fields| && i < |fields| && DecodeField(fields, slots, i, wireType, s).Got?
    ensures FieldEnd(fields[i], wireType, s) == Got((), DecodeField(fields, slots, i, wireType, s).rest)
  {
    var f := fields[i];
    if !(f.htype.Repeated? && wireType == WT_STRING && f.ltype.Packable()) {
      ValueEnds(f, if f.htype.Required? || f.htype.Optional? then Content(slots[i]) else Int(0), s);
    }
  }

  /** The decoding loop, into whatever struct, stops at a zero tag exactly when the walk does. */
  lemma {:induction false} LoopStopsAsWalked(fields: seq<Field>, p: Progress, a: seq<byte>)
    requires |p.slots| == |fields| && DecodeLoop(fields, p, a).LoopDone?
    ensures DecodeLoop(fields, p, a).zeroTag <==> StopsAtZeroTag(fields, a)
    decreases |a|
  {
    if a != [] {
      var t := DecodeTag(a);
      if t.TagRead? {
        var at := IndexOf(fields, 0, t.tag);
        if at.None? {
          LoopStopsAsWalked(fields, p, SkipField(t.wireType, t.rest).rest);
        } else {
          var q := Arrive(fields, p, at.value).value;
          var d := DecodeField(fields, q.slots, at.value, t.wireType, t.rest);
          FieldEnds(fields, q.slots, at.value, t.wireType, t.rest);
          LoopStopsAsWalked(fields, q.(slots := d.value), d.rest);
        }
      }
    }
  }

  /** What pb_encode writes does not stop so. */
  lemma {:induction false} EncodingNeverStops(fields: seq<Field>, slots: seq<Slot>)
    requires WellFormed(fields) && TypedMessage(fields, slots)
    requires EncodeMessage(fields, slots).Some? && |EncodeMessage(fields, slots).value| < TWO32
    ensures !StopsAtZeroTag(fields, EncodeMessage(fields, slots).value)
  {
    DecodeInvertsEncode(fields, slots);
    LoopStopsAsWalked(fields, Progress(Defaults(fields), {}, None), EncodeMessage(fields, slots).value);
  }

  /** 41 continuation bytes and more: the 8-bit bit position of the 32-bit varint loop wraps, and bits
      of the byte after them are shifted out of the result. */
  const LONG_VARINT: nat := 42

  /** The input ends in a byte other than 0, and not in a varint long enough to wrap. */
  predicate EndsNonzero(a: seq<byte>) {
    a != [] && a[|a| - 1] != 0 && !LongTail(a)
  }

  predicate LongTail(a: seq<byte>) {
    |a| >= LONG_VARINT && forall i :: |a| - LONG_VARINT <= i < |a| - 1 ==> a[i] >= 128
  }

  predicate Suffix(r: seq<byte>, s: seq<byte>) {
    |r| <= |s| && s[|s| - |r|..] == r
  }

  lemma {:induction false} SuffixTrans(q: seq<byte>, r: seq<byte>, s: seq<byte>)
    requires Suffix(q, r) && Suffix(r, s)
    ensures Suffix(q, s)
  {
    assert s[|s| - |q|..] == s[|s| - |r|..][|r| - |q|..];
  }

  lemma {:induction false} TakeSuffix(n: nat, s: seq<byte>)
    requires Take(n, s).Got?
    ensures Suffix(Take(n, s).rest, s)
  {
  }

  lemma {:induction false} SkipVarintSuffix(s: seq<byte>)
    requires SkipVarint(s).Got?
    ensures Suffix(SkipVarint(s).rest, s)
  {
    if s[0] >= 128 {
      SkipVarintSuffix(s[1..]);
      SuffixTrans(SkipVarint(s).rest, s[1..], s);
    }
  }

  lemma {:induction false} Varint32FromEnds(s: seq<byte>, n: nat, acc: uint32)
    requires Varint32From(s, n, acc).Got?
    ensures SkipVarint(s) == Got((), Varint32From(s, n, acc).rest)
  {
    if s[0] >= 128 {
      Varint32FromEnds(s[1..], (n + 7) % 256, Varint32Step(s[0], n, acc).value);
    }
  }

  lemma {:induction false} Varint32Ends(s: seq<byte>)
    requires Varint32(s).Got?
    ensures SkipVarint(s) == Got((), Varint32(s).rest) && Suffix(Varint32(s).rest, s)
  {
    if s[0] >= 128 {
      Varint32FromEnds(s[1..], 7, s[0] % 128);
    }
    SkipVarintSuffix(s);
  }

  lemma {:induction false} TakePrefixedSuffix(s: seq<byte>)
    requires TakePrefixed(s).Got?
    ensures Suffix(TakePrefixed(s).rest, s)
  {
    Varint32Ends(s);
    TakeSuffix(Varint32(s).value, Varint32(s).rest);
    SuffixTrans(TakePrefixed(s).rest, Varint32(s).rest, s);
  }

  lemma {:induction false} SkipFieldSuffix(wireType: nat, s: seq<byte>)
    requires SkipField(wireType, s).Got?
    ensures Suffix(SkipField(wireType, s).rest, s)
  {
    if wireType == WT_VARINT {
      SkipVarintSuffix(s);
    } else if wireType == WT_STRING {
      TakePrefixedSuffix(s);
    }
  }

  lemma {:induction false} FieldEndSuffix(f: Field, wireType: nat, s: seq<byte>)
    requires FieldEnd(f, wireType, s).Got?
    ensures Suffix(FieldEnd(f, wireType, s).rest, s)
  {
    if f.htype.Repeated? && wireType == WT_STRING && f.ltype.Packable() {
      TakePrefixedSuffix(s);
    } else if f.ltype.Varint? || f.ltype.UVarint? || f.ltype.SVarint? {
      SkipVarintSuffix(s);
    } else if !f.ltype.Fixed32? && !f.ltype.Fixed64? {
      TakePrefixedSuffix(s);
    }
  }

  lemma {:induction false} OrIsZero(a: nat, b: nat)
    requires BitOr(a, b) == 0
    ensures a == 0 && b == 0
  {
    if a != 0 || b != 0 {
      OrIsZero(a / 2, b / 2);
    }
  }

  lemma {:induction false} LowFieldFits(b: byte, n: nat)
    requires n <= 24 && b < 128
    ensures b % 128 == b && Shl(b, n) % TWO32 == Shl(b, n)
  {
    ShlMono(1, 1, n);
    GroupBelow(b, 0, n);
    ShlGrows(n + 7, 32);
    ShlWords();
    NoWrap(Shl(b, n), TWO32);
  }

  /** A field that stays within the word is zero only when its byte is. */
  lemma {:induction false} ZeroLowField(acc: uint32, b: byte, n: nat)
    requires n <= 24 && b < 128 && OrField32(acc, b, n) == 0
    ensures b == 0
  {
    ShlMono(1, 1, n);
    LowFieldFits(b, n);
    OrIsZero(acc, Shl(b, n));
    if b > 0 {
      ShlMono(1, b, n);
    }
  }

  lemma {:induction false} ZeroFifthField(acc: uint32, b: byte)
    requires b < 16 && OrField32(acc, b, 28) == 0
    ensures b == 0
  {
    FieldAt28(b);
    OrIsZero(acc, Shl(b, 28));
  }

  lemma {:induction false} FieldAt28(b: byte)
    requires b < 16
    ensures b % 128 == b && Shl(b, 28) == 0x1000_0000 * b && Shl(b, 28) % TWO32 == Shl(b, 28)
  {
    Shl28(b);
    NoWrap(Shl(b, 28), TWO32);
  }

  lemma {:induction false} ZeroLastByte(b: byte, n: nat, acc: uint32)
    requires b < 128 && (n <= 24 || n == 28 || n >= 32) && Varint32Step(b, n, acc) == Some(0)
    requires n == 28 ==> b < 16
    ensures b == 0
  {
    if n == 28 {
      ZeroFifthField(acc, b);
    } else if n < 32 {
      ZeroLowField(acc, b, n);
    }
  }

  /** The bit position of the k-th byte. */
  function Position(k: nat): (n: nat)
    ensures n == if k < 37 then 7 * k else if k < 74 then 7 * k - 256 else n
  {
    if k == 0 then 0 else (Position(k - 1) + 7) % 256
  }

  lemma {:induction false} PositionsFit(k: nat)
    requires k < 41
    ensures Position(k) <= 24 || Position(k) == 28 || Position(k) >= 32
  {
  }

  lemma {:induction false} LastByte(s: seq<byte>, n: nat, acc: uint32)
    requires s != [] && s[0] < 128 && Varint32From(s, n, acc).Got?
    ensures Varint32Step(s[0], n, acc) == Some(Varint32From(s, n, acc).value) && s[1..] == Varint32From(s, n, acc).rest
    ensures n == 28 ==> s[0] < 16
  {
  }

  lemma {:induction false} NextByte(s: seq<byte>, n: nat, acc: uint32)
    requires s != [] && s[0] >= 128 && Varint32Step(s[0], n, acc).Some?
    ensures Varint32From(s, n, acc) == Varint32From(s[1..], (n + 7) % 256, Varint32Step(s[0], n, acc).value)
  {
  }

  /** From the k-th byte on, as long as the bit position has not come round to the end of the word again. */
  lemma {:induction false} ZeroVarintEndsInZero(s: seq<byte>, k: nat, acc: uint32)
    requires k + |s| < LONG_VARINT && Varint32From(s, Position(k), acc) == Got(0, [])
    ensures s != [] && s[|s| - 1] == 0
    decreases |s|
  {
    if s[0] >= 128 {
      NextByte(s, Position(k), acc);
      ZeroVarintEndsInZero(s[1..], k + 1, Varint32Step(s[0], Position(k), acc).value);
    } else {
      LastByte(s, Position(k), acc);
      PositionsFit(k);
      ZeroLastByte(s[0], Position(k), acc);
    }
  }

  /** A zero tag that is all of s, then, ends in a zero byte or is a long varint. */
  lemma {:induction false} ZeroTagBytes(s: seq<byte>)
    requires s != [] && Varint32(s) == Got(0, [])
    ensures !EndsNonzero(s)
  {
    if |s| >= LONG_VARINT {
      Varint32Ends(s);
      OneVarint(s);
    } else if s[0] >= 128 {
      ZeroVarintEndsInZero(s[1..], 1, s[0] % 128);
      assert s[|s| - 1] == s[1..][|s| - 2];
    }
  }

  lemma {:induction false} OneVarint(s: seq<byte>)
    requires SkipVarint(s) == Got((), [])
    ensures s != [] && forall i :: 0 <= i < |s| - 1 ==> s[i] >= 128
  {
    if s[0] >= 128 {
      OneVarint(s[1..]);
    }
  }

  lemma {:induction false} LongTailExtends(r: seq<byte>, s: seq<byte>)
    requires LongTail(r) && Suffix(r, s)
    ensures LongTail(s)
  {
    forall i | |s| - LONG_VARINT <= i < |s| - 1 ensures s[i] >= 128 {
      assert s[i] == r[i - (|s| - |r|)];
    }
  }

  lemma {:induction false} EndsNonzeroSuffix(r: seq<byte>, s: seq<byte>)
    requires EndsNonzero(s) && Suffix(r, s) && r != []
    ensures EndsNonzero(r)
  {
    assert r[|r| - 1] == s[|s| - 1];
    if LongTail(r) {
      LongTailExtends(r, s);
    }
  }

  /** A caller who knows no table: input that is consumed whole and ends in a byte other than 0, not
      in a varint of 42 bytes, does not stop at a zero tag. */
  lemma {:induction false} NonzeroEndNeverStops(fields: seq<Field>, p: Progress, a: seq<byte>)
    requires |p.slots| == |fields| && DecodeLoop(fields, p, a).LoopDone? && DecodeLoop(fields, p, a).rest == []
    requires a == [] || EndsNonzero(a)
    ensures !StopsAtZeroTag(fields, a)
    decreases |a|
  {
    if a != [] {
      var t := DecodeTag(a);
      Varint32Ends(a);
      if t.TagEnd? {
        ZeroTagBytes(a);
      } else {
        var at := IndexOf(fields, 0, t.tag);
        if at.None? {
          var r := SkipField(t.wireType, t.rest).rest;
          SkipFieldSuffix(t.wireType, t.rest);
          StillEndsNonzero(r, t.rest, a);
          NonzeroEndNeverStops(fields, p, r);
        } else {
          var q := Arrive(fields, p, at.value).value;
          var d := DecodeField(fields, q.slots, at.value, t.wireType, t.rest);
          FieldEnds(fields, q.slots, at.value, t.wireType, t.rest);
          FieldEndSuffix(fields[at.value], t.wireType, t.rest);
          StillEndsNonzero(d.rest, t.rest, a);
          NonzeroEndNeverStops(fields, q.(slots := d.value), d.rest);
        }
      }
    }
  }

  lemma {:induction false} StillEndsNonzero(q: seq<byte>, r: seq<byte>, s: seq<byte>)
    requires EndsNonzero(s) && Suffix(q, r) && Suffix(r, s)
    ensures q == [] || EndsNonzero(q)
  {
    SuffixTrans(q, r, s);
    if q != [] {
      EndsNonzeroSuffix(q, s);
    }
  }

  function Continuations(n: nat): (s: seq<byte>)
    ensures |s| == n
  {
    if n == 0 then [] else [128] + Continuations(n - 1)
  }

  lemma {:induction false} EmptyGroups(n: nat, k: nat)
    requires k + n == 41
    ensures Varint32From(Continuations(n) + [2], Position(k), 0) == Got(0, [])
    decreases n
  {
    var s := Continuations(n) + [2];
    if n == 0 {
      LostField(2);
      EndsAt31(s);
    } else {
      assert s[1..] == Continuations(n - 1) + [2] && s[0] == 128;
      EmptyField(Position(k));
      NextByte(s, Position(k), 0);
      EmptyGroups(n - 1, k + 1);
    }
  }

  lemma {:induction false} EndsAt31(s: seq<byte>)
    requires |s| == 1 && s[0] < 128 && OrField32(0, s[0], 31) == 0
    ensures Varint32From(s, 31, 0) == Got(0, [])
  {
  }

  lemma {:induction false} EmptyField(n: nat)
    ensures Varint32Step(128, n, 0) == Some(0)
  {
    ShlZero(n);
  }

  lemma {:induction false} LostField(b: byte)
    requires b == 2
    ensures OrField32(0, b, 31) == 0
  {
    ShlWords();
    ShlSum(1, 1, 31);
    assert Shl(1, 32) == 2 * Shl(1, 31);
    assert Shl(b % 128, 31) == TWO32;
  }

  /** Ending in a byte other than 0 alone is not enough: 41 empty groups and a 2 are a zero tag. */
  lemma {:induction false} LongZeroTag(fields: seq<Field>)
    ensures StopsAtZeroTag(fields, Continuations(41) + [2])
    ensures DecodeTag(Continuations(41) + [2]) == TagEnd([])
  {
    var s := Continuations(41) + [2];
    assert s[0] == 128 && s[1..] == Continuations(40) + [2];
    EmptyGroups(40, 1);
  }

  /** Concatenation is merge exactly when the first input does not stop at a zero tag: consuming all of
      it is not enough, since a zero tag may be its last byte. */
  lemma {:induction false} ConcatenationIsMerge(fields: seq<Field>, slots: seq<Slot>, a: seq<byte>)
    requires DistinctTags(fields) && Mergeable(fields)
    requires DecodeNoInit(fields, slots, a).Done? && DecodeNoInit(fields, slots, a).rest == []
    ensures (forall b :: DecodeNoInit(fields, slots, a + b) == DecodeBoth(fields, slots, a, b))
      <==> !StopsAtZeroTag(fields, a)
  {
    var p := Progress(slots, {}, None);
    var r := DecodeLoop(fields, p, a);
    LoopKeepsNoBooks(fields, p, a);
    NothingRequired(fields, |fields|);
    LoopStopsAsWalked(fields, p, a);
    if r.zeroTag {
      LoopLocal(fields, p, a, BAD_INPUT);
      BadInputFails(fields, r.p.slots);
      assert DecodeNoInit(fields, slots, a + BAD_INPUT).Done?;
      assert DecodeBoth(fields, slots, a, BAD_INPUT) == Error;
    } else {
      forall b ensures DecodeNoInit(fields, slots, a + b) == DecodeBoth(fields, slots, a, b) {
        LoopLocal(fields, p, a, b);
        assert r.p == Progress(r.p.slots, {}, None);
      }
    }
  }

  /** Two encodings, one after the other, are merged: the second is decoded into the first message. */
  lemma {:induction false} EncodingsMerge(fields: seq<Field>, first: seq<Slot>, second: seq<byte>)
    requires WellFormed(fields) && Mergeable(fields) && TypedMessage(fields, first)
    requires EncodeMessage(fields, first).Some? && |EncodeMessage(fields, first).value| < TWO32
    ensures Decode(fields, EncodeMessage(fields, first).value + second)
      == DecodeNoInit(fields, Received(fields, first), second)
    ensures Kept(fields, first) ==> Received(fields, first) == Canon(fields, first)
  {
    var a := EncodeMessage(fields, first).value;
    DecodeInvertsEncode(fields, first);
    EncodingNeverStops(fields, first);
    ConcatenationIsMerge(fields, Defaults(fields), a);
    assert DecodeNoInit(fields, Defaults(fields), a + second) == DecodeBoth(fields, Defaults(fields), a, second);
  }

  /** The counterexample to the merge law without that condition: [0] is consumed whole, and yet what is
      appended to it is never read. */
  lemma {:induction false} ZeroTagStopsMerge(fields: seq<Field>, slots: seq<Slot>)
    requires DistinctTags(fields) && Mergeable(fields) && |slots| == |fields|
    ensures DecodeNoInit(fields, slots, [0]) == Done(slots, [], true)
    ensures DecodeNoInit(fields, slots, [0] + BAD_INPUT) == Done(slots, BAD_INPUT, true)
    ensures DecodeBoth(fields, slots, [0], BAD_INPUT) == Error
  {
    NothingRequired(fields, |fields|);
    assert Varint32([0]) == Got(0, []) && Varint32([0] + BAD_INPUT) == Got(0, BAD_INPUT);
    BadInputFails(fields, slots);
  }

  lemma {:induction false} NestedBody(f: Field, dest: Value, body: seq<byte>, rest: seq<byte>)
    requires f.ltype.SubMessage? && !f.htype.Repeated? && dest.Msg? && |body| < TWO32
    ensures var d := DecodeNoInit(f.ltype.fields, dest.slots, body);
      DecodeValue(f, dest, LengthPrefixed(body) + rest) == if d.Done? then Got(Msg(d.slots), rest) else Fail
  {
    PrefixedRoundTrip(body, rest);
  }

  /** The same inside a message: a submessage sent in two parts is what it is in one. */
  lemma {:induction false} NestedMerge(f: Field, dest: Value, a: seq<byte>, b: seq<byte>, rest: seq<byte>)
    requires f.ltype.SubMessage? && !f.htype.Repeated? && dest.Msg? && |a + b| < TWO32
    requires DistinctTags(f.ltype.fields) && Mergeable(f.ltype.fields)
    requires var first := DecodeNoInit(f.ltype.fields, dest.slots, a); first.Done? && first.rest == []
    requires !StopsAtZeroTag(f.ltype.fields, a)
    ensures var mid := DecodeValue(f, dest, LengthPrefixed(a) + rest);
      mid.Got? && DecodeValue(f, dest, LengthPrefixed(a + b) + rest)
      == DecodeValue(f, mid.value, LengthPrefixed(b) + rest)
  {
    NestedBody(f, dest, a, rest);
    NestedBody(f, DecodeValue(f, dest, LengthPrefixed(a) + rest).value, b, rest);
    NestedBody(f, dest, a + b, rest);
    ConcatenationIsMerge(f.ltype.fields, dest.slots, a);
    assert DecodeNoInit(f.ltype.fields, dest.slots, a + b) == DecodeBoth(f.ltype.fields, dest.slots, a, b);
  }

  /** Of a field that is no array and no message the last value wins, whatever the struct held before, and
      nothing changes but that field and the union it is in. */
  lemma {:induction false} LastWins(fields: seq<Field>, slots: seq<Slot>, i: nat, wireType: nat, v: Value,
    rest: seq<byte>)
    requires |slots| == |fields| && i < |fields| && !fields[i].htype.Repeated? && !fields[i].ltype.SubMessage?
    requires TypedValue(fields[i], v) && EncodeValue(fields[i], v).Some? && |EncodeValue(fields[i], v).value| < TWO32
    ensures var d := DecodeField(fields, slots, i, wireType, EncodeValue(fields[i], v).value + rest);
      && d.Got? && d.rest == rest && d.value[i] in {Req(v), Opt(true, v), Sing(v), Member(Some(v))}
      && forall j :: 0 <= j < |fields| && j != i && !SameUnion(fields, i, j) ==> d.value[j] == slots[j]
  {
    var f := fields[i];
    ScalarRoundTrip(f, v, if f.htype.OneOf? then Int(0) else Content(slots[i]), rest);
  }
}
