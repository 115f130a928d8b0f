/** The stream decoder of pb_decode.c: every routine against what PbDecode says it reads. */
module PbDecodeStream {
  import opened Bytes
  import opened PbTypes
  import opened PbVarint
  import opened PbEncode
  import opened PbDecode
  import opened PbIter
  import PbRoundTrip

  /** pb_istream_t over a buffer. */
  class IStream {
    const buffer: seq<byte>
    var state: nat
    var bytesLeft: nat

    ghost predicate Valid()
      reads this
    {
      End() <= |buffer|
    }

    ghost function End(): nat
      reads this
    {
      state + bytesLeft
    }

    ghost function Rest(): seq<byte>
      requires Valid()
      reads this
    {
      buffer[state..End()]
    }

    constructor (buffer: seq<byte>, state: nat, bytesLeft: nat)
      requires state + bytesLeft <= |buffer|
      ensures Valid() && this.buffer == buffer && this.state == state && this.bytesLeft == bytesLeft
    {
      this.buffer, this.state, this.bytesLeft := buffer, state, bytesLeft;
    }

    /** pb_read */
    method Read(count: nat) returns (ok: bool, data: seq<byte>)
      requires Valid()
      modifies this
      ensures ReadAs(this, Take(count, old(Rest())), ok)
      ensures ok ==> data == Take(count, old(Rest())).value
    {
      if bytesLeft < count {
        return false, [];
      }
      data := buffer[state..state + count];
      state := state + count;
      bytesLeft := bytesLeft - count;
      ok := true;
    }

    /** pb_readbyte */
    method ReadByte() returns (ok: bool, b: byte)
      requires Valid()
      modifies this
      ensures ok <==> old(Rest()) != []
      ensures Valid() && End() == old(End())
      ensures ok ==> b == old(Rest())[0] && Rest() == old(Rest())[1..]
      ensures !ok ==> Rest() == []
    {
      if bytesLeft == 0 {
        return false, 0;
      }
      b := buffer[state];
      state := state + 1;
      bytesLeft := bytesLeft - 1;
      ok := true;
    }
  }

  /** The contract of every reading routine: it succeeds exactly when the specification does, and leaves
      the same input unread. */
  twostate predicate ReadAs<T>(s: IStream, new p: Parse<T>, ok: bool)
    requires old(s.Valid())
    reads s
  {
    && s.Valid()
    && s.End() <= old(s.End())
    && (ok <==> p.Got?)
    && (ok ==> s.End() == old(s.End()) && s.Rest() == p.rest)
  }

  // ---- varints ----

  /** pb_decode_varint */
  method DecodeVarint(stream: IStream) returns (ok: bool, value: uint64)
    requires stream.Valid()
    modifies stream
    ensures ReadAs(stream, Varint64(old(stream.Rest())), ok)
    ensures ok ==> value == Varint64(old(stream.Rest())).value
  {
    var bitpos: nat, result: uint64 := 0, 0;
    while true
      invariant stream.Valid() && stream.End() == old(stream.End())
      invariant Varint64From(stream.Rest(), bitpos, result) == Varint64(old(stream.Rest()))
      decreases stream.bytesLeft
    {
      if bitpos >= 64 {
        return false, 0;
      }
      var b;
      ok, b := stream.ReadByte();
      if !ok {
        return false, 0;
      }
      result := OrField64(result, b, bitpos);
      bitpos := bitpos + 7;
      if b < 128 {
        return true, result;
      }
    }
  }

  /** pb_decode_varint32_eof */
  method DecodeVarint32(stream: IStream) returns (ok: bool, value: uint32, eof: bool)
    requires stream.Valid()
    modifies stream
    ensures ReadAs(stream, Varint32(old(stream.Rest())), ok)
    ensures ok ==> value == Varint32(old(stream.Rest())).value
    ensures eof <==> old(stream.Rest()) == []
    ensures eof ==> !ok && stream.End() == old(stream.End()) && stream.Rest() == []
  {
    var b;
    ok, b := stream.ReadByte();
    eof := !ok;
    if !ok || b < 128 {
      return ok, b, eof;
    }
    var bitpos: nat, result: uint32 := 7, b % 128;
    while true
      invariant stream.Valid() && stream.End() == old(stream.End()) && bitpos < 256
      invariant Varint32From(stream.Rest(), bitpos, result) == Varint32(old(stream.Rest()))
      decreases stream.bytesLeft
    {
      ok, b := stream.ReadByte();
      if !ok {
        return false, 0, eof;
      }
      if bitpos >= 32 {
        var signExtension := if bitpos < 63 then 0xFF else 0x01;
        if b % 128 != 0 && (result < TWO31 || b != signExtension) {
          return false, 0, eof;
        }
      } else {
        result := OrField32(result, b, bitpos);
      }
      bitpos := (bitpos + 7) % 256;
      if b < 128 {
        if bitpos == 35 && (b / 16) % 8 != 0 {
          return false, 0, eof;
        }
        return true, result, eof;
      }
    }
  }

  /** pb_skip_varint */
  method SkipVarintIn(stream: IStream) returns (ok: bool)
    requires stream.Valid()
    modifies stream
    ensures ReadAs(stream, SkipVarint(old(stream.Rest())), ok)
  {
    while true
      invariant stream.Valid() && stream.End() == old(stream.End())
      invariant SkipVarint(stream.Rest()) == SkipVarint(old(stream.Rest()))
      decreases stream.bytesLeft
    {
      var b;
      ok, b := stream.ReadByte();
      if !ok || b < 128 {
        return;
      }
    }
  }

  /** pb_skip_string */
  method SkipString(stream: IStream) returns (ok: bool)
    requires stream.Valid()
    modifies stream
    ensures ReadAs(stream, TakePrefixed(old(stream.Rest())), ok)
  {
    var n, eof;
    ok, n, eof := DecodeVarint32(stream);
    if ok {
      var data;
      ok, data := stream.Read(n);
    }
  }

  /** pb_skip_field */
  method SkipFieldIn(stream: IStream, wireType: nat) returns (ok: bool)
    requires stream.Valid()
    modifies stream
    ensures ReadAs(stream, SkipField(wireType, old(stream.Rest())), ok)
  {
    var data;
    if wireType == WT_VARINT {
      ok := SkipVarintIn(stream);
    } else if wireType == WT_64BIT {
      ok, data := stream.Read(8);
    } else if wireType == WT_STRING {
      ok := SkipString(stream);
    } else if wireType == WT_32BIT {
      ok, data := stream.Read(4);
    } else {
      ok := false;
    }
  }

  /** pb_decode_tag. With eof set on failure the message is at its end. */
  method ReadTag(stream: IStream) returns (ok: bool, wireType: nat, tag: nat, eof: bool)
    requires stream.Valid()
    modifies stream
    ensures stream.Valid() && stream.End() <= old(stream.End())
    ensures var t := DecodeTag(old(stream.Rest()));
      && (ok <==> t.TagRead?)
      && (!ok ==> (eof <==> t.TagEnd?))
      && (ok ==> wireType == t.wireType && tag == t.tag)
      && (!t.TagError? ==> stream.End() == old(stream.End()) && stream.Rest() == t.rest)
  {
    var word;
    wireType, tag := 0, 0;
    assert old(stream.Rest()) == [] ==> old(stream.bytesLeft) == 0;
    ok, word, eof := DecodeVarint32(stream);
    if !ok {
      return;
    }
    if word == 0 {
      return false, 0, 0, true;
    }
    return true, word % 8, word / 8, false;
  }

  /** pb_make_string_substream: the parent gives up the substream's bytes but does not move past them
      until the substream is closed. */
  method MakeStringSubstream(stream: IStream) returns (ok: bool, substream: IStream)
    requires stream.Valid()
    modifies stream
    ensures stream.Valid() && stream.End() <= old(stream.End()) && substream.Valid()
    ensures ok <==> TakePrefixed(old(stream.Rest())).Got?
    ensures ok ==> fresh(substream) && substream.buffer == stream.buffer
    ensures ok ==> substream.Rest() == TakePrefixed(old(stream.Rest())).value
    ensures ok ==> substream.End() + stream.bytesLeft == old(stream.End())
    ensures ok ==> stream.bytesLeft == |TakePrefixed(old(stream.Rest())).rest|
    ensures ok ==> stream.buffer[substream.End()..old(stream.End())] == TakePrefixed(old(stream.Rest())).rest
  {
    var size, eof;
    substream := stream;
    ok, size, eof := DecodeVarint32(stream);
    if !ok {
      return;
    }
    if stream.bytesLeft < size {
      ok := false;
      return;
    }
    substream := new IStream(stream.buffer, stream.state, size);
    stream.bytesLeft := stream.bytesLeft - size;
  }

  /** pb_close_string_substream: skip what the substream left, then move the parent past it. */
  method CloseStringSubstream(stream: IStream, substream: IStream) returns (ok: bool)
    requires stream.Valid() && substream.Valid() && stream != substream
    requires substream.End() + stream.bytesLeft <= |stream.buffer|
    modifies stream, substream
    ensures ok && stream.Valid() && stream.bytesLeft == old(stream.bytesLeft)
    ensures stream.state == old(substream.End())
  {
    if substream.bytesLeft > 0 {
      var data;
      ok, data := substream.Read(substream.bytesLeft);
      if !ok {
        return;
      }
    }
    stream.state := substream.state;
    ok := true;
  }

  // ---- field decoders ----

  /** Integers: pb_dec_varint, pb_dec_uvarint and pb_dec_svarint. */
  method DecodeInt(stream: IStream, f: Field) returns (ok: bool, v: Value)
    requires stream.Valid() && (f.ltype.Varint? || f.ltype.UVarint? || f.ltype.SVarint?)
    modifies stream
    ensures ReadAs(stream, DecodeValue(f, Int(0), old(stream.Rest())), ok)
    ensures ok ==> v == DecodeValue(f, Int(0), old(stream.Rest())).value
  {
    v := Int(0);
    var word;
    ok, word := DecodeVarint(stream);
    if !ok {
      return;
    }
    var i := IntOf(f, word);
    if i.None? {
      return false, v;
    }
    return true, Int(i.value);
  }

  /** pb_dec_fixed32 and pb_dec_fixed64. */
  method DecodeFixed(stream: IStream, n: nat) returns (ok: bool, v: Value)
    requires stream.Valid()
    modifies stream
    ensures ReadAs(stream, Take(n, old(stream.Rest())), ok)
    ensures ok ==> v == Word(LittleEndianValue(Take(n, old(stream.Rest())).value))
  {
    var bytes;
    ok, bytes := stream.Read(n);
    if !ok {
      return false, Int(0);
    }
    var word: nat, i: nat := 0, n;
    assert bytes[n..] == [];
    while i > 0
      invariant i <= n && word == LittleEndianValue(bytes[i..])
      modifies {}
    {
      i := i - 1;
      assert bytes[i..][1..] == bytes[i + 1..];
      word := (bytes[i] as nat) + 256 * word;
    }
    assert bytes[0..] == bytes;
    v := Word(word);
  }

  /** pb_dec_bytes, pb_dec_string and pb_dec_fixed_length_bytes. */
  method DecodeBlob(stream: IStream, f: Field) returns (ok: bool, v: Value)
    requires stream.Valid() && (f.ltype.PbBytes? || f.ltype.PbString? || f.ltype.FixedLengthBytes?)
    modifies stream
    ensures ReadAs(stream, DecodeValue(f, Int(0), old(stream.Rest())), ok)
    ensures ok ==> v == DecodeValue(f, Int(0), old(stream.Rest())).value
  {
    v := Int(0);
    var size, eof, data;
    ok, size, eof := DecodeVarint32(stream);
    if !ok {
      return;
    }
    if f.ltype.PbString? {
      if size + 1 > f.dataSize {
        return false, v;
      }
    } else {
      if size > PB_SIZE_MAX {
        return false, v;
      }
      if f.ltype.PbBytes? {
        if size + PB_BYTES_OFFSET > f.dataSize {
          return false, v;
        }
      } else if size == 0 {
        return true, Blob(Zeros(f.dataSize));
      } else if size != f.dataSize {
        return false, v;
      }
    }
    ok, data := stream.Read(size);
    v := Blob(data);
  }

  /** pb_dec_submessage: new array entries start from defaults, other submessages are merged into. */
  method DecodeSubmessage(stream: IStream, f: Field, dest: Value) returns (ok: bool, v: Value)
    requires stream.Valid() && DistinctInside(f) && f.ltype.SubMessage?
    modifies stream
    ensures ReadAs(stream, DecodeValue(f, dest, old(stream.Rest())), ok)
    ensures ok ==> v == DecodeValue(f, dest, old(stream.Rest())).value
    decreases f, 0
  {
    v := dest;
    var substream, slots, zeroTag, closed;
    ok, substream := MakeStringSubstream(stream);
    if !ok {
      return;
    }
    var into := if f.htype.Repeated? || !dest.Msg? then Defaults(f.ltype.fields) else dest.slots;
    ok, slots, zeroTag := DecodeNoInitIn(substream, f.ltype.fields, into);
    closed := CloseStringSubstream(stream, substream);
    if !closed {
      return false, v;
    }
    v := Msg(slots);
  }

  /** The PB_DECODERS table. */
  method DecodeValueIn(stream: IStream, f: Field, dest: Value) returns (ok: bool, v: Value)
    requires stream.Valid() && DistinctInside(f)
    modifies stream
    ensures ReadAs(stream, DecodeValue(f, dest, old(stream.Rest())), ok)
    ensures ok ==> v == DecodeValue(f, dest, old(stream.Rest())).value
    decreases f, 1
  {
    match f.ltype
    case Fixed32 => ok, v := DecodeFixed(stream, 4);
    case Fixed64 => ok, v := DecodeFixed(stream, 8);
    case PbBytes => ok, v := DecodeBlob(stream, f);
    case PbString => ok, v := DecodeBlob(stream, f);
    case FixedLengthBytes => ok, v := DecodeBlob(stream, f);
    case SubMessage(_) => ok, v := DecodeSubmessage(stream, f, dest);
    case Extension => ok, v := false, dest;
    case Varint => ok, v := DecodeInt(stream, f);
    case UVarint => ok, v := DecodeInt(stream, f);
    case SVarint => ok, v := DecodeInt(stream, f);
  }

  /** The packed branch of decode_static_field. */
  method DecodePackedIn(stream: IStream, f: Field, items: seq<Value>) returns (ok: bool, result: seq<Value>)
    requires stream.Valid() && DistinctInside(f)
    modifies stream
    ensures ReadAs(stream, PackedField(f, items, old(stream.Rest())), ok)
    ensures ok ==> result == PackedField(f, items, old(stream.Rest())).value
    decreases f, 2
  {
    result := items;
    var substream, closed, v;
    ok, substream := MakeStringSubstream(stream);
    if !ok {
      return;
    }
    ghost var body, end := substream.Rest(), substream.End();
    var status := true;
    while status && substream.bytesLeft > 0 && |result| < f.arraySize
      invariant substream.Valid() && fresh(substream) && substream.buffer == stream.buffer && substream.End() <= end
      invariant status ==>
        substream.End() == end && DecodePacked(f, result, substream.Rest()) == DecodePacked(f, items, body)
      invariant !status ==> DecodePacked(f, items, body).None?
      modifies substream
      decreases if status then 1 + substream.bytesLeft else 0
    {
      ghost var left := substream.Rest();
      status, v := DecodeValueIn(substream, f, Int(0));
      if status {
        result := result + [v];
      }
    }
    if substream.bytesLeft != 0 {
      return false, result;
    }
    closed := CloseStringSubstream(stream, substream);
    if !closed {
      return false, result;
    }
    ok := status;
  }

  function PackedField(f: Field, items: seq<Value>, s: seq<byte>): Parse<seq<Value>> {
    match TakePrefixed(s)
    case Fail => Fail
    case Got(body, r) => if DecodePacked(f, items, body).Some? then Got(DecodePacked(f, items, body).value, r) else Fail
  }

  /** decode_static_field */
  method DecodeFieldIn(stream: IStream, fields: seq<Field>, slots: seq<Slot>, i: nat, wireType: nat) returns (ok: bool,
    result: seq<Slot>)
    requires stream.Valid() && AllDistinct(fields) && |slots| == |fields| && i < |fields|
    modifies stream
    ensures ReadAs(stream, DecodeField(fields, slots, i, wireType, old(stream.Rest())), ok)
    ensures ok ==> result == DecodeField(fields, slots, i, wireType, old(stream.Rest())).value
    decreases fields, 0
  {
    result := slots;
    var f := fields[i];
    var v, items;
    match f.htype
    case Required =>
      ok, v := DecodeValueIn(stream, f, Content(slots[i]));
      result := slots[i := Req(v)];
    case Optional =>
      ok, v := DecodeValueIn(stream, f, Content(slots[i]));
      result := slots[i := if f.sizeOffset != 0 then Opt(true, v) else Sing(v)];
    case Repeated =>
      if wireType == WT_STRING && f.ltype.Packable() {
        ok, items := DecodePackedIn(stream, f, Items(slots[i]));
        result := slots[i := Rep(items)];
      } else if |Items(slots[i])| >= f.arraySize {
        ok := false;
      } else {
        ok, v := DecodeValueIn(stream, f, Int(0));
        result := slots[i := Rep(Items(slots[i]) + [v])];
      }
    case OneOf =>
      ok, v := DecodeValueIn(stream, f, Int(0));
      result := Select(fields, slots, i, v);
  }

  // ---- required fields: fields_seen is two 32-bit words ----

  /** The word whose bit k says whether base + k is in the set, for n bits. */
  ghost function WordOf(seen: set<nat>, base: nat, n: nat): nat
    decreases n, seen
  {
    if n == 0 then 0 else (if base in seen then 1 else 0) + 2 * WordOf(seen, base + 1, n - 1)
  }

  ghost predicate Marks(words: seq<nat>, seen: set<nat>) {
    |words| == 2 && words[0] == WordOf(seen, 0, 32) && words[1] == WordOf(seen, 32, 32)
  }

  lemma {:induction false} SetBit(seen: set<nat>, base: nat, n: nat, k: nat)
    requires k < n
    ensures BitOr(WordOf(seen, base, n), Shl(1, k)) == WordOf(seen + {base + k}, base, n)
    decreases n
  {
    var rest := WordOf(seen, base + 1, n - 1);
    if k == 0 {
      BitOrRight(rest);
      OtherBits(seen, base, base + 1, n - 1);
    } else {
      ShlMono(1, 1, k);
      SetBit(seen, base + 1, n - 1, k - 1);
    }
  }

  lemma {:induction false} BitOrRight(a: nat)
    ensures BitOr(a, 0) == a
  {
    if a > 0 {
      BitOrRight(a / 2);
    }
  }

  lemma {:induction false} OtherBits(seen: set<nat>, index: nat, base: nat, n: nat)
    requires index < base || base + n <= index
    ensures WordOf(seen + {index}, base, n) == WordOf(seen, base, n)
    decreases n
  {
    if n > 0 {
      OtherBits(seen, index, base + 1, n - 1);
    }
  }

  /** fields_seen[index >> 5] |= 1 << (index & 31) */
  method MarkSeen(words: array<nat>, index: nat, ghost seen: set<nat>)
    requires Marks(words[..], seen) && index < 64
    modifies words
    ensures Marks(words[..], seen + {index})
  {
    var i := index / 32;
    words[i] := BitOr(words[i], Shl(1, index % 32));
    if i == 0 {
      SetBit(seen, 0, 32, index);
      OtherBits(seen, index, 32, 32);
    } else {
      SetBit(seen, 32, 32, index - 32);
      OtherBits(seen, index, 0, 32);
    }
  }

  lemma {:induction false} ShrOnes(n: nat, m: nat)
    ensures Shl(1, n + m) > 0 && Shr(Shl(1, n + m) - 1, m) == Shl(1, n) - 1
  {
    ShlMono(1, 1, n + m);
    ShlMono(1, 1, n);
    if m > 0 {
      ShrOnes(n, m - 1);
    }
  }

  /** A word of n ones says that the first n are in the set and the later ones are not. */
  lemma {:induction false} OnesMeanAll(seen: set<nat>, base: nat, n: nat, size: nat)
    requires n <= size
    ensures WordOf(seen, base, size) == Shl(1, n) - 1
      <==> forall k: nat :: base <= k < base + size ==> (k in seen <==> k < base + n)
    decreases size
  {
    ShlMono(1, 1, n);
    if size > 0 {
      OnesMeanAll(seen, base + 1, if n > 0 then n - 1 else 0, size - 1);
    }
  }

  lemma {:induction false} WholeWord(words: seq<nat>, seen: set<nat>, i: nat)
    requires Marks(words, seen) && i < 2
    ensures words[i] == TWO32 - 1 <==> forall k: nat :: 32 * i <= k < 32 * i + 32 ==> k in seen
  {
    ShlWords();
    OnesMeanAll(seen, 32 * i, 32, 32);
  }

  lemma {:induction false} LastWord(words: seq<nat>, seen: set<nat>, i: nat, n: nat)
    requires Marks(words, seen) && i < 2 && 0 < n < 32 && forall k <- seen :: k < 32 * i + n
    ensures words[i] == Shr(TWO32 - 1, 32 - n) <==> forall k: nat :: 32 * i <= k < 32 * i + n ==> k in seen
  {
    ShlWords();
    ShrOnes(n, 32 - n);
    OnesMeanAll(seen, 32 * i, n, 32);
  }

  /** The check at the end of pb_decode_noinit: whole words first, then the remaining bits. */
  method CheckRequired(words: array<nat>, fieldCount: nat, ghost seen: set<nat>) returns (ok: bool)
    requires Marks(words[..], seen) && forall k <- seen :: k < fieldCount && k < PB_MAX_REQUIRED_FIELDS
    ensures ok <==> forall k: nat :: k < fieldCount && k < PB_MAX_REQUIRED_FIELDS ==> k in seen
  {
    var count := if fieldCount > PB_MAX_REQUIRED_FIELDS then PB_MAX_REQUIRED_FIELDS else fieldCount;
    var allbits: nat := TWO32 - 1;
    var whole := count / 32;
    for i := 0 to whole
      invariant forall k: nat :: k < 32 * i ==> k in seen
    {
      WholeWord(words[..], seen, i);
      if words[i] != allbits {
        return false;
      }
    }
    if count % 32 != 0 {
      LastWord(words[..], seen, whole, count % 32);
      if words[whole] != Shr(allbits, 32 - count % 32) {
        return false;
      }
    }
    return true;
  }

  // ---- messages ----

  /** find_extension_field: step to an extension entry, or all the way round. */
  method FindExtensionField(iter: FieldIter) returns (found: bool)
    requires iter.Valid() && iter.pos < |iter.fields|
    modifies iter
    ensures iter.Valid() && iter.pos < |iter.fields|
  {
    var start := iter.pos;
    while true
      invariant iter.Valid() && iter.pos < |iter.fields| && start < |iter.fields|
      decreases if start <= iter.pos then start + |iter.fields| - iter.pos else start - iter.pos
    {
      if iter.fields[iter.pos].ltype.Extension? {
        return true;
      }
      var more := iter.Next();
      if iter.pos == start {
        return false;
      }
    }
  }

  /** The progress the loop's variables record. */
  ghost predicate Tracks(p: Progress, fields: seq<Field>, words: seq<nat>, slots: seq<Slot>, fixedField: Option<nat>) {
    && Marks(words, p.seen) && SeenInRange(fields, p.seen)
    && p.slots == slots && |slots| == |fields| && p.fixedField == fixedField
  }

  /** A tag that a table entry answers to. */
  method ReceiveField(stream: IStream, iter: FieldIter, words: array<nat>, slots: seq<Slot>, fixedField: Option<nat>,
    wireType: nat, ghost p: Progress)
    returns (ok: bool, result: seq<Slot>, fixedNow: Option<nat>, ghost q: Progress)
    requires stream.Valid() && iter.Valid() && iter.pos < |iter.fields| && AllDistinct(iter.fields)
    requires Tracks(p, iter.fields, words[..], slots, fixedField)
    modifies stream, words
    ensures stream.Valid() && stream.End() <= old(stream.End())
    ensures var a := Arrive(iter.fields, p, iter.pos);
      && (ok <==> a.Some? && DecodeField(iter.fields, a.value.slots, iter.pos, wireType, old(stream.Rest())).Got?)
      && (ok ==> q == a.value.(slots := result))
      && (ok ==>
        DecodeField(iter.fields, a.value.slots, iter.pos, wireType, old(stream.Rest())) == Got(result, stream.Rest()))
    ensures ok ==> stream.End() == old(stream.End()) && Tracks(q, iter.fields, words[..], result, fixedNow)
    decreases iter.fields, 1
  {
    ghost var seen := p.seen;
    var f := iter.fields[iter.pos];
    result, fixedNow, q := slots, fixedField, p;
    if f.htype.Repeated? && f.sizeOffset == 0 {
      if fixedField != Some(iter.pos) {
        if fixedField.Some? && fixedField.value < |slots| &&
          |Items(slots[fixedField.value])| != iter.fields[fixedField.value].arraySize {
          return false, slots, fixedField, p;
        }
        result := slots[iter.pos := Rep([])];
        fixedNow := Some(iter.pos);
      }
    }
    if f.htype.Required? && iter.requiredFieldIndex < PB_MAX_REQUIRED_FIELDS {
      RequiredGrows(iter.fields, iter.pos);
      MarkSeen(words, iter.requiredFieldIndex, p.seen);
      seen := p.seen + {iter.requiredFieldIndex};
    }
    assert Arrive(iter.fields, p, iter.pos) == Some(Progress(result, seen, fixedNow));
    ok, result := DecodeFieldIn(stream, iter.fields, result, iter.pos, wireType);
    q := Progress(result, seen, fixedNow);
  }

  lemma {:induction false} RequiredGrows(fields: seq<Field>, pos: nat)
    requires pos < |fields| && fields[pos].htype.Required?
    ensures RequiredBefore(fields, pos) < RequiredBefore(fields, |fields|)
  {
    RequiredMono(fields, pos + 1, |fields|);
  }

  lemma {:induction false} RequiredMono(fields: seq<Field>, i: nat, j: nat)
    requires i <= j <= |fields|
    ensures RequiredBefore(fields, i) <= RequiredBefore(fields, j)
  {
    if i < j {
      RequiredMono(fields, i, j - 1);
    }
  }

  /** The number of required fields: seek to the end of the table from wherever the iterator stands. */
  method CountRequired(iter: FieldIter) returns (count: nat)
    requires iter.Valid()
    modifies iter
    ensures count == RequiredBefore(iter.fields, |iter.fields|)
  {
    count := iter.requiredFieldIndex;
    if iter.fields == [] {
      return;
    }
    var last := iter.fields[iter.pos].htype;
    var more := iter.Next();
    while more
      invariant iter.Valid()
      invariant if more then iter.pos < |iter.fields| else
        count == RequiredBefore(iter.fields, |iter.fields| - 1) && last == iter.fields[|iter.fields| - 1].htype
      decreases more, |iter.fields| - iter.pos
    {
      count := iter.requiredFieldIndex;
      last := iter.fields[iter.pos].htype;
      more := iter.Next();
    }
    if last.Required? {
      count := count + 1;
    }
  }

  /** A tag that no table entry answers to: an extension would be looked for from its range on. */
  method SkipUnknown(stream: IStream, iter: FieldIter, wireType: nat, tag: nat, rangeStart: nat)
    returns (ok: bool, extensionRangeStart: nat)
    requires stream.Valid() && iter.Valid()
    modifies stream, iter
    ensures iter.Valid() && ReadAs(stream, SkipField(wireType, old(stream.Rest())), ok)
  {
    extensionRangeStart := rangeStart;
    if tag >= extensionRangeStart && iter.fields != [] {
      var found := FindExtensionField(iter);
      extensionRangeStart := if found then iter.fields[iter.pos].tag else TWO32 - 1;
    }
    ok := SkipFieldIn(stream, wireType);
  }

  /** The loop of pb_decode_noinit; fieldsSeen, the iterator and the fixed-count variables are its state. */
  method DecodeLoopIn(stream: IStream, iter: FieldIter, words: array<nat>, slots: seq<Slot>, ghost start: Progress)
    returns (ok: bool, result: seq<Slot>, fixedField: Option<nat>, zeroTag: bool, ghost p: Progress)
    requires stream.Valid() && iter.Valid() && AllDistinct(iter.fields)
    requires Tracks(start, iter.fields, words[..], slots, None)
    modifies stream, iter, words
    ensures stream.Valid() && stream.End() <= old(stream.End()) && iter.Valid()
    ensures var r := DecodeLoop(iter.fields, start, old(stream.Rest()));
      && (ok <==> r.LoopDone?)
      && (ok ==> stream.End() == old(stream.End()) && r == LoopDone(p, stream.Rest(), zeroTag))
    ensures ok ==> Tracks(p, iter.fields, words[..], result, fixedField)
    decreases iter.fields, 2
  {
    var fields := iter.fields;
    ghost var all, left := DecodeLoop(fields, start, stream.Rest()), stream.Rest();
    ok, result, fixedField, zeroTag, p := true, slots, None, false, start;
    var extensionRangeStart := 0;
    while stream.bytesLeft > 0
      invariant stream.Valid() && stream.End() == old(stream.End()) && iter.Valid() && ok && !zeroTag
      invariant Tracks(p, fields, words[..], result, fixedField)
      invariant left == stream.Rest() && all == DecodeLoop(fields, p, left)
      decreases stream.bytesLeft
    {
      var wireType, tag, eof, found;
      ok, wireType, tag, eof := ReadTag(stream);
      if !ok {
        return eof, result, fixedField, eof, p;
      }
      found := iter.Find(tag);
      if !found {
        UnknownStep(fields, p, left);
        ok, extensionRangeStart := SkipUnknown(stream, iter, wireType, tag, extensionRangeStart);
        if !ok {
          return;
        }
      } else if fields == [] {
        return false, result, fixedField, false, p;
      } else {
        KnownStep(fields, p, left, iter.pos);
        ok, result, fixedField, p := ReceiveField(stream, iter, words, result, fixedField, wireType, p);
        if !ok {
          return;
        }
      }
      left := stream.Rest();
    }
  }

  /** pb_decode_noinit */
  method DecodeNoInitIn(stream: IStream, fields: seq<Field>, slots: seq<Slot>) returns (ok: bool, result: seq<Slot>,
    zeroTag: bool)
    requires stream.Valid() && AllDistinct(fields)
    modifies stream
    ensures stream.Valid() && stream.End() <= old(stream.End())
    ensures var r := DecodeNoInit(fields, slots, old(stream.Rest()));
      && (ok <==> r.Done?)
      && (ok ==> stream.End() == old(stream.End()) && r == Done(result, stream.Rest(), zeroTag))
    decreases fields, 3
  {
    result, zeroTag := slots, false;
    if |slots| != |fields| {
      return false, slots, false;
    }
    var words := new nat[2](_ => 0);
    NothingSeen(0, 32);
    NothingSeen(32, 32);
    var iter := new FieldIter(fields);
    var fixedField;
    ghost var p;
    ok, result, fixedField, zeroTag, p := DecodeLoopIn(stream, iter, words, slots, Progress(slots, {}, None));
    if !ok {
      return;
    }
    ok := CheckAll(iter, words, result, fixedField, p);
  }

  /** The end of pb_decode_noinit: the fixed-count field being received is complete, and no required field
      is missing. */
  method CheckAll(iter: FieldIter, words: array<nat>, slots: seq<Slot>, fixedField: Option<nat>, ghost p: Progress)
    returns (ok: bool)
    requires iter.Valid() && Tracks(p, iter.fields, words[..], slots, fixedField)
    modifies iter
    ensures ok <==> FixedComplete(iter.fields, p) && RequiredSeen(iter.fields, p.seen)
  {
    if fixedField.Some? && fixedField.value < |iter.fields| &&
      |Items(slots[fixedField.value])| != iter.fields[fixedField.value].arraySize {
      return false;
    }
    var count := CountRequired(iter);
    ok := CheckRequired(words, count, p.seen);
  }

  /** pb_decode */
  method DecodeIn(stream: IStream, fields: seq<Field>) returns (ok: bool, result: seq<Slot>, zeroTag: bool)
    requires stream.Valid() && AllDistinct(fields)
    modifies stream
    ensures stream.Valid() && stream.End() <= old(stream.End())
    ensures var r := Decode(fields, old(stream.Rest()));
      && (ok <==> r.Done?)
      && (ok ==> stream.End() == old(stream.End()) && r == Done(result, stream.Rest(), zeroTag))
  {
    ok, result, zeroTag := DecodeNoInitIn(stream, fields, Defaults(fields));
  }

  /** No table, at any depth, has two entries with one tag. */
  ghost predicate AllDistinct(fields: seq<Field>)
    decreases fields
  {
    DistinctTags(fields) && forall f <- fields :: DistinctInside(f)
  }

  /** A well-formed table decodes the same from wherever its iterator stands. */
  lemma {:induction false} WellFormedIsDistinct(fields: seq<Field>)
    requires PbRoundTrip.WellFormed(fields)
    ensures AllDistinct(fields)
    decreases fields
  {
    forall f | f in fields ensures DistinctInside(f) {
      InsideIsDistinct(f);
    }
  }

  lemma {:induction false} InsideIsDistinct(f: Field)
    requires PbRoundTrip.WellFormedField(f)
    ensures DistinctInside(f)
    decreases f
  {
    if f.ltype.SubMessage? {
      WellFormedIsDistinct(f.ltype.fields);
    }
  }

  ghost predicate DistinctInside(f: Field)
    decreases f
  {
    f.ltype.SubMessage? ==> AllDistinct(f.ltype.fields)
  }

  lemma {:induction false} NothingSeen(base: nat, n: nat)
    ensures WordOf({}, base, n) == 0
    decreases n
  {
    if n > 0 {
      NothingSeen(base + 1, n - 1);
    }
  }

  ghost predicate SeenInRange(fields: seq<Field>, seen: set<nat>) {
    forall k <- seen :: k < RequiredBefore(fields, |fields|) && k < PB_MAX_REQUIRED_FIELDS
  }
}
