/** What pb_decode.c reads, as a function of the field table, the struct decoded into and the input. */
module PbDecode {
  import opened Bytes
  import opened PbTypes
  import opened PbVarint
  import opened PbEncode

  // ---- reading scalars ----

  function Take(n: nat, s: seq<byte>): (p: Parse<seq<byte>>)
    ensures p.Got? ==> |p.value| == n && s == p.value + p.rest
  {
    if |s| < n then Fail else Got(s[..n], s[n..])
  }

  function LittleEndianValue(s: seq<byte>): nat {
    if s == [] then 0 else s[0] + 256 * LittleEndianValue(s[1..])
  }

  /** A two's complement word of 2 * half values, as a signed number. */
  function Signed(w: nat, half: nat): int {
    if w < half then w else w - 2 * half
  }

  /** pb_decode_svarint's unfolding of the zigzag word. */
  function UnZigZag(w: uint64): int {
    if w % 2 == 1 then -(w / 2) - 1 else w / 2
  }

  /** pb_dec_varint: 32-bit and smaller fields take the low word's sign; what does not fit is an error. */
  function IntOf(f: Field, w: uint64): Option<int> {
    var i: int := match f.ltype
      case Varint => if f.dataSize == 8 then Signed(w, TWO63) else Signed(w % TWO32, TWO31)
      case SVarint => UnZigZag(w)
      case _ => w;
    if (if f.ltype.UVarint? then FitsUnsigned(f.dataSize, i) else FitsSigned(f.dataSize, i)) then Some(i) else None
  }

  /** A length, then that many bytes: pb_make_string_substream, and the body of the string decoders. */
  function TakePrefixed(s: seq<byte>): (p: Parse<seq<byte>>)
    ensures p.Got? ==> |p.rest| < |s| && |p.value| + |p.rest| < |s|
  {
    match Varint32(s)
    case Fail => Fail
    case Got(n, r) => Take(n, r)
  }

  function SkipVarint(s: seq<byte>): (p: Parse<()>)
    ensures p.Got? ==> |p.rest| < |s|
  {
    if s == [] then Fail else if s[0] < 128 then Got((), s[1..]) else SkipVarint(s[1..])
  }

  function Discard(p: Parse<seq<byte>>): Parse<()> {
    if p.Got? then Got((), p.rest) else Fail
  }

  /** pb_skip_field */
  function SkipField(wireType: nat, s: seq<byte>): (p: Parse<()>)
    ensures p.Got? ==> |p.rest| < |s|
  {
    if wireType == WT_VARINT then SkipVarint(s)
    else if wireType == WT_64BIT then Discard(Take(8, s))
    else if wireType == WT_STRING then Discard(TakePrefixed(s))
    else if wireType == WT_32BIT then Discard(Take(4, s))
    else Fail
  }

  datatype TagResult = TagError | TagEnd(rest: seq<byte>) | TagRead(wireType: nat, tag: nat, rest: seq<byte>)

  /** pb_decode_tag; TagEnd is its "eof": no input, or a zero tag. */
  function DecodeTag(s: seq<byte>): (t: TagResult)
    ensures t.TagRead? ==> |t.rest| < |s|
  {
    if s == [] then TagEnd([])
    else
      match Varint32(s)
      case Fail => TagError
      case Got(w, rest) => if w == 0 then TagEnd(rest) else TagRead(w % 8, w / 8, rest)
  }

  // ---- fields ----

  /** The struct so far, the required fields seen, and the fixed-count field being received. */
  datatype Progress = Progress(slots: seq<Slot>, seen: set<nat>, fixedField: Option<nat>)

  /** How a decoding loop ends: at the end of input or at a zero tag, with the unread input. */
  datatype LoopResult = LoopError | LoopDone(p: Progress, rest: seq<byte>, zeroTag: bool)

  datatype Outcome = Error | Done(slots: seq<Slot>, rest: seq<byte>, zeroTag: bool)

  function Content(s: Slot): Value {
    match s
    case Req(v) => v
    case Opt(_, v) => v
    case Sing(v) => v
    case _ => Int(0)
  }

  function Items(s: Slot): seq<Value> {
    if s.Rep? then s.items else []
  }

  /** Selecting member i of its union deselects the others. */
  function Select(fields: seq<Field>, slots: seq<Slot>, i: nat, v: Value): (r: seq<Slot>)
    requires |slots| == |fields| && i < |fields|
    ensures |r| == |fields|
  {
    seq(|fields|, j requires 0 <= j < |fields| =>
      if j == i then Member(Some(v)) else if SameUnion(fields, i, j) then Member(None) else slots[j])
  }

  /** The PB_DECODERS table: a value into the memory that holds dest. */
  function DecodeValue(f: Field, dest: Value, s: seq<byte>): (p: Parse<Value>)
    ensures p.Got? ==> |p.rest| < |s|
    decreases f, |s|, 0
  {
    match f.ltype
    case Fixed32 => var p := Take(4, s); if p.Got? then Got(Word(LittleEndianValue(p.value)), p.rest) else Fail
    case Fixed64 => var p := Take(8, s); if p.Got? then Got(Word(LittleEndianValue(p.value)), p.rest) else Fail
    case PbBytes =>
      (match Varint32(s)
       case Fail => Fail
       case Got(n, r) =>
         if n > PB_SIZE_MAX || n + PB_BYTES_OFFSET > f.dataSize || |r| < n then Fail else Got(Blob(r[..n]), r[n..]))
    case PbString =>
      (match Varint32(s)
       case Fail => Fail
       case Got(n, r) => if n + 1 > f.dataSize || |r| < n then Fail else Got(Blob(r[..n]), r[n..]))
    case FixedLengthBytes =>
      (match Varint32(s)
       case Fail => Fail
       case Got(n, r) =>
         if n > PB_SIZE_MAX then Fail
         else if n == 0 then Got(Blob(Zeros(f.dataSize)), r)
         else if n != f.dataSize || |r| < n then Fail
         else Got(Blob(r[..n]), r[n..]))
    case SubMessage(fields) =>
      (match TakePrefixed(s)
       case Fail => Fail
       case Got(body, r) =>
         var into := if f.htype.Repeated? || !dest.Msg? then Defaults(fields) else dest.slots;
         match DecodeNoInit(fields, into, body)
         case Error => Fail
         case Done(slots, _, _) => Got(Msg(slots), r))
    case Extension => Fail
    case _ =>
      (match Varint64(s)
       case Fail => Fail
       case Got(w, r) => if IntOf(f, w).Some? then Got(Int(IntOf(f, w).value), r) else Fail)
  }

  /** The packed loop of decode_static_field: elements until the substream or the array is used up;
      input left over is "array overflow". */
  function DecodePacked(f: Field, items: seq<Value>, s: seq<byte>): Option<seq<Value>>
    decreases f, |s|, 1
  {
    if s == [] then Some(items)
    else if |items| >= f.arraySize then None
    else
      match DecodeValue(f, Int(0), s)
      case Fail => None
      case Got(v, r) => DecodePacked(f, items + [v], r)
  }

  /** decode_static_field */
  function DecodeField(fields: seq<Field>, slots: seq<Slot>, i: nat, wireType: nat, s: seq<byte>): (p: Parse<seq<Slot>>)
    requires |slots| == |fields| && i < |fields|
    ensures p.Got? ==> |p.rest| < |s| && |p.value| == |fields|
    decreases fields, |s|, 0
  {
    var f := fields[i];
    match f.htype
    case Required =>
      (match DecodeValue(f, Content(slots[i]), s)
       case Fail => Fail
       case Got(v, r) => Got(slots[i := Req(v)], r))
    case Optional =>
      (match DecodeValue(f, Content(slots[i]), s)
       case Fail => Fail
       case Got(v, r) => Got(slots[i := if f.sizeOffset != 0 then Opt(true, v) else Sing(v)], r))
    case Repeated =>
      if wireType == WT_STRING && f.ltype.Packable() then
        (match TakePrefixed(s)
         case Fail => Fail
         case Got(body, r) =>
           match DecodePacked(f, Items(slots[i]), body)
           case None => Fail
           case Some(items) => Got(slots[i := Rep(items)], r))
      else if |Items(slots[i])| >= f.arraySize then Fail
      else
        (match DecodeValue(f, Int(0), s)
         case Fail => Fail
         case Got(v, r) => Got(slots[i := Rep(Items(slots[i]) + [v])], r))
    case OneOf =>
      (match DecodeValue(f, Int(0), s)
       case Fail => Fail
       case Got(v, r) => Got(Select(fields, slots, i, v), r))
  }

  // ---- messages ----

  /** The tracked fixed-count field has received all of its elements. */
  predicate FixedComplete(fields: seq<Field>, p: Progress) {
    p.fixedField.Some? && p.fixedField.value < |fields| && p.fixedField.value < |p.slots| ==>
      |Items(p.slots[p.fixedField.value])| == fields[p.fixedField.value].arraySize
  }

  /** What pb_decode_noinit does on finding field i, before decoding it: a fixed-count field that was
      not the one being received starts from its first element, if the previous one is complete. */
  function Arrive(fields: seq<Field>, p: Progress, i: nat): (r: Option<Progress>)
    requires i < |fields| == |p.slots|
    ensures r.Some? ==> |r.value.slots| == |fields|
  {
    var f := fields[i];
    if f.FixedCount() && p.fixedField != Some(i) then
      if FixedComplete(fields, p) then Some(Progress(p.slots[i := Rep([])], p.seen, Some(i))) else None
    else if f.htype.Required? && RequiredBefore(fields, i) < PB_MAX_REQUIRED_FIELDS then
      Some(p.(seen := p.seen + {RequiredBefore(fields, i)}))
    else Some(p)
  }

  /** The loop of pb_decode_noinit. A table without entries answers to tag 0 with its terminator, a
      zero-sized varint field that no input satisfies. */
  function DecodeLoop(fields: seq<Field>, p: Progress, s: seq<byte>): (r: LoopResult)
    requires |p.slots| == |fields|
    ensures r.LoopDone? ==> |r.p.slots| == |fields|
    ensures r.LoopDone? && !r.zeroTag ==> r.rest == []
    decreases fields, |s|, 1
  {
    if s == [] then LoopDone(p, [], false)
    else
      match DecodeTag(s)
      case TagError => LoopError
      case TagEnd(rest) => LoopDone(p, rest, true)
      case TagRead(wireType, tag, rest) =>
        if fields == [] && tag == 0 then LoopError
        else
          match IndexOf(fields, 0, tag)
          case None =>
            (match SkipField(wireType, rest)
             case Fail => LoopError
             case Got(_, r) => DecodeLoop(fields, p, r))
          case Some(i) =>
            match Arrive(fields, p, i)
            case None => LoopError
            case Some(q) =>
              match DecodeField(fields, q.slots, i, wireType, rest)
              case Fail => LoopError
              case Got(slots, r) => DecodeLoop(fields, q.(slots := slots), r)
  }

  /** The first 64 required fields have all been seen. */
  predicate RequiredSeen(fields: seq<Field>, seen: set<nat>) {
    forall k: nat :: k < RequiredBefore(fields, |fields|) && k < PB_MAX_REQUIRED_FIELDS ==> k in seen
  }

  /** pb_decode_noinit: decode into an existing struct. */
  function DecodeNoInit(fields: seq<Field>, slots: seq<Slot>, s: seq<byte>): (r: Outcome)
    ensures r.Done? ==> |r.slots| == |fields|
    ensures r.Done? && !r.zeroTag ==> r.rest == []
    decreases fields, |s|, 2
  {
    if |slots| != |fields| then Error
    else
      match DecodeLoop(fields, Progress(slots, {}, None), s)
      case LoopError => Error
      case LoopDone(p, rest, zeroTag) =>
        if FixedComplete(fields, p) && RequiredSeen(fields, p.seen) then Done(p.slots, rest, zeroTag) else Error
  }

  /** pb_decode: set defaults, then decode. */
  function Decode(fields: seq<Field>, s: seq<byte>): Outcome {
    DecodeNoInit(fields, Defaults(fields), s)
  }

  // One turn of DecodeLoop, case by case.

  lemma {:induction false} UnknownStep(fields: seq<Field>, p: Progress, s: seq<byte>)
    requires |p.slots| == |fields| && s != [] && DecodeTag(s).TagRead?
    requires var t := DecodeTag(s); IndexOf(fields, 0, t.tag).None? && !(fields == [] && t.tag == 0)
    ensures var skipped := SkipField(DecodeTag(s).wireType, DecodeTag(s).rest);
      DecodeLoop(fields, p, s) == if skipped.Got? then DecodeLoop(fields, p, skipped.rest) else LoopError
  {
  }

  lemma {:induction false} KnownStep(fields: seq<Field>, p: Progress, s: seq<byte>, i: nat)
    requires |p.slots| == |fields| && s != [] && DecodeTag(s).TagRead?
    requires IndexOf(fields, 0, DecodeTag(s).tag) == Some(i)
    ensures var q := Arrive(fields, p, i);
      DecodeLoop(fields, p, s) ==
        if q.None? then LoopError
        else
          var d := DecodeField(fields, q.value.slots, i, DecodeTag(s).wireType, DecodeTag(s).rest);
          if d.Fail? then LoopError else DecodeLoop(fields, q.value.(slots := d.value), d.rest)
  {
  }
}
