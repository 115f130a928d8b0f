/** Complete messages: an input that leaves out one of the first 64 required fields, or part of a fixed-count
    array, is refused. */
module PbComplete {
  import opened Bytes
  import opened PbTypes
  import opened PbEncode
  import opened PbDecode
  import opened PbMerge

  /** Walking from tag to tag, as far as the input goes or to a zero tag, the walk meets a tag of entry i. */
  predicate Meets(fields: seq<Field>, a: seq<byte>, i: nat)
    decreases |a|
  {
    a != [] &&
    var t := DecodeTag(a);
    t.TagRead? &&
    var at := IndexOf(fields, 0, t.tag);
    var next := if at.None? then SkipField(t.wireType, t.rest) else FieldEnd(fields[at.value], t.wireType, t.rest);
    at == Some(i) || (next.Got? && Meets(fields, next.rest, i))
  }

  /** One of the required fields that are kept track of. */
  predicate Tracked(fields: seq<Field>, i: nat) {
    i < |fields| && fields[i].htype.Required? && RequiredBefore(fields, i) < 64
  }

  lemma {:induction false} BeforeMono(fields: seq<Field>, i: nat, j: nat)
    requires i < j <= |fields| && fields[i].htype.Required?
    ensures RequiredBefore(fields, i) < RequiredBefore(fields, j)
  {
    if i < j - 1 {
      BeforeMono(fields, i, j - 1);
    }
  }

  lemma {:induction false} NumbersTell(fields: seq<Field>, i: nat, j: nat)
    requires Tracked(fields, i) && Tracked(fields, j) && RequiredBefore(fields, i) == RequiredBefore(fields, j)
    ensures i == j
  {
    if i < j {
      BeforeMono(fields, i, j);
    } else if j < i {
      BeforeMono(fields, j, i);
    }
  }

  /** The k-th required field. */
  lemma {:induction false} NthRequired(fields: seq<Field>, n: nat, k: nat) returns (i: nat)
    requires n <= |fields| && k < RequiredBefore(fields, n)
    ensures i < n && fields[i].htype.Required? && RequiredBefore(fields, i) == k
  {
    if k < RequiredBefore(fields, n - 1) {
      i := NthRequired(fields, n - 1, k);
    } else {
      i := n - 1;
    }
  }

  lemma {:induction false} ArriveSees(fields: seq<Field>, p: Progress, i: nat, j: nat)
    requires i < |fields| == |p.slots| && Arrive(fields, p, i).Some? && Tracked(fields, j)
    ensures RequiredBefore(fields, j) in Arrive(fields, p, i).value.seen <==>
      RequiredBefore(fields, j) in p.seen || i == j
  {
    if Tracked(fields, i) && RequiredBefore(fields, i) == RequiredBefore(fields, j) {
      NumbersTell(fields, i, j);
    }
  }

  /** The loop has seen what it had seen before, and what the walk meets. */
  lemma {:induction false} LoopSees(fields: seq<Field>, p: Progress, a: seq<byte>, i: nat)
    requires |p.slots| == |fields| && DecodeLoop(fields, p, a).LoopDone? && Tracked(fields, i)
    ensures RequiredBefore(fields, i) in DecodeLoop(fields, p, a).p.seen <==>
      RequiredBefore(fields, i) in p.seen || Meets(fields, a, i)
    decreases |a|
  {
    if a != [] {
      var t := DecodeTag(a);
      if t.TagRead? {
        var at := IndexOf(fields, 0, t.tag);
        if at.None? {
          LoopSees(fields, p, SkipField(t.wireType, t.rest).rest, i);
        } else {
          var q := Arrive(fields, p, at.value).value;
          var d := DecodeField(fields, q.slots, at.value, t.wireType, t.rest);
          ArriveSees(fields, p, at.value, i);
          FieldEnds(fields, q.slots, at.value, t.wireType, t.rest);
          LoopSees(fields, q.(slots := d.value), d.rest, i);
        }
      }
    }
  }

  /** An input with every required field (of the first 64). */
  predicate HasRequired(fields: seq<Field>, a: seq<byte>) {
    forall i: nat :: i < |fields| && Tracked(fields, i) ==> Meets(fields, a, i)
  }

  /** An input that the decoding loop reads to its end, with no array of fixed count left short, is refused
      if and only if it leaves out a required field. */
  lemma {:induction false} RefusedForRequired(fields: seq<Field>, slots: seq<Slot>, a: seq<byte>)
    requires |slots| == |fields| && DecodeLoop(fields, Progress(slots, {}, None), a).LoopDone?
    requires FixedComplete(fields, DecodeLoop(fields, Progress(slots, {}, None), a).p)
    ensures DecodeNoInit(fields, slots, a).Done? <==> HasRequired(fields, a)
  {
    var p := Progress(slots, {}, None);
    var seen := DecodeLoop(fields, p, a).p.seen;
    forall i | 0 <= i < |fields| && Tracked(fields, i)
      ensures RequiredBefore(fields, i) in seen <==> Meets(fields, a, i)
    {
      LoopSees(fields, p, a, i);
    }
    if RequiredSeen(fields, seen) {
      forall i: nat | i < |fields| && Tracked(fields, i) ensures Meets(fields, a, i) {
        BeforeMono(fields, i, |fields|);
      }
    }
    if HasRequired(fields, a) {
      forall k: nat | k < RequiredBefore(fields, |fields|) && k < PB_MAX_REQUIRED_FIELDS ensures k in seen {
        var i := NthRequired(fields, |fields|, k);
      }
    }
  }

  /** In particular no input is decoded that leaves one out. */
  lemma {:induction false} DecodedHasRequired(fields: seq<Field>, slots: seq<Slot>, a: seq<byte>)
    requires DecodeNoInit(fields, slots, a).Done?
    ensures HasRequired(fields, a)
  {
    RefusedForRequired(fields, slots, a);
  }

  // ---- fixed-count arrays ----

  /** The array is whole, or being received. */
  predicate Settled(fields: seq<Field>, p: Progress, i: nat)
    requires i < |fields| == |p.slots|
  {
    p.fixedField == Some(i) || |Items(p.slots[i])| == fields[i].arraySize
  }

  /** Decoding one field leaves a repeated one as it is. */
  lemma {:induction false} OthersKept(fields: seq<Field>, slots: seq<Slot>, j: nat, wireType: nat, s: seq<byte>, i: nat)
    requires |slots| == |fields| && j < |fields| && i < |fields| && i != j && fields[i].htype.Repeated?
    requires DecodeField(fields, slots, j, wireType, s).Got?
    ensures DecodeField(fields, slots, j, wireType, s).value[i] == slots[i]
  {
  }

  lemma {:induction false} ArriveSettles(fields: seq<Field>, p: Progress, j: nat, i: nat)
    requires i < |fields| == |p.slots| && j < |fields| && fields[i].FixedCount() && Arrive(fields, p, j).Some?
    requires Settled(fields, p, i) || i == j
    ensures Settled(fields, Arrive(fields, p, j).value, i)
    ensures i == j ==> Arrive(fields, p, j).value.fixedField == Some(i)
  {
  }

  lemma {:induction false} LoopSettles(fields: seq<Field>, p: Progress, a: seq<byte>, i: nat)
    requires i < |fields| == |p.slots| && fields[i].FixedCount() && DecodeLoop(fields, p, a).LoopDone?
    requires Settled(fields, p, i) || Meets(fields, a, i)
    ensures Settled(fields, DecodeLoop(fields, p, a).p, i)
    decreases |a|
  {
    if a != [] {
      var t := DecodeTag(a);
      if t.TagRead? {
        var at := IndexOf(fields, 0, t.tag);
        if at.None? {
          LoopSettles(fields, p, SkipField(t.wireType, t.rest).rest, i);
        } else {
          var j := at.value;
          var q := Arrive(fields, p, j).value;
          var d := DecodeField(fields, q.slots, j, t.wireType, t.rest);
          FieldEnds(fields, q.slots, j, t.wireType, t.rest);
          if i == j || Settled(fields, p, i) {
            ArriveSettles(fields, p, j, i);
          }
          if i != j {
            OthersKept(fields, q.slots, j, t.wireType, t.rest, i);
          }
          LoopSettles(fields, q.(slots := d.value), d.rest, i);
        }
      }
    }
  }

  /** Every fixed-count array that an accepted input has anything of is received whole. */
  lemma {:induction false} FixedArraysWhole(fields: seq<Field>, slots: seq<Slot>, a: seq<byte>, i: nat)
    requires DecodeNoInit(fields, slots, a).Done? && i < |fields| && fields[i].FixedCount() && Meets(fields, a, i)
    ensures |Items(DecodeNoInit(fields, slots, a).slots[i])| == fields[i].arraySize
  {
    LoopSettles(fields, Progress(slots, {}, None), a, i);
  }

  // ---- counted arrays ----

  /** How many values a packed array holds. */
  function PackedCount(t: LType, s: seq<byte>): nat
    decreases |s|
  {
    if s == [] then 0
    else
      match ValueEnd(t, s)
      case Fail => 0
      case Got(_, r) => 1 + PackedCount(t, r)
  }

  /** How many elements of entry i the walk from tag to tag meets. */
  function Elements(fields: seq<Field>, a: seq<byte>, i: nat): nat
    requires i < |fields|
    decreases |a|
  {
    if a == [] || !DecodeTag(a).TagRead? then 0
    else
      var t := DecodeTag(a);
      var at := IndexOf(fields, 0, t.tag);
      var next := if at.None? then SkipField(t.wireType, t.rest) else FieldEnd(fields[at.value], t.wireType, t.rest);
      (if at == Some(i) then ElementsHere(fields[i], t.wireType, t.rest) else 0)
        + if next.Got? then Elements(fields, next.rest, i) else 0
  }

  function ElementsHere(f: Field, wireType: nat, s: seq<byte>): nat {
    var body := TakePrefixed(s);
    if wireType == WT_STRING && f.ltype.Packable() && body.Got? then PackedCount(f.ltype, body.value) else 1
  }

  lemma {:induction false} PackedAppends(f: Field, items: seq<Value>, s: seq<byte>)
    requires DecodePacked(f, items, s).Some?
    ensures items <= DecodePacked(f, items, s).value
    ensures |DecodePacked(f, items, s).value| == |items| + PackedCount(f.ltype, s)
    decreases |s|
  {
    if s != [] {
      var d := DecodeValue(f, Int(0), s);
      ValueEnds(f, Int(0), s);
      PackedAppends(f, items + [d.value], d.rest);
    }
  }

  lemma {:induction false} FieldAppends(fields: seq<Field>, slots: seq<Slot>, i: nat, wireType: nat, s: seq<byte>)
    requires |slots| == |fields| && i < |fields| && fields[i].htype.Repeated?
    requires DecodeField(fields, slots, i, wireType, s).Got?
    ensures var items := Items(DecodeField(fields, slots, i, wireType, s).value[i]);
      Items(slots[i]) <= items && |items| == |Items(slots[i])| + ElementsHere(fields[i], wireType, s)
  {
    var f := fields[i];
    if wireType == WT_STRING && f.ltype.Packable() {
      PackedAppends(f, Items(slots[i]), TakePrefixed(s).value);
    }
  }

  /** An array with a count of its own gets every element that an accepted input has of it, behind those it
      had: none is dropped for want of room. */
  lemma {:induction false} LoopAppends(fields: seq<Field>, p: Progress, a: seq<byte>, i: nat)
    requires i < |fields| == |p.slots| && fields[i].htype.Repeated? && !fields[i].FixedCount()
    requires DecodeLoop(fields, p, a).LoopDone?
    ensures var items := Items(DecodeLoop(fields, p, a).p.slots[i]);
      Items(p.slots[i]) <= items && |items| == |Items(p.slots[i])| + Elements(fields, a, i)
    decreases |a|
  {
    if a != [] {
      var t := DecodeTag(a);
      if t.TagRead? {
        var at := IndexOf(fields, 0, t.tag);
        if at.None? {
          LoopAppends(fields, p, SkipField(t.wireType, t.rest).rest, i);
        } else {
          var j := at.value;
          var q := Arrive(fields, p, j).value;
          var d := DecodeField(fields, q.slots, j, t.wireType, t.rest);
          FieldEnds(fields, q.slots, j, t.wireType, t.rest);
          if i == j {
            FieldAppends(fields, q.slots, i, t.wireType, t.rest);
          } else {
            OthersKept(fields, q.slots, j, t.wireType, t.rest, i);
          }
          LoopAppends(fields, q.(slots := d.value), d.rest, i);
        }
      }
    }
  }

  /** The same of pb_decode_noinit. */
  lemma {:induction false} NothingDropped(fields: seq<Field>, slots: seq<Slot>, a: seq<byte>, i: nat)
    requires DecodeNoInit(fields, slots, a).Done?
    requires i < |fields| && fields[i].htype.Repeated? && !fields[i].FixedCount()
    ensures var items := Items(DecodeNoInit(fields, slots, a).slots[i]);
      Items(slots[i]) <= items && |items| == |Items(slots[i])| + Elements(fields, a, i)
  {
    LoopAppends(fields, Progress(slots, {}, None), a, i);
  }

  // ---- nothing at all ----

  /** An empty input leaves the struct as it was, unless a field is required. */
  lemma {:induction false} EmptyInput(fields: seq<Field>, slots: seq<Slot>)
    requires |slots| == |fields|
    ensures DecodeNoInit(fields, slots, [])
      == if RequiredBefore(fields, |fields|) == 0 then Done(slots, [], false) else Error
  {
    var seen: set<nat> := {};
    if RequiredBefore(fields, |fields|) > 0 {
      assert 0 !in seen && !RequiredSeen(fields, seen);
    } else {
      assert RequiredSeen(fields, seen);
    }
    assert DecodeLoop(fields, Progress(slots, seen, None), []) == LoopDone(Progress(slots, seen, None), [], false);
  }

  /** What a fresh struct holds: the value the table gives, and otherwise zeros, no string, an empty message's
      defaults. */
  lemma {:induction false} DefaultsGiven(fields: seq<Field>, i: nat)
    requires i < |fields| && (fields[i].htype.Required? || fields[i].htype.Optional?)
    ensures var f := fields[i];
      Content(Defaults(fields)[i])
      == if f.ltype.SubMessage? then Msg(Defaults(f.ltype.fields))
         else if f.default.Some? then f.default.value
         else if f.ltype.Fixed32? || f.ltype.Fixed64? then Word(0)
         else if f.ltype.PbBytes? || f.ltype.PbString? then Blob([])
         else if f.ltype.FixedLengthBytes? then Blob(Zeros(f.dataSize))
         else Int(0)
  {
    assert Defaults(fields)[i] == DefaultSlot(fields[i]);
    assert Content(DefaultSlot(fields[i])) == DefaultValue(fields[i]);
  }
}
