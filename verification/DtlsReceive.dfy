/** Receiving handshake messages in d1_both.cc: fragments into a ring of partly received messages. */
module DtlsReceive {
  import opened Bytes
  import opened Ssl
  import opened DtlsMessage
  import opened DtlsFragment
  import opened DtlsRecord

  // ---- what is received, as a function ----

  /** The ring by value: the message awaited, and a slot for each message of a flight. */
  datatype Ring = Ring(readSeq: uint16, slots: seq<Option<Partial>>)

  /** Each occupied slot holds a message of the window, at the index its sequence number selects. */
  predicate InWindow(r: Ring) {
    && |r.slots| == SSL_MAX_HANDSHAKE_FLIGHT
    && forall i :: 0 <= i < |r.slots| && r.slots[i].Some? ==> SlotOk(r.readSeq, i, r.slots[i].value)
  }

  predicate SlotOk(readSeq: uint16, i: nat, p: Partial) {
    && readSeq <= p.message.seqno < readSeq + SSL_MAX_HANDSHAKE_FLIGHT
    && p.message.seqno % SSL_MAX_HANDSHAKE_FLIGHT == i
    && |p.got| == |p.message.body| < 0x100_0000
  }

  function Index(n: nat): nat {
    n % SSL_MAX_HANDSHAKE_FLIGHT
  }

  function Current(r: Ring): Option<Partial>
    requires InWindow(r)
  {
    r.slots[Index(r.readSeq)]
  }

  function EmptyRing(): (r: Ring)
    ensures InWindow(r)
  {
    Ring(0, seq(SSL_MAX_HANDSHAKE_FLIGHT, _ => None))
  }

  function Put(r: Ring, i: nat, p: Partial): Ring
    requires i < |r.slots|
  {
    r.(slots := r.slots[i := Some(p)])
  }

  /** The partial message a fragment belongs to, new if its slot is empty. */
  function Expected(r: Ring, h: Header): Partial
    requires InWindow(r)
  {
    var slot := r.slots[Index(h.seqno)];
    if slot.Some? then slot.value else EmptyPartial(h)
  }

  /** One fragment, in the loop of dtls1_open_handshake: the new ring, or the alert that ends it. A
      sequence number one whole flight ahead is not skipped as too far in the future, but an error. */
  function Accept(r: Ring, epoch: nat, maxLen: nat, f: Fragment): (result: (Ring, Option<Alert>))
    requires InWindow(r) && |f.body| == f.header.fragLen
    ensures InWindow(result.0) && result.0.readSeq == r.readSeq
  {
    var h := f.header;
    if !InRange(h) || h.msgLen > maxLen then (r, Some(IllegalParameter))
    else if epoch == 1 && h.seqno != r.readSeq then (r, Some(UnexpectedMessage))
    else if h.seqno < r.readSeq || h.seqno > r.readSeq + SSL_MAX_HANDSHAKE_FLIGHT then (r, None)
    else Place(r, f)
  }

  /** A fragment neither past nor too far ahead. */
  function Place(r: Ring, f: Fragment): (result: (Ring, Option<Alert>))
    requires InWindow(r) && |f.body| == f.header.fragLen && InRange(f.header)
    requires r.readSeq <= f.header.seqno <= r.readSeq + SSL_MAX_HANDSHAKE_FLIGHT
    ensures InWindow(result.0) && result.0.readSeq == r.readSeq
  {
    var h := f.header;
    if h.seqno == r.readSeq + SSL_MAX_HANDSHAKE_FLIGHT then (r, Some(InternalError))
    else
      var p := Expected(r, h);
      WindowIsInjective(r.readSeq, h.seqno, p.message.seqno);
      if p.message.typ != h.typ || |p.message.body| != h.msgLen then (r, Some(IllegalParameter))
      else (Put(r, Index(h.seqno), Insert(p, h.fragOff, f.body)), None)
  }

  /** Two sequence numbers of one window with one index are the same. */
  lemma {:induction false} WindowIsInjective(low: nat, a: nat, b: nat)
    requires low <= a < low + SSL_MAX_HANDSHAKE_FLIGHT && low <= b < low + SSL_MAX_HANDSHAKE_FLIGHT
    ensures Index(a) == Index(b) ==> a == b
  {
  }

  /** The loop of dtls1_open_handshake. */
  function AcceptAll(r: Ring, epoch: nat, maxLen: nat, record: seq<byte>): (result: (Ring, Option<Alert>))
    requires InWindow(r)
    ensures InWindow(result.0) && result.0.readSeq == r.readSeq
    decreases |record|
  {
    if record == [] then (r, None)
    else
      match ParseFragment(record)
      case Fail => (r, Some(DecodeError))
      case Got(f, rest) =>
        var (q, alert) := Accept(r, epoch, maxLen, f);
        if alert.Some? then (q, alert) else AcceptAll(q, epoch, maxLen, rest)
  }

  // ---- several fragments in one record ----

  function RecordOf(fs: seq<Fragment>): seq<byte> {
    if fs == [] then [] else FragmentBytes(fs[0]) + RecordOf(fs[1..])
  }

  predicate Sized(fs: seq<Fragment>) {
    forall i :: 0 <= i < |fs| ==> |fs[i].body| == fs[i].header.fragLen
  }

  /** The first fragment of a record does what it would do in a record of its own; refused, it leaves the ring
      alone and ends the record, and otherwise the rest does what it would do in a record after that. */
  lemma {:induction false} RecordSplits(r: Ring, epoch: nat, maxLen: nat, f: Fragment, rest: seq<byte>)
    requires InWindow(r) && |f.body| == f.header.fragLen
    ensures AcceptAll(r, epoch, maxLen, FragmentBytes(f)) == Accept(r, epoch, maxLen, f)
    ensures var (q, alert) := Accept(r, epoch, maxLen, f);
      AcceptAll(r, epoch, maxLen, FragmentBytes(f) + rest)
      == if alert.Some? then (r, alert) else AcceptAll(q, epoch, maxLen, rest)
  {
    FragmentRoundTrip(f, rest);
    FragmentRoundTrip(f, []);
    assert FragmentBytes(f) + [] == FragmentBytes(f);
  }

  /** Byte b of message n has been received. */
  predicate Arrived(r: Ring, n: nat, b: nat)
    requires InWindow(r)
  {
    var slot := r.slots[Index(n)];
    slot.Some? && slot.value.message.seqno == n && b < |slot.value.got| && slot.value.got[b]
  }

  predicate Brings(f: Fragment, n: nat, b: nat) {
    f.header.seqno == n && f.header.fragOff <= b < f.header.fragOff + f.header.fragLen
  }

  predicate SomeBrings(fs: seq<Fragment>, n: nat, b: nat) {
    exists i :: 0 <= i < |fs| && Brings(fs[i], n, b)
  }

  lemma {:induction false} FirstOrRest(fs: seq<Fragment>, n: nat, b: nat)
    requires fs != []
    ensures SomeBrings(fs, n, b) <==> Brings(fs[0], n, b) || SomeBrings(fs[1..], n, b)
  {
    var rest := fs[1..];
    if i :| 0 <= i < |rest| && Brings(rest[i], n, b) {
      assert Brings(fs[i + 1], n, b);
    }
    if i :| 0 < i < |fs| && Brings(fs[i], n, b) {
      assert Brings(rest[i - 1], n, b);
    }
  }

  lemma {:induction false} AcceptedIsExact(r: Ring, epoch: nat, maxLen: nat, f: Fragment, n: nat, b: nat)
    requires InWindow(r) && |f.body| == f.header.fragLen && Accept(r, epoch, maxLen, f).1.None?
    requires r.readSeq <= n < r.readSeq + SSL_MAX_HANDSHAKE_FLIGHT
    ensures Arrived(Accept(r, epoch, maxLen, f).0, n, b) <==> Arrived(r, n, b) || Brings(f, n, b)
  {
    var h := f.header;
    if r.readSeq <= h.seqno < r.readSeq + SSL_MAX_HANDSHAKE_FLIGHT {
      WindowIsInjective(r.readSeq, h.seqno, n);
    }
  }

  /** Of a record that was accepted every fragment counts, wherever in it: a byte of a message that may be
      waited for has been received exactly if it was before, or some fragment of the record brought it. */
  lemma {:induction false} EveryFragmentCounts(r: Ring, epoch: nat, maxLen: nat, fs: seq<Fragment>, n: nat, b: nat)
    requires InWindow(r) && Sized(fs) && AcceptAll(r, epoch, maxLen, RecordOf(fs)).1.None?
    requires r.readSeq <= n < r.readSeq + SSL_MAX_HANDSHAKE_FLIGHT
    ensures Arrived(AcceptAll(r, epoch, maxLen, RecordOf(fs)).0, n, b)
      <==> Arrived(r, n, b) || SomeBrings(fs, n, b)
    decreases |fs|
  {
    if fs != [] {
      var q := Accept(r, epoch, maxLen, fs[0]).0;
      RecordSplits(r, epoch, maxLen, fs[0], RecordOf(fs[1..]));
      AcceptedIsExact(r, epoch, maxLen, fs[0], n, b);
      EveryFragmentCounts(q, epoch, maxLen, fs[1..], n, b);
      FirstOrRest(fs, n, b);
    }
  }

  /** dtls1_next_message: empty the current slot and move on, with the counter's 16 bits. */
  function Advance(r: Ring): (q: Ring)
    requires InWindow(r)
    ensures InWindow(q)
  {
    var q := Ring((r.readSeq + 1) % 0x1_0000, r.slots[Index(r.readSeq) := None]);
    assert forall i :: 0 <= i < |q.slots| && q.slots[i].Some? ==> SlotOk(r.readSeq, i, q.slots[i].value);
    q
  }

  /** dtls1_open_handshake: the ring, the ChangeCipherSpec flag and the result. */
  function OpenHandshakeResult(r: Ring, ccs: bool, epoch: nat, packet: Opened, nullCipher: bool, maxLen: nat): (Ring,
    bool, OpenResult)
    requires InWindow(r)
  {
    match packet
    case NoRecord(result) => (r, ccs, result)
    case Record(typ, data) =>
      if typ == SSL3_RT_HANDSHAKE then
        var (q, alert) := AcceptAll(r, epoch, maxLen, data);
        (q, ccs, if alert.Some? then OpenError(alert.value) else OpenSuccess)
      else if typ == SSL3_RT_CHANGE_CIPHER_SPEC && nullCipher then
        if data == [SSL3_MT_CCS] then (r, true, OpenSuccess) else (r, ccs, OpenError(IllegalParameter))
      else if typ == SSL3_RT_APPLICATION_DATA && !nullCipher then (r, ccs, OpenDiscard)
      else (r, ccs, OpenError(UnexpectedMessage))
  }

  /** Exactly when a packet raises the ChangeCipherSpec flag, moves the ring, or is passed over or refused. */
  lemma {:induction false} OpenedExactly(r: Ring, epoch: nat, packet: Opened, nullCipher: bool, maxLen: nat)
    requires InWindow(r)
    ensures var (q, ccs, result) := OpenHandshakeResult(r, false, epoch, packet, nullCipher, maxLen);
      && (ccs <==> nullCipher && packet == Record(20, [1]))
      && (q != r ==> packet.Record? && packet.typ == 22)
      && (packet.Record? && packet.typ == 23 && !nullCipher ==> result == OpenDiscard)
      && (packet.NoRecord? ==> result == packet.result)
      && (packet.Record? && packet.typ != 22 && !ccs && (nullCipher || packet.typ != 23) ==> result.OpenError?)
    ensures OpenHandshakeResult(r, true, epoch, packet, nullCipher, maxLen).1
  {
    assert SSL3_RT_CHANGE_CIPHER_SPEC == 20 && SSL3_RT_HANDSHAKE == 22 && SSL3_RT_APPLICATION_DATA == 23;
  }

  /** Some message other than the one handed up is complete or partly received. */
  predicate Unprocessed(r: Ring, hasMessage: bool) {
    exists i :: 0 <= i < |r.slots| && r.slots[i].Some? && !(hasMessage && i == Index(r.readSeq))
  }

  // ---- what is received, in place ----

  class Reader {
    const incoming: array<HmFragment?>
    var handshakeReadSeq: uint16
    var rEpoch: uint16
    var hasMessage: bool
    var hasChangeCipherSpec: bool
    ghost var Repr: set<object>

    ghost predicate Valid()
      reads this, Repr
    {
      && this in Repr && incoming in Repr && incoming.Length == SSL_MAX_HANDSHAKE_FLIGHT
      && (forall i :: 0 <= i < incoming.Length ==> SlotValid(incoming[i]))
      && (forall i, j :: 0 <= i < j < incoming.Length ==> Apart(incoming[i], incoming[j]))
      && InWindow(Model())
      && (hasMessage ==> Current(Model()).Some? && Current(Model()).value.Complete())
    }

    ghost predicate SlotValid(frag: HmFragment?)
      reads this, Repr
    {
      frag != null ==>
        && frag in Repr && frag.Repr <= Repr && this !in frag.Repr && incoming !in frag.Repr && frag.Valid()
    }

    /** Fragments share no memory. */
    ghost predicate Apart(a: HmFragment?, b: HmFragment?) {
      a != null && b != null ==> a.Repr !! b.Repr
    }

    ghost function Model(): Ring
      requires incoming in Repr && forall i :: 0 <= i < incoming.Length ==> SlotValid(incoming[i])
      reads this, Repr
    {
      Ring(handshakeReadSeq, seq(incoming.Length, i requires 0 <= i < incoming.Length && incoming in Repr &&
        SlotValid(incoming[i]) reads this, Repr =>
        if incoming[i] == null then None else Some(incoming[i].Model())))
    }

    constructor ()
      ensures Valid() && fresh(Repr)
      ensures Model() == EmptyRing() && rEpoch == 0 && !hasMessage && !hasChangeCipherSpec
    {
      incoming := new HmFragment?[SSL_MAX_HANDSHAKE_FLIGHT](_ => null);
      handshakeReadSeq, rEpoch, hasMessage, hasChangeCipherSpec := 0, 0, false, false;
      new;
      Repr := {this, incoming};
    }

    /** dtls1_is_current_message_complete */
    predicate IsCurrentMessageComplete()
      requires Valid()
      reads this, Repr
      ensures IsCurrentMessageComplete() <==> Current(Model()).Some? && Current(Model()).value.Complete()
    {
      var frag := incoming[handshakeReadSeq % SSL_MAX_HANDSHAKE_FLIGHT];
      frag != null && frag.reassembly == null
    }

    /** What an occupied slot holds. */
    lemma {:induction false} SlotAt(i: nat)
      requires Valid() && i < incoming.Length && incoming[i] != null
      ensures incoming[i].Valid() && Model().slots[i] == Some(incoming[i].Model())
      ensures SlotOk(handshakeReadSeq, i, incoming[i].Model())
      ensures incoming[i].reassembly == null <==> incoming[i].Model().Complete()
    {
      assert SlotValid(incoming[i]);
      assert Model().slots[i] == Some(incoming[i].Model());
      if incoming[i].reassembly == null {
        assert incoming[i].Model().got == seq(incoming[i].msgLen, _ => true);
      }
    }

    /** The flags are no part of the ring. */
    twostate lemma {:induction false} SameRing()
      requires old(Valid()) && Repr == old(Repr) && unchanged(Repr - {this}) &&
        handshakeReadSeq == old(handshakeReadSeq)
      requires hasMessage ==> Current(old(Model())).Some? && Current(old(Model())).value.Complete()
      ensures Valid() && Model() == old(Model())
    {
      forall i | 0 <= i < incoming.Length && incoming[i] != null
        ensures SlotValid(incoming[i]) && incoming[i].Model() == old(incoming[i].Model())
      {
        assert old(SlotValid(incoming[i]));
      }
      assert Model().slots == old(Model()).slots;
    }

    lemma {:induction false} ApartFrom(i: nat)
      requires Valid() && i < incoming.Length
      ensures forall j :: 0 <= j < incoming.Length && j != i ==> Apart(incoming[j], incoming[i])
    {
      forall j | 0 <= j < incoming.Length && j != i ensures Apart(incoming[j], incoming[i]) {
        assert if i < j then Apart(incoming[i], incoming[j]) else Apart(incoming[j], incoming[i]);
      }
    }

    /** A new fragment into an empty slot. */
    method AddFragment(h: Header) returns (frag: HmFragment)
      requires Valid() && SlotOk(handshakeReadSeq, Index(h.seqno), EmptyPartial(h)) &&
        Model().slots[Index(h.seqno)].None?
      modifies this`Repr, incoming
      ensures Valid() && fresh(Repr - old(Repr)) && frag == incoming[Index(h.seqno)]
      ensures Model() == old(Model()).(slots := old(Model()).slots[Index(h.seqno) := Some(EmptyPartial(h))])
    {
      frag := new HmFragment(h);
      var idx := h.seqno % SSL_MAX_HANDSHAKE_FLIGHT;
      ghost var before := incoming[..];
      incoming[idx] := frag;
      Repr := Repr + frag.Repr;
      forall i | 0 <= i < incoming.Length && i != idx && incoming[i] != null
        ensures SlotValid(incoming[i]) && incoming[i].Model() == old(incoming[i].Model())
      {
        assert incoming[i] == before[i] && old(SlotValid(incoming[i]));
      }
      assert Model().slots == old(Model()).slots[idx := Some(EmptyPartial(h))];
    }

    /** dtls1_get_incoming_message */
    method GetIncomingMessage(h: Header) returns (frag: HmFragment?, alert: Alert)
      requires Valid()
      modifies this`Repr, incoming
      ensures Valid() && fresh(Repr - old(Repr))
      ensures frag == null ==> Model() == old(Model())
      ensures h.seqno < handshakeReadSeq || handshakeReadSeq + SSL_MAX_HANDSHAKE_FLIGHT <= h.seqno ==>
        frag == null && alert == InternalError
      ensures handshakeReadSeq <= h.seqno < handshakeReadSeq + SSL_MAX_HANDSHAKE_FLIGHT ==>
        var p := Expected(old(Model()), h);
        if p.message.typ != h.typ || |p.message.body| != h.msgLen then frag == null && alert == IllegalParameter
        else frag != null && frag == incoming[Index(h.seqno)] && Model() == Put(old(Model()), Index(h.seqno), p)
    {
      frag, alert := null, InternalError;
      if h.seqno < handshakeReadSeq || h.seqno - handshakeReadSeq >= SSL_MAX_HANDSHAKE_FLIGHT {
        return;
      }
      var idx := h.seqno % SSL_MAX_HANDSHAKE_FLIGHT;
      frag := incoming[idx];
      if frag != null {
        SlotAt(idx);
        if frag.typ != h.typ || frag.msgLen != h.msgLen {
          return null, IllegalParameter;
        }
        assert Model() == Put(Model(), idx, frag.Model());
        return;
      }
      frag := AddFragment(h);
    }

    /** Copy a body into the slot of its message. */
    method StoreAt(i: nat, frag: HmFragment, off: nat, body: seq<byte>)
      requires Valid() && i < incoming.Length && incoming[i] == frag
      requires frag.reassembly != null && off + |body| <= frag.msgLen
      modifies frag.Repr
      ensures Valid()
      ensures Model() == Put(old(Model()), i, Insert(old(frag.Model()), off, body))
    {
      SlotAt(i);
      ApartFrom(i);
      frag.Store(off, body);
      forall j | 0 <= j < incoming.Length && j != i && incoming[j] != null
        ensures SlotValid(incoming[j]) && incoming[j].Model() == old(incoming[j].Model())
      {
        assert old(SlotValid(incoming[j])) && old(Apart(incoming[j], frag));
      }
      assert Model().slots == Put(old(Model()), i, Insert(old(frag.Model()), off, body)).slots;
    }

    /** The part of dtls1_open_handshake's loop that changes the ring. */
    method Reassemble(f: Fragment) returns (alert: Option<Alert>)
      requires Valid() && |f.body| == f.header.fragLen && InRange(f.header)
      requires handshakeReadSeq <= f.header.seqno <= handshakeReadSeq + SSL_MAX_HANDSHAKE_FLIGHT
      modifies Repr
      ensures Valid() && fresh(Repr - old(Repr))
      ensures (Model(), alert) == Place(old(Model()), f)
      ensures rEpoch == old(rEpoch) && hasChangeCipherSpec == old(hasChangeCipherSpec) && hasMessage == old(hasMessage)
    {
      var frag, reason := GetIncomingMessage(f.header);
      if frag == null {
        return Some(reason);
      }
      var idx := f.header.seqno % SSL_MAX_HANDSHAKE_FLIGHT;
      ghost var p := Expected(old(Model()), f.header);
      SlotAt(idx);
      assert frag.Model() == p;
      if frag.reassembly == null {
        assert Insert(p, f.header.fragOff, f.body) == p;
        return None;
      }
      StoreAt(idx, frag, f.header.fragOff, f.body);
      assert Put(Put(old(Model()), idx, p), idx, Insert(p, f.header.fragOff, f.body)).slots
        == Put(old(Model()), idx, Insert(p, f.header.fragOff, f.body)).slots;
      return None;
    }

    /** The body of the loop in dtls1_open_handshake. */
    method AcceptFragment(f: Fragment, maxLen: nat) returns (alert: Option<Alert>)
      requires Valid() && |f.body| == f.header.fragLen
      modifies Repr
      ensures Valid() && fresh(Repr - old(Repr))
      ensures (Model(), alert) == Accept(old(Model()), old(rEpoch), maxLen, f)
      ensures rEpoch == old(rEpoch) && hasChangeCipherSpec == old(hasChangeCipherSpec) && hasMessage == old(hasMessage)
    {
      var h := f.header;
      if h.fragOff > h.msgLen || h.fragOff + h.fragLen > h.msgLen || h.msgLen > maxLen {
        return Some(IllegalParameter);
      }
      if rEpoch == 1 && h.seqno != handshakeReadSeq {
        return Some(UnexpectedMessage);
      }
      if h.seqno < handshakeReadSeq || h.seqno > handshakeReadSeq + SSL_MAX_HANDSHAKE_FLIGHT {
        return None;
      }
      alert := Reassemble(f);
    }

    /** dtls1_open_handshake, given what dtls_open_record made of the packet. */
    method OpenHandshake(packet: Opened, nullCipher: bool, maxLen: nat) returns (result: OpenResult)
      requires Valid()
      modifies Repr
      ensures Valid() && fresh(Repr - old(Repr))
      ensures hasMessage == old(hasMessage) && rEpoch == old(rEpoch)
      ensures (Model(), hasChangeCipherSpec, result) ==
        OpenHandshakeResult(old(Model()), old(hasChangeCipherSpec), old(rEpoch), packet, nullCipher, maxLen)
    {
      if !packet.Record? {
        return packet.result;
      }
      if packet.typ == SSL3_RT_APPLICATION_DATA {
        return if nullCipher then OpenError(UnexpectedMessage) else OpenDiscard;
      }
      if packet.typ == SSL3_RT_CHANGE_CIPHER_SPEC {
        if !nullCipher {
          return OpenError(UnexpectedMessage);
        }
        if |packet.data| != 1 || packet.data[0] != SSL3_MT_CCS {
          return OpenError(IllegalParameter);
        }
        hasChangeCipherSpec := true;
        SameRing();
        return OpenSuccess;
      }
      if packet.typ != SSL3_RT_HANDSHAKE {
        return OpenError(UnexpectedMessage);
      }
      var cbs := packet.data;
      while cbs != []
        invariant Valid() && fresh(Repr - old(Repr))
        invariant rEpoch == old(rEpoch) && hasChangeCipherSpec == old(hasChangeCipherSpec) &&
          hasMessage == old(hasMessage)
        invariant AcceptAll(Model(), rEpoch, maxLen, cbs) == AcceptAll(old(Model()), rEpoch, maxLen, packet.data)
        decreases |cbs|
      {
        var p := ParseFragment(cbs);
        if p.Fail? {
          return OpenError(DecodeError);
        }
        var alert := AcceptFragment(p.value, maxLen);
        if alert.Some? {
          return OpenError(alert.value);
        }
        cbs := p.rest;
      }
      return OpenSuccess;
    }

    /** dtls1_open_change_cipher_spec */
    method OpenChangeCipherSpec(packet: Opened, nullCipher: bool, maxLen: nat) returns (result: OpenResult)
      requires Valid()
      modifies Repr
      ensures Valid() && fresh(Repr - old(Repr)) && !hasChangeCipherSpec
      ensures hasMessage == old(hasMessage) && rEpoch == old(rEpoch)
      ensures old(hasChangeCipherSpec) ==> result == OpenSuccess && Model() == old(Model())
      ensures !old(hasChangeCipherSpec) ==>
        var (q, ccs, r) := OpenHandshakeResult(old(Model()), false, old(rEpoch), packet, nullCipher, maxLen);
        Model() == q && result == if r == OpenSuccess && !ccs then OpenDiscard else r
    {
      if !hasChangeCipherSpec {
        result := OpenHandshake(packet, nullCipher, maxLen);
        if result != OpenSuccess {
          return;
        }
      }
      if hasChangeCipherSpec {
        label before:
        hasChangeCipherSpec := false;
        SameRing@before();
        return OpenSuccess;
      }
      return OpenDiscard;
    }

    /** dtls1_get_message */
    method GetMessage() returns (out: Option<SSLMessage>)
      requires Valid()
      modifies this`hasMessage
      ensures Valid() && Model() == old(Model())
      ensures out.Some? <==> Current(Model()).Some? && Current(Model()).value.Complete()
      ensures out.Some? ==> var m := Current(Model()).value.message;
        && m.seqno == handshakeReadSeq
        && out.value == SSLMessage(m.typ, m.body, Raw(m))
      ensures hasMessage == (old(hasMessage) || out.Some?)
    {
      if !IsCurrentMessageComplete() {
        return None;
      }
      var idx := handshakeReadSeq % SSL_MAX_HANDSHAKE_FLIGHT;
      var frag := incoming[idx];
      SlotAt(idx);
      WindowIsInjective(handshakeReadSeq, frag.seqno, handshakeReadSeq);
      out := Some(SSLMessage(frag.typ, frag.data[DTLS1_HM_HEADER_LENGTH..], frag.data[..]));
      assert frag.data[..] == frag.data[..12] + frag.data[12..];
      if !hasMessage {
        hasMessage := true;
        SameRing();
      }
    }

    /** dtls1_next_message */
    method NextMessage()
      requires Valid() && hasMessage
      modifies this`handshakeReadSeq, this`hasMessage, incoming
      ensures Valid() && Model() == Advance(old(Model())) && !hasMessage
    {
      var index := handshakeReadSeq % SSL_MAX_HANDSHAKE_FLIGHT;
      ghost var before := incoming[..];
      incoming[index] := null;
      handshakeReadSeq := (handshakeReadSeq + 1) % 0x1_0000;
      hasMessage := false;
      forall i | 0 <= i < incoming.Length && incoming[i] != null
        ensures SlotValid(incoming[i]) && incoming[i].Model() == old(incoming[i].Model())
      {
        assert incoming[i] == before[i] && old(SlotValid(incoming[i]));
      }
      assert Model().slots == Advance(old(Model())).slots;
    }

    /** dtls_has_unprocessed_handshake_data */
    method HasUnprocessedHandshakeData() returns (has: bool)
      requires Valid()
      ensures has <==> hasChangeCipherSpec || Unprocessed(Model(), hasMessage)
    {
      if hasChangeCipherSpec {
        return true;
      }
      var current := handshakeReadSeq % SSL_MAX_HANDSHAKE_FLIGHT;
      for i := 0 to incoming.Length
        invariant forall j :: 0 <= j < i && Model().slots[j].Some? ==> hasMessage && j == current
      {
        if hasMessage && i == current {
          continue;
        }
        if incoming[i] != null {
          assert Model().slots[i].Some?;
          return true;
        }
      }
      return false;
    }

    /** The reassembly half of dtls1_set_read_state: no message, and no part of one, crosses a change of keys. */
    method SetReadState() returns (ok: bool)
      requires Valid()
      modifies this`rEpoch
      ensures Valid() && Model() == old(Model())
      ensures ok <==> !hasChangeCipherSpec && !Unprocessed(Model(), hasMessage)
      ensures rEpoch == if ok then (old(rEpoch) + 1) % 0x1_0000 else old(rEpoch)
    {
      var has := HasUnprocessedHandshakeData();
      if has {
        return false;
      }
      rEpoch := (rEpoch + 1) % 0x1_0000;
      SameRing();
      return true;
    }
  }
}
