/** DTLS handshake transport end to end: a sender, a network that loses, repeats and reorders, and a
    receiver, as one state machine over the operations of DtlsSend and DtlsReceive. */
module DtlsTransport {
  import opened Bytes
  import opened Ssl
  import opened DtlsMessage
  import opened DtlsReplay
  import opened DtlsRecord
  import opened DtlsReceive
  import opened DtlsSend

  /** hashed: the messages in the sender's transcript. outgoing, complete, wEpoch: the sender's flight.
      network: every record ever sent. rEpoch, window: the receiver's record layer. handed: the raw messages
      the receiver handed up. */
  datatype System = System(
    hashed: seq<Message>, outgoing: seq<Outgoing>, complete: bool, wEpoch: uint16,
    network: seq<SealedRecord>,
    rEpoch: uint16, window: Window, ring: Ring, ccs: bool, hasMessage: bool, handed: seq<seq<byte>>)

  datatype Step =
    | AddMessage(typ: byte, body: seq<byte>)
    | AddChangeCipherSpec
    | Flush
    | Transmit(packet: Packet, mtu: nat)
    | WriterKeys
    | Deliver(i: nat, aead: ReadAead, maxLen: nat)
    | TakeChangeCipherSpec
    | ReaderKeys
    | Get
    | Next

  /** add_outgoing on the flight. */
  function Added(s: System, o: Outgoing): Option<seq<Outgoing>> {
    var before := if s.complete then [] else s.outgoing;
    if |before| < SSL_MAX_HANDSHAKE_FLIGHT then Some(before + [o]) else None
  }

  function Wire(r: SealedRecord): seq<byte> {
    RecordBytes(r.typ, r.version, r.number, r.body)
  }

  /** The keys open a record to what was sealed, if they open it. */
  predicate Honest(aead: ReadAead, r: SealedRecord) {
    aead.open(r.typ, r.version, NumberBytes(r.number), r.body) in {None, Some(r.plain)}
  }

  /** The record layer lets the record through. */
  predicate GetsThrough(s: System, r: SealedRecord, aead: ReadAead) {
    Accepted(Reading(s.rEpoch, s.window), aead, Wire(r)).Some?
  }

  /** dtls_open_record, and then dtls1_open_handshake. */
  function Open(s: System, r: SealedRecord, aead: ReadAead, maxLen: nat): System
    requires InWindow(s.ring)
  {
    match Accepted(Reading(s.rEpoch, s.window), aead, Wire(r))
    case None => s
    case Some((h, plain)) =>
      var (ring, ccs, _) := OpenHandshakeResult(s.ring, s.ccs, s.rEpoch, Record(h.typ, plain), aead.nullCipher, maxLen);
      s.(window := Recorded(s.window, NumberOf(h.sequence)), ring := ring, ccs := ccs)
  }

  /** What gets through is of the reader's epoch, new, and what was sealed. */
  lemma {:induction false} OpensSealed(s: System, r: SealedRecord, aead: ReadAead, maxLen: nat)
    requires InWindow(s.ring) && Honest(aead, r) && GetsThrough(s, r, aead)
    ensures r.number.epoch == s.rEpoch && !Stale(s.window, NumberOf(NumberBytes(r.number)))
    ensures
      var packet := Record(r.typ, r.plain);
      var (ring, ccs, _) := OpenHandshakeResult(s.ring, s.ccs, s.rEpoch, packet, aead.nullCipher, maxLen);
      var window := Recorded(s.window, NumberOf(NumberBytes(r.number)));
      Open(s, r, aead, maxLen) == s.(window := window, ring := ring, ccs := ccs)
  {
    AcceptedExactly(Reading(s.rEpoch, s.window), aead, Wire(r));
    LengthField(r);
    RecordRoundTrip(r.typ, r.version, r.number, r.body, []);
    assert Wire(r) + [] == Wire(r);
  }

  /** Exactly when a record gets through. */
  lemma {:induction false} GetsThroughExactly(s: System, r: SealedRecord, aead: ReadAead)
    requires Honest(aead, r)
    ensures GetsThrough(s, r, aead) <==>
      && r.number.epoch == s.rEpoch && !Stale(s.window, NumberOf(NumberBytes(r.number)))
      && VersionOk(aead, r.version) && aead.open(r.typ, r.version, NumberBytes(r.number), r.body).Some?
      && |r.body| <= SSL3_RT_MAX_ENCRYPTED_LENGTH && |r.plain| <= SSL3_RT_MAX_PLAIN_LENGTH
  {
    AcceptedExactly(Reading(s.rEpoch, s.window), aead, Wire(r));
    LengthField(r);
    if |r.body| <= SSL3_RT_MAX_ENCRYPTED_LENGTH {
      RecordRoundTrip(r.typ, r.version, r.number, r.body, []);
      assert Wire(r) + [] == Wire(r);
    }
  }

  lemma {:induction false} LengthField(r: SealedRecord)
    ensures |Wire(r)| == 13 + |r.body| && 256 * (Wire(r)[11] as nat) + Wire(r)[12] == |r.body|
  {
    assert Wire(r)[11..13] == U16(|r.body|);
  }

  /** One step. A packet is any that carries pieces of the current flight, wherever the cursor stands; a
      delivery is of any record ever sent, however often and in whatever order, and goes through
      dtls_open_record, with whatever keys; what they open is what was sealed. A ChangeCipherSpec flagged
      on the way is taken by dtls1_open_change_cipher_spec. A step that cannot be taken changes nothing. */
  ghost function Do(s: System, step: Step): System
    requires InWindow(s.ring)
  {
    match step
    case AddMessage(typ, body) =>
      if |body| >= 0x100_0000 || |s.hashed| >= 0xFFFF then s
      else
        var m := Message(typ, |s.hashed|, body);
        var flight := Added(s, Outgoing(Raw(m), s.wEpoch, false));
        if flight.None? then s else s.(hashed := s.hashed + [m], outgoing := flight.value, complete := false)
    case AddChangeCipherSpec =>
      var flight := Added(s, Outgoing([], s.wEpoch, true));
      if flight.None? then s else s.(outgoing := flight.value, complete := false)
    case Flush => s.(complete := true)
    case Transmit(packet, mtu) => if packet.Ok(s.outgoing, mtu) then s.(network := s.network + packet.records) else s
    case WriterKeys => s.(wEpoch := (s.wEpoch + 1) % EPOCHS)
    case Deliver(i, aead, maxLen) =>
      if i < |s.network| && Honest(aead, s.network[i]) then Open(s, s.network[i], aead, maxLen) else s
    case TakeChangeCipherSpec => s.(ccs := false)
    case ReaderKeys => if s.ccs || Unprocessed(s.ring, s.hasMessage) then s
      else s.(rEpoch := (s.rEpoch + 1) % EPOCHS, window := Window(0, 0))
    case Get => s.(hasMessage := s.hasMessage || (Current(s.ring).Some? && Current(s.ring).value.Complete()))
    case Next =>
      var p := Current(s.ring);
      if !s.hasMessage || p.None? || !p.value.Complete() || |p.value.message.body| >= 0x100_0000 then s
      else s.(ring := Advance(s.ring), hasMessage := false, handed := s.handed + [Raw(p.value.message)])
  }

  ghost function Run(steps: seq<Step>): (s: System)
    ensures InWindow(s.ring)
  {
    if steps == [] then System([], [], false, 0, [], 0, Window(0, 0), EmptyRing(), false, false, [])
    else
      var s := Run(steps[..|steps| - 1]);
      StepKeepsWindow(s, steps[|steps| - 1]);
      Do(s, steps[|steps| - 1])
  }

  lemma {:induction false} StepKeepsWindow(s: System, step: Step)
    requires InWindow(s.ring)
    ensures InWindow(Do(s, step).ring)
  {
  }

  // ---- the invariant ----

  /** Messages are numbered in the order they were added. */
  predicate Numbered(hashed: seq<Message>) {
    |hashed| <= 0xFFFF && forall i :: 0 <= i < |hashed| ==> hashed[i].seqno == i && |hashed[i].body| < 0x100_0000
  }

  /** The flight holds messages of the transcript as hashed. */
  predicate FlightOk(hashed: seq<Message>, o: Outgoing) {
    !o.isCcs ==> Whole(o).Some? && Whole(o).value in hashed
  }

  /** A record on the network is a ChangeCipherSpec or a slice of a hashed message. */
  ghost predicate RecordOk(hashed: seq<Message>, r: SealedRecord) {
    || (r.typ == SSL3_RT_CHANGE_CIPHER_SPEC && r.plain == [SSL3_MT_CCS])
    || (r.typ == SSL3_RT_HANDSHAKE && exists k: nat, off: nat, len: nat :: IsSlice(hashed, r.plain, k, off, len))
  }

  predicate IsSlice(hashed: seq<Message>, plain: seq<byte>, k: nat, off: nat, len: nat) {
    k < |hashed| && |hashed[k].body| < 0x100_0000 && off + len <= |hashed[k].body| &&
      plain == FragmentOf(hashed[k], off, len)
  }

  /** A partial message agrees with the hashed one in its header, and in every byte received. */
  predicate Agrees(hashed: seq<Message>, p: Partial) {
    && p.message.seqno < |hashed| && |p.got| == |p.message.body|
    && var m := hashed[p.message.seqno];
       p.message.typ == m.typ && |p.message.body| == |m.body| && forall j :: 0 <= j < |p.got| && p.got[j] ==>
         p.message.body[j] == m.body[j]
  }

  predicate RingOk(hashed: seq<Message>, r: Ring) {
    InWindow(r) && r.readSeq <= |hashed| && forall i :: 0 <= i < |r.slots| && r.slots[i].Some? ==>
      Agrees(hashed, r.slots[i].value)
  }

  ghost predicate Inv(s: System) {
    && Numbered(s.hashed)
    && (forall o <- s.outgoing :: FlightOk(s.hashed, o))
    && (forall r <- s.network :: RecordOk(s.hashed, r))
    && RingOk(s.hashed, s.ring)
    && |s.handed| == s.ring.readSeq
    && (forall i :: 0 <= i < |s.handed| ==> s.handed[i] == Raw(s.hashed[i]))
  }

  lemma {:induction false} InsertAgrees(hashed: seq<Message>, p: Partial, m: Message, off: nat, len: nat)
    requires Agrees(hashed, p) && m == hashed[p.message.seqno] && off + len <= |m.body|
    ensures Agrees(hashed, Insert(p, off, m.body[off..off + len]))
  {
  }

  /** A slice of a hashed message leaves a good ring good. */
  lemma {:induction false} DeliverKeepsRing(hashed: seq<Message>, r: Ring, epoch: nat, maxLen: nat, plain: seq<byte>,
    k: nat, off: nat, len: nat)
    requires Numbered(hashed) && RingOk(hashed, r) && IsSlice(hashed, plain, k, off, len)
    ensures RingOk(hashed, AcceptAll(r, epoch, maxLen, plain).0)
  {
    var m := hashed[k];
    var f := SliceFragment(m, off, len);
    OneFragment(r, epoch, maxLen, m, off, len);
    if r.readSeq <= k < r.readSeq + SSL_MAX_HANDSHAKE_FLIGHT {
      var p := Expected(r, f.header);
      WindowIsInjective(r.readSeq, k, p.message.seqno);
      assert Agrees(hashed, p);
      InsertAgrees(hashed, p, m, off, len);
    }
  }

  function SliceFragment(m: Message, off: nat, len: nat): Fragment
    requires off + len <= |m.body| < 0x100_0000
  {
    Fragment(DtlsMessage.Header(m.typ, |m.body|, m.seqno, off, len), m.body[off..off + len])
  }

  lemma {:induction false} OneFragment(r: Ring, epoch: nat, maxLen: nat, m: Message, off: nat, len: nat)
    requires InWindow(r) && off + len <= |m.body| < 0x100_0000
    ensures AcceptAll(r, epoch, maxLen, FragmentOf(m, off, len)) == Accept(r, epoch, maxLen, SliceFragment(m, off, len))
  {
    var s := FragmentOf(m, off, len);
    FragmentRoundTrip(SliceFragment(m, off, len), []);
    assert s + [] == s;
  }

  // ---- every run ----

  lemma {:induction false} MoreHashed(s: System, m: Message)
    requires Inv(s) && m.seqno == |s.hashed| && |m.body| < 0x100_0000 && |s.hashed| < 0xFFFF
    ensures Inv(s.(hashed := s.hashed + [m]))
  {
    var hashed := s.hashed + [m];
    assert forall i :: 0 <= i < |s.hashed| ==> hashed[i] == s.hashed[i];
    forall r <- s.network ensures RecordOk(hashed, r) {
      assert RecordOk(s.hashed, r);
      if r.typ == SSL3_RT_HANDSHAKE {
        var k: nat, off: nat, len: nat :| IsSlice(s.hashed, r.plain, k, off, len);
        assert IsSlice(hashed, r.plain, k, off, len);
      }
    }
    forall i | 0 <= i < |s.ring.slots| && s.ring.slots[i].Some? ensures Agrees(hashed, s.ring.slots[i].value) {
      assert Agrees(s.hashed, s.ring.slots[i].value);
    }
  }

  /** A packet of the flight is made of ChangeCipherSpecs and slices of hashed messages. */
  lemma {:induction false} PacketOk(hashed: seq<Message>, outgoing: seq<Outgoing>, packet: Packet, mtu: nat)
    requires Numbered(hashed) && (forall o <- outgoing :: FlightOk(hashed, o)) && packet.Ok(outgoing, mtu)
    ensures forall r <- packet.records :: RecordOk(hashed, r)
  {
    forall i | 0 <= i < |packet.records| ensures RecordOk(hashed, packet.records[i]) {
      var r, p := packet.records[i], packet.pieces[i];
      assert Carries(outgoing, r, p) && FlightOk(hashed, outgoing[p.index]);
      if !outgoing[p.index].isCcs {
        var k :| 0 <= k < |hashed| && hashed[k] == Whole(outgoing[p.index]).value;
        assert IsSlice(hashed, r.plain, k, p.off, p.len);
      }
    }
  }

  lemma {:induction false} NextKeepsInv(s: System)
    requires Inv(s)
    ensures Inv(Do(s, Next))
  {
    var p := Current(s.ring);
    if s.hasMessage && p.Some? && p.value.Complete() {
      var r := s.ring.readSeq;
      assert Agrees(s.hashed, p.value) && SlotOk(r, Index(r), p.value);
      WindowIsInjective(r, r, p.value.message.seqno);
      assert p.value.message.body == s.hashed[r].body;
    }
  }

  lemma {:induction false} DeliverKeepsInv(s: System, i: nat, aead: ReadAead, maxLen: nat)
    requires Inv(s)
    ensures Inv(Do(s, Deliver(i, aead, maxLen)))
  {
    if i < |s.network| && Honest(aead, s.network[i]) && GetsThrough(s, s.network[i], aead) {
      OpenKeepsInv(s, i, aead, maxLen);
    }
  }

  lemma {:induction false} OpenKeepsInv(s: System, i: nat, aead: ReadAead, maxLen: nat)
    requires Inv(s) && i < |s.network| && Honest(aead, s.network[i]) && GetsThrough(s, s.network[i], aead)
    ensures Inv(Open(s, s.network[i], aead, maxLen))
  {
    OpensSealed(s, s.network[i], aead, maxLen);
    if s.network[i].typ == SSL3_RT_HANDSHAKE {
      assert RecordOk(s.hashed, s.network[i]);
      var k: nat, off: nat, len: nat :| IsSlice(s.hashed, s.network[i].plain, k, off, len);
      DeliverKeepsRing(s.hashed, s.ring, s.rEpoch, maxLen, s.network[i].plain, k, off, len);
    }
  }

  lemma {:induction false} AddKeepsInv(s: System, typ: byte, body: seq<byte>)
    requires Inv(s)
    ensures Inv(Do(s, AddMessage(typ, body)))
  {
    if |body| < 0x100_0000 && |s.hashed| < 0xFFFF {
      var m := Message(typ, |s.hashed|, body);
      MoreHashed(s, m);
      WholeOfRaw(m, s.wEpoch);
      assert m in s.hashed + [m];
    }
  }

  lemma {:induction false} StepKeepsInv(s: System, step: Step)
    requires Inv(s)
    ensures Inv(Do(s, step))
    ensures s.hashed <= Do(s, step).hashed && s.handed <= Do(s, step).handed
  {
    match step
    case AddMessage(typ, body) => AddKeepsInv(s, typ, body);
    case Transmit(packet, mtu) => if packet.Ok(s.outgoing, mtu) { PacketOk(s.hashed, s.outgoing, packet, mtu); }
    case Deliver(i, aead, maxLen) => DeliverKeepsInv(s, i, aead, maxLen);
    case Next => NextKeepsInv(s);
    case _ =>
  }

  lemma {:induction false} RunKeepsInv(steps: seq<Step>)
    ensures Inv(Run(steps))
  {
    if steps != [] {
      RunKeepsInv(steps[..|steps| - 1]);
      StepKeepsInv(Run(steps[..|steps| - 1]), steps[|steps| - 1]);
    }
  }

  function Concat(parts: seq<seq<byte>>): seq<byte> {
    if parts == [] then [] else Concat(parts[..|parts| - 1]) + parts[|parts| - 1]
  }

  function Transcript(hashed: seq<Message>): seq<byte>
    requires forall m <- hashed :: |m.body| < 0x100_0000
  {
    if hashed == [] then [] else Transcript(hashed[..|hashed| - 1]) + Raw(hashed[|hashed| - 1])
  }

  lemma {:induction false} TranscriptOfPrefix(hashed: seq<Message>, handed: seq<seq<byte>>)
    requires Numbered(hashed) && |handed| <= |hashed|
    requires forall i :: 0 <= i < |handed| ==> handed[i] == Raw(hashed[i])
    ensures Concat(handed) == Transcript(hashed[..|handed|])
  {
    if handed != [] {
      var n := |handed| - 1;
      assert hashed[..n + 1][..n] == hashed[..n];
      TranscriptOfPrefix(hashed, handed[..n]);
    }
  }

  /** After any run the receiver has handed up the sender's first messages: each once, in order, with
      the bytes the sender hashed. The receiver's transcript is the sender's, cut at a message boundary. */
  lemma {:induction false} HandsUpWhatWasHashed(steps: seq<Step>)
    ensures var s := Run(steps);
      && Numbered(s.hashed) && |s.handed| <= |s.hashed|
      && (forall i :: 0 <= i < |s.handed| ==> s.handed[i] == Raw(s.hashed[i]))
      && Concat(s.handed) == Transcript(s.hashed[..|s.handed|])
  {
    RunKeepsInv(steps);
    TranscriptOfPrefix(Run(steps).hashed, Run(steps).handed);
  }

  /** A record of another epoch, or one that got through before in this one, changes nothing. */
  lemma {:induction false} OnlyNewOfEpoch(s: System, i: nat, aead: ReadAead, maxLen: nat)
    requires InWindow(s.ring) && i < |s.network|
    requires s.network[i].number.epoch != s.rEpoch || Stale(s.window, NumberOf(NumberBytes(s.network[i].number)))
    ensures Do(s, Deliver(i, aead, maxLen)) == s
  {
    if Honest(aead, s.network[i]) && GetsThrough(s, s.network[i], aead) {
      OpensSealed(s, s.network[i], aead, maxLen);
    }
  }

  /** A record that has got through will not again, for as long as the receiver keeps its keys. */
  lemma {:induction false} NeverTwice(s: System, i: nat, first: ReadAead, again: ReadAead, maxLen: nat)
    requires InWindow(s.ring) && i < |s.network| && Honest(first, s.network[i]) && GetsThrough(s, s.network[i], first)
    ensures var t := Do(s, Deliver(i, first, maxLen)); InWindow(t.ring) && Do(t, Deliver(i, again, maxLen)) == t
  {
    OpensSealed(s, s.network[i], first, maxLen);
    StepKeepsWindow(s, Deliver(i, first, maxLen));
    var t := Do(s, Deliver(i, first, maxLen));
    RecordedIsStale(s.window, NumberOf(NumberBytes(s.network[i].number)));
    OnlyNewOfEpoch(t, i, again, maxLen);
  }

  lemma {:induction false} CcsDelivered(s: System, i: nat, aead: ReadAead, maxLen: nat)
    requires InWindow(s.ring) && i < |s.network| && Honest(aead, s.network[i]) && GetsThrough(s, s.network[i], aead)
    requires s.network[i].typ == SSL3_RT_CHANGE_CIPHER_SPEC && s.network[i].plain == [SSL3_MT_CCS] && aead.nullCipher
    ensures var t := Do(s, Deliver(i, aead, maxLen)); t == s.(ccs := true, window := t.window)
  {
    OpensSealed(s, s.network[i], aead, maxLen);
  }

  lemma {:induction false} KeysChangeOnceTaken(s: System, window: Window)
    requires InWindow(s.ring) && !Unprocessed(s.ring, s.hasMessage)
    ensures var told := s.(ccs := true, window := window);
      && Do(told, ReaderKeys) == told
      && Do(Do(told, TakeChangeCipherSpec), ReaderKeys)
        == s.(ccs := false, rEpoch := (s.rEpoch + 1) % EPOCHS, window := Window(0, 0))
  {
  }

  /** How the receiver changes epochs, from any state in order, so any that a run leads to (RunKeepsInv): with
      nothing left over, a ChangeCipherSpec that gets through before it has keys is delivered and taken, and
      then, not before it is taken, its keys change. */
  lemma {:induction false} EpochChanges(s: System, i: nat, aead: ReadAead, maxLen: nat)
    requires Inv(s) && !Unprocessed(s.ring, s.hasMessage) && i < |s.network| && aead.nullCipher
    requires Honest(aead, s.network[i]) && GetsThrough(s, s.network[i], aead)
    requires s.network[i].typ == SSL3_RT_CHANGE_CIPHER_SPEC
    ensures var told := Do(s, Deliver(i, aead, maxLen));
      && told == s.(ccs := true, window := told.window) && Do(told, ReaderKeys) == told
      && Do(Do(told, TakeChangeCipherSpec), ReaderKeys)
        == s.(ccs := false, rEpoch := (s.rEpoch + 1) % EPOCHS, window := Window(0, 0))
  {
    assert RecordOk(s.hashed, s.network[i]);
    CcsDelivered(s, i, aead, maxLen);
    KeysChangeOnceTaken(s, Do(s, Deliver(i, aead, maxLen)).window);
  }

  /** No message, and no part of one, crosses a change of keys but the one handed up. */
  lemma {:induction false} NothingCrosses(s: System)
    requires Inv(s)
    ensures Do(s, ReaderKeys) != s ==> !s.ccs
    ensures Do(s, ReaderKeys) != s ==> forall i :: 0 <= i < |s.ring.slots| && s.ring.slots[i].Some? ==>
      s.hasMessage && i == s.ring.readSeq % 7
  {
    if s.ccs || Unprocessed(s.ring, s.hasMessage) {
      assert Do(s, ReaderKeys) == s;
    }
  }

  // ---- when a delivery is refused ----

  /** A genuine fragment is refused only for its size, outside its turn in the encrypted epoch, or exactly
      one flight ahead of the message awaited; further ahead, or behind, it is ignored. */
  lemma {:induction false} RefusedExactly(hashed: seq<Message>, r: Ring, epoch: nat, maxLen: nat, k: nat, off: nat,
    len: nat)
    requires Numbered(hashed) && RingOk(hashed, r) && k < |hashed| && off + len <= |hashed[k].body|
    ensures AcceptAll(r, epoch, maxLen, FragmentOf(hashed[k], off, len)).1 ==
      if |hashed[k].body| > maxLen then Some(IllegalParameter)
      else if epoch == 1 && k != r.readSeq then Some(UnexpectedMessage)
      else if k == r.readSeq + SSL_MAX_HANDSHAKE_FLIGHT then Some(InternalError)
      else None
  {
    var m := hashed[k];
    OneFragment(r, epoch, maxLen, m, off, len);
    if r.readSeq <= k < r.readSeq + SSL_MAX_HANDSHAKE_FLIGHT {
      var p := Expected(r, SliceFragment(m, off, len).header);
      WindowIsInjective(r.readSeq, k, p.message.seqno);
      assert Agrees(hashed, p);
    }
  }

  // ---- when a message is complete ----

  /** Bytes [off, off + len) of message k. */
  datatype Slice = Slice(k: nat, off: nat, len: nat)

  predicate SliceOk(hashed: seq<Message>, s: Slice) {
    s.k < |hashed| && s.off + s.len <= |hashed[s.k].body|
  }

  /** The ring after slices arrive, in the order given. */
  function AfterAll(hashed: seq<Message>, r: Ring, epoch: nat, maxLen: nat, slices: seq<Slice>): (q: Ring)
    requires Numbered(hashed) && RingOk(hashed, r) && forall s <- slices :: SliceOk(hashed, s)
    ensures RingOk(hashed, q) && q.readSeq == r.readSeq
  {
    if slices == [] then r
    else
      var before := AfterAll(hashed, r, epoch, maxLen, slices[..|slices| - 1]);
      var s := slices[|slices| - 1];
      assert s in slices;
      AfterOne(hashed, before, epoch, maxLen, s)
  }

  function AfterOne(hashed: seq<Message>, r: Ring, epoch: nat, maxLen: nat, s: Slice): (q: Ring)
    requires Numbered(hashed) && RingOk(hashed, r) && SliceOk(hashed, s)
    ensures RingOk(hashed, q) && q.readSeq == r.readSeq
  {
    DeliverKeepsRing(hashed, r, epoch, maxLen, FragmentOf(hashed[s.k], s.off, s.len), s.k, s.off, s.len);
    AcceptAll(r, epoch, maxLen, FragmentOf(hashed[s.k], s.off, s.len)).0
  }

  /** The receiver takes part in message k: it is in the window, not too long, and in its epoch. */
  predicate Welcome(hashed: seq<Message>, r: Ring, epoch: nat, maxLen: nat, k: nat) {
    r.readSeq <= k < |hashed| && k < r.readSeq + SSL_MAX_HANDSHAKE_FLIGHT && |hashed[k].body| <= maxLen &&
      (epoch == 1 ==> k == r.readSeq)
  }

  lemma {:induction false} OwnSlot(hashed: seq<Message>, r: Ring, epoch: nat, maxLen: nat, s: Slice)
    requires Numbered(hashed) && RingOk(hashed, r) && SliceOk(hashed, s) && Welcome(hashed, r, epoch, maxLen, s.k)
    ensures var f := SliceFragment(hashed[s.k], s.off, s.len); var p := Expected(r, f.header);
      && Agrees(hashed, p) && p.message.seqno == s.k && |p.got| == |hashed[s.k].body|
      && AfterOne(hashed, r, epoch, maxLen, s).slots[Index(s.k)] == Some(Insert(p, s.off, f.body))
  {
    OneFragment(r, epoch, maxLen, hashed[s.k], s.off, s.len);
    var p := Expected(r, SliceFragment(hashed[s.k], s.off, s.len).header);
    WindowIsInjective(r.readSeq, s.k, p.message.seqno);
    assert Agrees(hashed, p);
  }

  lemma {:induction false} OtherSlot(hashed: seq<Message>, r: Ring, epoch: nat, maxLen: nat, s: Slice, k: nat)
    requires Numbered(hashed) && RingOk(hashed, r) && SliceOk(hashed, s) && Welcome(hashed, r, epoch, maxLen, k) &&
      s.k != k
    ensures AfterOne(hashed, r, epoch, maxLen, s).slots[Index(k)] == r.slots[Index(k)]
  {
    OneFragment(r, epoch, maxLen, hashed[s.k], s.off, s.len);
    if r.readSeq <= s.k < r.readSeq + SSL_MAX_HANDSHAKE_FLIGHT {
      WindowIsInjective(r.readSeq, k, s.k);
    }
  }

  lemma {:induction false} OneArrives(hashed: seq<Message>, r: Ring, epoch: nat, maxLen: nat, s: Slice, k: nat)
    requires Numbered(hashed) && RingOk(hashed, r) && SliceOk(hashed, s) && Welcome(hashed, r, epoch, maxLen, k)
    ensures var q := AfterOne(hashed, r, epoch, maxLen, s);
      && (forall j :: 0 <= j < |hashed[k].body| ==>
        (Arrived(q, k, j) <==> Arrived(r, k, j) || (s.k == k && s.off <= j < s.off + s.len)))
      && (r.slots[Index(k)].Some? || s.k == k <==> q.slots[Index(k)].Some?)
  {
    if s.k == k {
      OwnSlot(hashed, r, epoch, maxLen, s);
    } else {
      OtherSlot(hashed, r, epoch, maxLen, s, k);
    }
  }

  /** Whatever else arrives, and in whatever order: a byte has arrived exactly when it had, or a slice
      brought it. */
  predicate Brought(slices: seq<Slice>, k: nat, j: nat) {
    exists s <- slices :: s.k == k && s.off <= j < s.off + s.len
  }

  lemma {:induction false} BroughtOneMore(front: seq<Slice>, last: Slice, k: nat, j: nat)
    ensures Brought(front + [last], k, j) <==>
      Brought(front, k, j) || (last.k == k && last.off <= j < last.off + last.len)
  {
    assert (front + [last])[|front|] == last;
    assert forall i :: 0 <= i < |front| ==> (front + [last])[i] == front[i];
  }

  lemma {:induction false} ArrivalIsExact(hashed: seq<Message>, r: Ring, epoch: nat, maxLen: nat, slices: seq<Slice>,
    k: nat)
    requires Numbered(hashed) && RingOk(hashed, r) && Welcome(hashed, r, epoch, maxLen, k)
    requires forall s <- slices :: SliceOk(hashed, s)
    ensures var q := AfterAll(hashed, r, epoch, maxLen, slices);
      && (forall j :: 0 <= j < |hashed[k].body| ==>
        (Arrived(q, k, j) <==> Arrived(r, k, j) || Brought(slices, k, j)))
      && (q.slots[Index(k)].Some? <==> r.slots[Index(k)].Some? || exists s <- slices :: s.k == k)
  {
    if slices != [] {
      var front, last := slices[..|slices| - 1], slices[|slices| - 1];
      ArrivalIsExact(hashed, r, epoch, maxLen, front, k);
      OneArrives(hashed, AfterAll(hashed, r, epoch, maxLen, front), epoch, maxLen, last, k);
      assert slices == front + [last];
      forall j | 0 <= j < |hashed[k].body| ensures Brought(slices, k, j) <==>
        Brought(front, k, j) || (last.k == k && last.off <= j < last.off + last.len) {
        BroughtOneMore(front, last, k, j);
      }
    }
  }

  /** Pieces laid over a whole flight leave no byte of a message out, and pass over no message. */
  lemma {:induction false} PiecesCover(msgs: seq<Outgoing>, pieces: seq<Piece>, i: nat, j: nat)
    requires Reach(msgs, Cursor(0, 0), pieces).Some? && i < |msgs|
    ensures var c := Reach(msgs, Cursor(0, 0), pieces).value;
      && (i < c.written ==> exists p <- pieces :: p.index == i)
      && (j < BodyLen(msgs[i]) && (i < c.written || (i == c.written && j < c.offset)) ==>
        exists p <- pieces :: p.index == i && p.off <= j < p.off + p.len)
  {
    if pieces != [] {
      var front, last := pieces[..|pieces| - 1], pieces[|pieces| - 1];
      PiecesCover(msgs, front, i, j);
      assert pieces == front + [last];
      assert last in pieces;
    }
  }

  /** One whole flight through the network, in any order and among anything else, completes every message
      of it that the receiver takes part in, with the bytes that were hashed. */
  lemma {:induction false} FlightCompletes(hashed: seq<Message>, r: Ring, epoch: nat, maxLen: nat, msgs: seq<Outgoing>,
    pieces: seq<Piece>, slices: seq<Slice>, i: nat)
    requires Numbered(hashed) && RingOk(hashed, r) && forall s <- slices :: SliceOk(hashed, s)
    requires i < |msgs| && !msgs[i].isCcs && Whole(msgs[i]).Some? && Whole(msgs[i]).value in hashed
    requires Welcome(hashed, r, epoch, maxLen, Whole(msgs[i]).value.seqno)
    requires Reach(msgs, Cursor(0, 0), pieces) == Some(Cursor(|msgs|, 0))
    requires forall p <- pieces :: p.index == i ==> Slice(Whole(msgs[i]).value.seqno, p.off, p.len) in slices
    ensures var k := Whole(msgs[i]).value.seqno; var slot := AfterAll(hashed, r, epoch, maxLen, slices).slots[Index(k)];
      slot.Some? && slot.value.Complete() && slot.value.message == hashed[k]
  {
    var k := Whole(msgs[i]).value.seqno;
    var q := AfterAll(hashed, r, epoch, maxLen, slices);
    ArrivalIsExact(hashed, r, epoch, maxLen, slices, k);
    PiecesCover(msgs, pieces, i, 0);
    var piece :| piece in pieces && piece.index == i;
    assert Slice(k, piece.off, piece.len) in slices;
    var p := q.slots[Index(k)].value;
    WindowIsInjective(r.readSeq, k, p.message.seqno);
    assert Agrees(hashed, p);
    forall j | 0 <= j < |p.got| ensures p.got[j] {
      PiecesCover(msgs, pieces, i, j);
      var t :| t in pieces && t.index == i && t.off <= j < t.off + t.len;
      assert Slice(k, t.off, t.len) in slices;
      assert Arrived(q, k, j);
    }
    assert p.message.body == hashed[k].body;
  }

  // ---- progress: a flight sent again gets through ----

  ghost function From(s: System, steps: seq<Step>): (t: System)
    requires InWindow(s.ring)
    ensures InWindow(t.ring)
  {
    if steps == [] then s
    else
      var t := From(s, steps[..|steps| - 1]);
      StepKeepsWindow(t, steps[|steps| - 1]);
      Do(t, steps[|steps| - 1])
  }

  lemma {:induction false} FromOne(s: System, steps: seq<Step>, step: Step)
    requires InWindow(s.ring)
    ensures From(s, steps + [step]) == Do(From(s, steps), step)
  {
    assert (steps + [step])[..|steps|] == steps;
  }

  lemma {:induction false} RunFrom(steps: seq<Step>, more: seq<Step>)
    ensures Run(steps + more) == From(Run(steps), more)
  {
    if more == [] {
      assert steps + more == steps;
    } else {
      assert (steps + more)[..|steps + more| - 1] == steps + more[..|more| - 1];
      RunFrom(steps, more[..|more| - 1]);
    }
  }

  /** What may happen while a flight is under way: anything but that the receiver moves on. The receiver
      takes messages of up to limit bytes. */
  predicate Calm(step: Step, limit: nat) {
    !step.Next? && !step.ReaderKeys? && (step.Deliver? ==> step.maxLen >= limit)
  }

  predicate AllCalm(steps: seq<Step>, limit: nat) {
    forall i :: 0 <= i < |steps| ==> Calm(steps[i], limit)
  }

  /** The receiver has not moved on, and nothing sent was taken back. */
  ghost predicate Waiting(s: System, t: System) {
    && t.ring.readSeq == s.ring.readSeq && t.rEpoch == s.rEpoch && t.handed == s.handed
    && s.hashed <= t.hashed && s.network <= t.network
  }

  lemma {:induction false} CalmWaits(s: System, step: Step, limit: nat)
    requires Inv(s) && Calm(step, limit)
    ensures Waiting(s, Do(s, step)) && Inv(Do(s, step))
  {
    StepKeepsInv(s, step);
  }

  /** The bytes [off, off + len) of message k are there, and the message even if they are none. */
  predicate Has(r: Ring, k: nat, off: nat, len: nat)
    requires InWindow(r)
  {
    var slot := r.slots[Index(k)];
    slot.Some? && slot.value.message.seqno == k && forall j :: off <= j < off + len ==> Arrived(r, k, j)
  }

  lemma {:induction false} SliceGivesHas(hashed: seq<Message>, r: Ring, epoch: nat, maxLen: nat, s: Slice, k: nat,
    off: nat, len: nat)
    requires Numbered(hashed) && RingOk(hashed, r) && SliceOk(hashed, s) && Welcome(hashed, r, epoch, maxLen, k)
    requires off + len <= |hashed[k].body| && (Has(r, k, off, len) || s == Slice(k, off, len))
    ensures Has(AfterOne(hashed, r, epoch, maxLen, s), k, off, len)
  {
    OneArrives(hashed, r, epoch, maxLen, s, k);
    var q := AfterOne(hashed, r, epoch, maxLen, s);
    WindowIsInjective(r.readSeq, k, q.slots[Index(k)].value.message.seqno);
  }

  /** The i-th record on the network is that slice of message k. */
  ghost predicate Brings(s: System, i: nat, k: nat, off: nat, len: nat) {
    && i < |s.network| && s.network[i].typ == SSL3_RT_HANDSHAKE
    && IsSlice(s.hashed, s.network[i].plain, k, off, len)
  }

  lemma {:induction false} DeliveryGivesHas(s: System, i: nat, aead: ReadAead, maxLen: nat, k: nat, off: nat, len: nat)
    requires Inv(s) && Welcome(s.hashed, s.ring, s.rEpoch, maxLen, k) && off + len <= |s.hashed[k].body|
    requires i < |s.network| && Honest(aead, s.network[i]) && GetsThrough(s, s.network[i], aead)
    requires Has(s.ring, k, off, len) || Brings(s, i, k, off, len)
    ensures Has(Open(s, s.network[i], aead, maxLen).ring, k, off, len)
  {
    OpensSealed(s, s.network[i], aead, maxLen);
    if Brings(s, i, k, off, len) {
      SliceGivesHas(s.hashed, s.ring, s.rEpoch, maxLen, Slice(k, off, len), k, off, len);
    } else if s.network[i].typ == SSL3_RT_HANDSHAKE {
      assert RecordOk(s.hashed, s.network[i]);
      var l: nat, o: nat, n: nat :| IsSlice(s.hashed, s.network[i].plain, l, o, n);
      SliceGivesHas(s.hashed, s.ring, s.rEpoch, maxLen, Slice(l, o, n), k, off, len);
    }
  }

  /** The step delivers the i-th record, and the record layer lets it through. */
  predicate Delivers(s: System, step: Step, i: nat) {
    && step.Deliver? && step.i == i < |s.network| && Honest(step.aead, s.network[i])
    && GetsThrough(s, s.network[i], step.aead)
  }

  lemma {:induction false} CalmStepGivesHas(s: System, step: Step, limit: nat, i: nat, k: nat, off: nat, len: nat)
    requires Inv(s) && Calm(step, limit) && Welcome(s.hashed, s.ring, s.rEpoch, limit, k) &&
      off + len <= |s.hashed[k].body|
    requires Has(s.ring, k, off, len) || (Brings(s, i, k, off, len) && Delivers(s, step, i))
    ensures Has(Do(s, step).ring, k, off, len)
  {
    if step.Deliver? && Delivers(s, step, step.i) {
      DeliveryGivesHas(s, step.i, step.aead, step.maxLen, k, off, len);
    }
  }

  /** Some step on the way does. */
  ghost predicate IsDelivered(s: System, steps: seq<Step>, i: nat)
    requires InWindow(s.ring)
  {
    steps != [] &&
    var front := steps[..|steps| - 1];
    Delivers(From(s, front), steps[|steps| - 1], i) || IsDelivered(s, front, i)
  }

  lemma {:induction false} StillWaiting(s: System, steps: seq<Step>, limit: nat)
    requires Inv(s) && AllCalm(steps, limit)
    ensures Waiting(s, From(s, steps)) && Inv(From(s, steps))
  {
    if steps != [] {
      StillWaiting(s, steps[..|steps| - 1], limit);
      CalmWaits(From(s, steps[..|steps| - 1]), steps[|steps| - 1], limit);
    }
  }

  /** A slice delivered while the receiver waits is there at the end, whatever else happens. */
  lemma {:induction false} DeliveredIsThere(s: System, steps: seq<Step>, limit: nat, i: nat, k: nat, off: nat, len: nat)
    requires Inv(s) && AllCalm(steps, limit) && Welcome(s.hashed, s.ring, s.rEpoch, limit, k) &&
      Brings(s, i, k, off, len)
    requires IsDelivered(s, steps, i)
    ensures Has(From(s, steps).ring, k, off, len)
  {
    var front, last := steps[..|steps| - 1], steps[|steps| - 1];
    StillWaiting(s, front, limit);
    if !Delivers(From(s, front), last, i) {
      DeliveredIsThere(s, front, limit, i, k, off, len);
    }
    CalmStepGivesHas(From(s, front), last, limit, i, k, off, len);
  }

  ghost function AllRecords(sent: seq<Packet>): seq<SealedRecord> {
    if sent == [] then [] else AllRecords(sent[..|sent| - 1]) + sent[|sent| - 1].records
  }

  function Transmits(sent: seq<Packet>, mtu: nat): seq<Step> {
    if sent == [] then [] else Transmits(sent[..|sent| - 1], mtu) + [Transmit(sent[|sent| - 1], mtu)]
  }

  ghost predicate AllOk(msgs: seq<Outgoing>, sent: seq<Packet>, mtu: nat) {
    forall i :: 0 <= i < |sent| ==> sent[i].Ok(msgs, mtu)
  }

  lemma {:induction false} TransmitsPut(s: System, sent: seq<Packet>, mtu: nat)
    requires InWindow(s.ring) && AllOk(s.outgoing, sent, mtu)
    ensures From(s, Transmits(sent, mtu)) == s.(network := s.network + AllRecords(sent))
  {
    if sent == [] {
      assert s.network + AllRecords(sent) == s.network;
    } else {
      var front, last := sent[..|sent| - 1], sent[|sent| - 1];
      TransmitsPut(s, front, mtu);
      FromOne(s, Transmits(front, mtu), Transmit(last, mtu));
      TransmitPuts(s.(network := s.network + AllRecords(front)), last, mtu);
      Regroup(s.network, AllRecords(front), last.records);
    }
  }

  lemma {:induction false} TransmitPuts(s: System, packet: Packet, mtu: nat)
    requires InWindow(s.ring) && packet.Ok(s.outgoing, mtu)
    ensures Do(s, Transmit(packet, mtu)) == s.(network := s.network + packet.records)
  {
  }

  lemma {:induction false} RecordsCarry(msgs: seq<Outgoing>, sent: seq<Packet>, mtu: nat)
    requires AllOk(msgs, sent, mtu)
    ensures CarriesAll(msgs, AllRecords(sent), AllPieces(sent))
  {
    if sent != [] {
      RecordsCarry(msgs, sent[..|sent| - 1], mtu);
      assert sent[|sent| - 1].Ok(msgs, mtu);
    }
  }

  /** The pieces of the flight are on the network, from the base-th record on. */
  ghost predicate OnNetwork(s: System, base: nat, pieces: seq<Piece>) {
    base + |pieces| <= |s.network| && forall a :: 0 <= a < |pieces| ==>
      Carries(s.outgoing, s.network[base + a], pieces[a])
  }

  lemma {:induction false} FlightOnNetwork(s: System, sent: seq<Packet>, mtu: nat)
    requires Inv(s) && AllOk(s.outgoing, sent, mtu)
    ensures var t := From(s, Transmits(sent, mtu));
      Inv(t) && OnNetwork(t, |s.network|, AllPieces(sent)) && t == s.(network := t.network)
  {
    TransmitsPut(s, sent, mtu);
    RecordsCarry(s.outgoing, sent, mtu);
    TransmitsCalm(sent, mtu);
    StillWaiting(s, Transmits(sent, mtu), 0);
  }

  lemma {:induction false} TransmitsCalm(sent: seq<Packet>, mtu: nat)
    ensures AllCalm(Transmits(sent, mtu), 0)
  {
    if sent != [] {
      TransmitsCalm(sent[..|sent| - 1], mtu);
    }
  }

  /** Message k is in the flight, to be sent at the receiver's epoch. */
  predicate InFlight(s: System, k: nat, i: nat) {
    && k < |s.hashed| && i < |s.outgoing| && !s.outgoing[i].isCcs && s.outgoing[i].epoch == s.rEpoch
    && Whole(s.outgoing[i]) == Some(s.hashed[k])
  }

  /** The receiver takes part in message k, and the flight has it. */
  predicate TakesPart(s: System, limit: nat, k: nat) {
    Welcome(s.hashed, s.ring, s.rEpoch, limit, k) && exists i :: 0 <= i < |s.outgoing| && InFlight(s, k, i)
  }

  /** So for all messages from the one awaited up to n. */
  predicate AllTakePart(s: System, limit: nat, n: nat)
    decreases n
  {
    s.ring.readSeq == n || (s.ring.readSeq < n && TakesPart(s, limit, n - 1) && AllTakePart(s, limit, n - 1))
  }

  lemma {:induction false} EachTakesPart(s: System, limit: nat, n: nat, k: nat)
    requires AllTakePart(s, limit, n) && s.ring.readSeq <= k < n
    ensures TakesPart(s, limit, k)
  {
    if k < n - 1 {
      EachTakesPart(s, limit, n - 1, k);
    }
  }

  lemma {:induction false} SamePart(s: System, t: System, limit: nat, n: nat)
    requires AllTakePart(s, limit, n) && t == s.(network := t.network)
    ensures AllTakePart(t, limit, n)
    decreases n
  {
    if s.ring.readSeq < n {
      var i :| 0 <= i < |s.outgoing| && InFlight(s, n - 1, i);
      assert InFlight(t, n - 1, i);
      SamePart(s, t, limit, n - 1);
    }
  }

  /** All n records from the base-th on that are of the receiver's epoch. */
  ghost predicate AllDelivered(s: System, steps: seq<Step>, base: nat, n: nat)
    requires InWindow(s.ring)
  {
    base + n <= |s.network| && forall i :: base <= i < base + n && s.network[i].number.epoch == s.rEpoch ==>
      IsDelivered(s, steps, i)
  }

  /** The a-th piece of the flight, once transmitted and delivered, is there. */
  lemma {:induction false} PieceIsThere(s: System, base: nat, pieces: seq<Piece>, a: nat, between: seq<Step>,
    limit: nat, k: nat, i: nat)
    requires Inv(s) && AllCalm(between, limit) && Welcome(s.hashed, s.ring, s.rEpoch, limit, k) && InFlight(s, k, i)
    requires OnNetwork(s, base, pieces) && AllDelivered(s, between, base, |pieces|)
    requires a < |pieces| && pieces[a].index == i
    ensures Has(From(s, between).ring, k, pieces[a].off, pieces[a].len)
  {
    var p := pieces[a];
    assert Carries(s.outgoing, s.network[base + a], p);
    CarriedBrings(s, base + a, k, i, p);
    assert IsDelivered(s, between, base + a);
    DeliveredIsThere(s, between, limit, base + a, k, p.off, p.len);
  }

  lemma {:induction false} CarriedBrings(s: System, r: nat, k: nat, i: nat, p: Piece)
    requires Numbered(s.hashed) && InFlight(s, k, i) && r < |s.network| && Carries(s.outgoing, s.network[r], p) &&
      p.index == i
    ensures Brings(s, r, k, p.off, p.len)
  {
  }

  /** Message k has been received whole. */
  predicate Received(r: Ring, k: nat)
    requires InWindow(r)
  {
    var slot := r.slots[Index(k)];
    slot.Some? && slot.value.message.seqno == k && slot.value.Complete()
  }

  /** Every message of a flight has a piece, and every byte of one lies in a piece. */
  lemma {:induction false} PieceOfMessage(msgs: seq<Outgoing>, pieces: seq<Piece>, i: nat) returns (a: nat)
    requires Reach(msgs, Cursor(0, 0), pieces) == Some(Cursor(|msgs|, 0)) && i < |msgs|
    ensures a < |pieces| && pieces[a].index == i
  {
    PiecesCover(msgs, pieces, i, 0);
    a :| 0 <= a < |pieces| && pieces[a].index == i;
  }

  lemma {:induction false} PieceOfByte(msgs: seq<Outgoing>, pieces: seq<Piece>, i: nat, j: nat) returns (a: nat)
    requires Reach(msgs, Cursor(0, 0), pieces) == Some(Cursor(|msgs|, 0)) && i < |msgs| && j < BodyLen(msgs[i])
    ensures a < |pieces| && pieces[a].index == i && pieces[a].off <= j < pieces[a].off + pieces[a].len
  {
    PiecesCover(msgs, pieces, i, j);
    a :| 0 <= a < |pieces| && pieces[a].index == i && pieces[a].off <= j < pieces[a].off + pieces[a].len;
  }

  lemma {:induction false} AllPiecesAreWhole(s: System, base: nat, pieces: seq<Piece>, between: seq<Step>, limit: nat,
    k: nat, i: nat)
    requires Inv(s) && AllCalm(between, limit) && Welcome(s.hashed, s.ring, s.rEpoch, limit, k) && InFlight(s, k, i)
    requires OnNetwork(s, base, pieces) && AllDelivered(s, between, base, |pieces|)
    requires Reach(s.outgoing, Cursor(0, 0), pieces) == Some(Cursor(|s.outgoing|, 0))
    ensures Received(From(s, between).ring, k)
  {
    var t := From(s, between);
    var a := PieceOfMessage(s.outgoing, pieces, i);
    PieceIsThere(s, base, pieces, a, between, limit, k, i);
    StillWaiting(s, between, limit);
    var p := t.ring.slots[Index(k)].value;
    assert Agrees(t.hashed, p);
    forall j | 0 <= j < |p.got| ensures p.got[j] {
      var b := PieceOfByte(s.outgoing, pieces, i, j);
      PieceIsThere(s, base, pieces, b, between, limit, k, i);
      assert Arrived(t.ring, k, j);
    }
  }

  /** The receiver takes n messages up. */
  function TakeUp(n: nat): seq<Step> {
    if n == 0 then [] else TakeUp(n - 1) + [Get] + [Next]
  }

  /** All messages up to n have been received, and n is in the window. */
  ghost predicate Ready(s: System, n: nat) {
    && Inv(s) && s.ring.readSeq <= n <= |s.hashed| && n <= s.ring.readSeq + SSL_MAX_HANDSHAKE_FLIGHT
    && forall k :: s.ring.readSeq <= k < n ==> Received(s.ring, k)
  }

  lemma {:induction false} TakeOneUp(s: System, n: nat)
    requires Ready(s, n) && s.ring.readSeq < n
    ensures var t := Do(Do(s, Get), Next); Ready(t, n) && t.ring.readSeq == s.ring.readSeq + 1 && t.hashed == s.hashed
  {
    var g := Do(s, Get);
    StepKeepsInv(s, Get);
    StepKeepsInv(g, Next);
    assert Received(s.ring, s.ring.readSeq);
    var t := Do(g, Next);
    assert Agrees(s.hashed, Current(s.ring).value);
    assert t.ring == Advance(s.ring);
    forall k | t.ring.readSeq <= k < n ensures Received(t.ring, k) {
      assert Received(s.ring, k);
      WindowIsInjective(s.ring.readSeq, k, s.ring.readSeq);
    }
  }

  lemma {:induction false} FromTwo(s: System, steps: seq<Step>, a: Step, b: Step)
    requires InWindow(s.ring)
    ensures From(s, steps + [a] + [b]) == Do(Do(From(s, steps), a), b)
  {
    FromOne(s, steps, a);
    FromOne(s, steps + [a], b);
  }

  lemma {:induction false} TakeAllUp(s: System, n: nat, m: nat)
    requires Ready(s, n) && s.ring.readSeq + m <= n
    ensures var t := From(s, TakeUp(m)); Ready(t, n) && t.ring.readSeq == s.ring.readSeq + m && t.hashed == s.hashed
  {
    if m > 0 {
      TakeAllUp(s, n, m - 1);
      FromTwo(s, TakeUp(m - 1), Get, Next);
      TakeOneUp(From(s, TakeUp(m - 1)), n);
    }
  }

  lemma {:induction false} FlightIsReceived(s: System, base: nat, pieces: seq<Piece>, between: seq<Step>, limit: nat,
    n: nat)
    requires Inv(s) && AllCalm(between, limit) && OnNetwork(s, base, pieces) &&
      AllDelivered(s, between, base, |pieces|)
    requires Reach(s.outgoing, Cursor(0, 0), pieces) == Some(Cursor(|s.outgoing|, 0))
    requires AllTakePart(s, limit, n)
    ensures n <= s.ring.readSeq + SSL_MAX_HANDSHAKE_FLIGHT && n <= |s.hashed|
    ensures forall k :: s.ring.readSeq <= k < n ==> Received(From(s, between).ring, k)
  {
    forall k | s.ring.readSeq <= k < n ensures Received(From(s, between).ring, k) {
      EachTakesPart(s, limit, n, k);
      var i :| 0 <= i < |s.outgoing| && InFlight(s, k, i);
      AllPiecesAreWhole(s, base, pieces, between, limit, k, i);
    }
  }

  /** The flight as transmitted, with a way for its records, and the messages up to n that get through. */
  ghost predicate Passage(s: System, sent: seq<Packet>, mtu: nat, between: seq<Step>, limit: nat, n: nat)
    requires InWindow(s.ring)
  {
    && AllOk(s.outgoing, sent, mtu) && Reach(s.outgoing, Cursor(0, 0), AllPieces(sent)) == Some(Cursor(|s.outgoing|, 0))
    && AllCalm(between, limit)
    && AllDelivered(From(s, Transmits(sent, mtu)), between, |s.network|, |AllPieces(sent)|)
    && AllTakePart(s, limit, n)
  }

  /** Exactly the first n messages hashed have been handed up. */
  ghost predicate HandedUp(hashed: seq<Message>, handed: seq<seq<byte>>, n: nat) {
    Numbered(hashed) && |handed| == n <= |hashed| && forall k :: 0 <= k < n ==> handed[k] == Raw(hashed[k])
  }

  lemma {:induction false} ReceivedIsTakenUp(s: System, hashed: seq<Message>, n: nat)
    requires Ready(s, n) && hashed <= s.hashed && n <= |hashed|
    ensures HandedUp(hashed, From(s, TakeUp(n - s.ring.readSeq)).handed, n)
  {
    TakeAllUp(s, n, n - s.ring.readSeq);
    FirstOnes(hashed, From(s, TakeUp(n - s.ring.readSeq)), n);
  }

  lemma {:induction false} DeliveredIsTakenUp(s: System, base: nat, pieces: seq<Piece>, between: seq<Step>, limit: nat,
    n: nat)
    requires Inv(s) && AllCalm(between, limit) && OnNetwork(s, base, pieces) && AllTakePart(s, limit, n)
    requires AllDelivered(s, between, base, |pieces|)
    requires Reach(s.outgoing, Cursor(0, 0), pieces) == Some(Cursor(|s.outgoing|, 0))
    ensures s.ring.readSeq <= n && HandedUp(s.hashed, From(From(s, between), TakeUp(n - s.ring.readSeq)).handed, n)
  {
    FlightIsReceived(s, base, pieces, between, limit, n);
    StillWaiting(s, between, limit);
    ReceivedIsTakenUp(From(s, between), s.hashed, n);
  }

  lemma {:induction false} TransmittedIsTakenUp(s: System, sent: seq<Packet>, mtu: nat, between: seq<Step>, limit: nat,
    n: nat)
    requires Inv(s) && Passage(s, sent, mtu, between, limit, n)
    ensures s.ring.readSeq <= n
    ensures HandedUp(s.hashed, From(From(From(s, Transmits(sent, mtu)), between), TakeUp(n - s.ring.readSeq)).handed, n)
  {
    var t := From(s, Transmits(sent, mtu));
    FlightOnNetwork(s, sent, mtu);
    SamePart(s, t, limit, n);
    DeliveredIsTakenUp(t, |s.network|, AllPieces(sent), between, limit, n);
  }

  lemma {:induction false} RunInParts(steps: seq<Step>, a: seq<Step>, b: seq<Step>, c: seq<Step>)
    ensures Run(steps + a + b + c) == From(From(From(Run(steps), a), b), c)
  {
    RunFrom(steps, a);
    RunFrom(steps + a, b);
    RunFrom(steps + a + b, c);
  }

  /** From any reachable state: transmit the whole flight, deliver each of its records at least once, in
      any order and amid whatever else happens while the receiver waits, and let it take messages up. Then
      all messages of the flight up to n that it takes part in have been handed up. */
  lemma {:induction false} FlightGetsThrough(steps: seq<Step>, sent: seq<Packet>, mtu: nat, between: seq<Step>,
    limit: nat, n: nat)
    requires Passage(Run(steps), sent, mtu, between, limit, n)
    ensures HandedUp(Run(steps).hashed,
      Run(steps + Transmits(sent, mtu) + between + TakeUp(n - Run(steps).ring.readSeq)).handed, n)
  {
    var a, c := Transmits(sent, mtu), TakeUp(n - Run(steps).ring.readSeq);
    assert HandedUp(Run(steps).hashed, From(From(From(Run(steps), a), between), c).handed, n) by {
      RunKeepsInv(steps);
      TransmittedIsTakenUp(Run(steps), sent, mtu, between, limit, n);
    }
    RunInParts(steps, a, between, c);
  }

  lemma {:induction false} FirstOnes(hashed: seq<Message>, t: System, n: nat)
    requires Inv(t) && t.ring.readSeq == n <= |hashed| && hashed <= t.hashed
    ensures HandedUp(hashed, t.handed, n)
  {
  }
}
